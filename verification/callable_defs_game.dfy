/** `CallableDefsGame`: the built-in (game) callables, each name holding
    its variants in the order they were added. A variant records, per
    engine id, the featuresets it exists in. Names are kept in the order
    they were first added, as a JavaScript `Map` iterates its keys. The
    variant's documentation fields are carried along unread, as `info`. */
module CallableDefsGames {

  /** A raw scope: an engine and some of its featuresets. */
  datatype FeaturesetsScope = FeaturesetsScope(engine: string, featuresets: seq<string>)

  /** A raw variant: its documentation and its list of raw scopes. */
  datatype VariantRaw<X> = VariantRaw(info: X, scopes: seq<FeaturesetsScope>)

  /** A stored variant: its name, its documentation and its featuresets by
      engine. */
  datatype GameDef<X> = GameDef(name: string, info: X, scopes: map<string, set<string>>)

  datatype Store<X> = Store(names: seq<string>, variants: map<string, seq<GameDef<X>>>)

  /** The variants stored under a name; none for a missing name. */
  function VariantsOf<X>(st: Store<X>, name: string): seq<GameDef<X>> {
    if name in st.variants then st.variants[name] else []
  }

  /** The loop over a variant's raw scopes: the first scope of an engine
      makes its set, a later one of the same engine adds to it. */
  function EngineScopes(raws: seq<FeaturesetsScope>): map<string, set<string>>
    decreases |raws|
  {
    if |raws| == 0 then map[]
    else
      var m := EngineScopes(raws[..|raws| - 1]);
      var r := raws[|raws| - 1];
      var fs := set k | 0 <= k < |r.featuresets| :: r.featuresets[k];
      if r.engine !in m then m[r.engine := fs] else m[r.engine := m[r.engine] + fs]
  }

  /** The stored form of a raw variant of a name. */
  function DefOf<X>(name: string, v: VariantRaw<X>): GameDef<X> {
    GameDef(name, v.info, EngineScopes(v.scopes))
  }

  /** The stored forms of the raw variants of a name, in order. */
  function DefsOf<X>(name: string, vs: seq<VariantRaw<X>>): (ds: seq<GameDef<X>>)
    ensures |ds| == |vs| && forall k :: 0 <= k < |vs| ==> ds[k] == DefOf(name, vs[k])
  {
    seq(|vs|, k requires 0 <= k < |vs| => DefOf(name, vs[k]))
  }

  /** One name of `addDefs`: a missing name gets an empty list first, then
      the name's variants are pushed onto its list. */
  function AddName<X>(st: Store<X>, name: string, vs: seq<VariantRaw<X>>): Store<X> {
    Store(if name in st.variants then st.names else st.names + [name],
          st.variants[name := VariantsOf(st, name) + DefsOf(name, vs)])
  }

  /** `addDefs`: every name of the raw object in turn. */
  function AddDefs<X>(st: Store<X>, raw: seq<(string, seq<VariantRaw<X>>)>): Store<X>
    decreases |raw|
  {
    if |raw| == 0 then st
    else AddName(AddDefs(st, raw[..|raw| - 1]), raw[|raw| - 1].0, raw[|raw| - 1].1)
  }

  /** A variant is in a featuresets scope when it has an entry for the
      scope's engine sharing at least one of the scope's featuresets. */
  predicate InScope<X>(d: GameDef<X>, scope: FeaturesetsScope) {
    && scope.engine in d.scopes
    && exists k :: 0 <= k < |scope.featuresets| && scope.featuresets[k] in d.scopes[scope.engine]
  }

  /** Every stored variant, name by name in the order of the names, each
      name's variants in their order. */
  function AllVariants<X>(st: Store<X>): seq<GameDef<X>> {
    Concat(st.names, st)
  }

  function Concat<X>(names: seq<string>, st: Store<X>): seq<GameDef<X>>
    decreases |names|
  {
    if |names| == 0 then [] else Concat(names[..|names| - 1], st) + VariantsOf(st, names[|names| - 1])
  }

  /** `createScoped`: the variants in scope, walked in order, each set
      under its name, so the last one of a name wins. */
  function CreateScoped<X>(st: Store<X>, scope: FeaturesetsScope): map<string, GameDef<X>> {
    Scoped(AllVariants(st), scope)
  }

  function Scoped<X>(ds: seq<GameDef<X>>, scope: FeaturesetsScope): map<string, GameDef<X>>
    decreases |ds|
  {
    if |ds| == 0 then map[]
    else
      var d := ds[|ds| - 1];
      var prev := Scoped(ds[..|ds| - 1], scope);
      if InScope(d, scope) then prev[d.name := d] else prev
  }

  // ---------------------------------------------------------------------------
  // Properties

  /** The raw scopes of an engine merge into the union of their
      featuresets: the engine has an entry exactly when some raw scope names
      it, and the entry holds exactly the featuresets those scopes list. */
  lemma {:induction false} EngineScopesUnion(raws: seq<FeaturesetsScope>, e: string, f: string)
    ensures var m := EngineScopes(raws);
            && (e in m <==> exists i :: 0 <= i < |raws| && raws[i].engine == e)
            && (e in m ==> (f in m[e] <==> exists i, k :: 0 <= i < |raws| && raws[i].engine == e
                                                       && 0 <= k < |raws[i].featuresets| && raws[i].featuresets[k] == f))
    decreases |raws|
  {
    if |raws| > 0 {
      var prev := raws[..|raws| - 1];
      EngineScopesUnion(prev, e, f);
      if exists i :: 0 <= i < |raws| && raws[i].engine == e {
        var i :| 0 <= i < |raws| && raws[i].engine == e;
        if i < |prev| {
          assert prev[i] == raws[i];
        }
      }
      if exists i, k :: 0 <= i < |raws| && raws[i].engine == e && 0 <= k < |raws[i].featuresets| && raws[i].featuresets[k] == f {
        var i, k :| 0 <= i < |raws| && raws[i].engine == e && 0 <= k < |raws[i].featuresets| && raws[i].featuresets[k] == f;
        if i < |prev| {
          assert prev[i] == raws[i];
        }
      }
      if exists i :: 0 <= i < |prev| && prev[i].engine == e {
        var i :| 0 <= i < |prev| && prev[i].engine == e;
        assert raws[i] == prev[i];
      }
      if exists i, k :: 0 <= i < |prev| && prev[i].engine == e && 0 <= k < |prev[i].featuresets| && prev[i].featuresets[k] == f {
        var i, k :| 0 <= i < |prev| && prev[i].engine == e && 0 <= k < |prev[i].featuresets| && prev[i].featuresets[k] == f;
        assert raws[i] == prev[i];
      }
    }
  }

  /** A stored variant is in a scope exactly when one of its raw scopes for
      the scope's engine lists one of the scope's featuresets. */
  lemma {:induction false} DefInScope<X>(name: string, v: VariantRaw<X>, scope: FeaturesetsScope)
    ensures InScope(DefOf(name, v), scope) <==>
              exists i, k, j :: 0 <= i < |v.scopes| && v.scopes[i].engine == scope.engine
                             && 0 <= k < |v.scopes[i].featuresets| && 0 <= j < |scope.featuresets|
                             && v.scopes[i].featuresets[k] == scope.featuresets[j]
  {
    var m := EngineScopes(v.scopes);
    if InScope(DefOf(name, v), scope) {
      var j :| 0 <= j < |scope.featuresets| && scope.featuresets[j] in m[scope.engine];
      EngineScopesUnion(v.scopes, scope.engine, scope.featuresets[j]);
    }
    if exists i, k, j :: 0 <= i < |v.scopes| && v.scopes[i].engine == scope.engine
                      && 0 <= k < |v.scopes[i].featuresets| && 0 <= j < |scope.featuresets|
                      && v.scopes[i].featuresets[k] == scope.featuresets[j] {
      var i, k, j :| 0 <= i < |v.scopes| && v.scopes[i].engine == scope.engine
                  && 0 <= k < |v.scopes[i].featuresets| && 0 <= j < |scope.featuresets|
                  && v.scopes[i].featuresets[k] == scope.featuresets[j];
      EngineScopesUnion(v.scopes, scope.engine, scope.featuresets[j]);
    }
  }

  /** The variants added under a name by a raw object: those of every entry
      of that name, in the order of the entries. */
  function Appended<X>(raw: seq<(string, seq<VariantRaw<X>>)>, name: string): seq<GameDef<X>>
    decreases |raw|
  {
    if |raw| == 0 then []
    else Appended(raw[..|raw| - 1], name) + if raw[|raw| - 1].0 == name then DefsOf(name, raw[|raw| - 1].1) else []
  }

  /** `addDefs` appends and never replaces: after it, every name holds the
      variants it held before followed by those the raw object gives it, so
      a name the raw object does not mention is unchanged. */
  lemma {:induction false} AddDefsAppends<X>(st: Store<X>, raw: seq<(string, seq<VariantRaw<X>>)>, name: string)
    ensures VariantsOf(AddDefs(st, raw), name) == VariantsOf(st, name) + Appended(raw, name)
    decreases |raw|
  {
    if |raw| > 0 {
      var prev := raw[..|raw| - 1];
      var last := raw[|raw| - 1];
      AddDefsAppends(st, prev, name);
      if last.0 == name {
        assert VariantsOf(st, name) + Appended(prev, name) + DefsOf(name, last.1)
            == VariantsOf(st, name) + (Appended(prev, name) + DefsOf(name, last.1));
      } else {
        assert Appended(raw, name) == Appended(prev, name) + [];
      }
    }
  }

  /** After `addDefs` a name is stored exactly when it was before or the raw
      object has it, and the names stored before keep their place in
      front. */
  lemma {:induction false} AddDefsNames<X>(st: Store<X>, raw: seq<(string, seq<VariantRaw<X>>)>, name: string)
    ensures var r := AddDefs(st, raw);
            && (name in r.variants <==> name in st.variants || exists i :: 0 <= i < |raw| && raw[i].0 == name)
            && st.names <= r.names
    decreases |raw|
  {
    if |raw| > 0 {
      var prev := raw[..|raw| - 1];
      AddDefsNames(st, prev, name);
      if exists i :: 0 <= i < |raw| && raw[i].0 == name {
        var i :| 0 <= i < |raw| && raw[i].0 == name;
        if i < |prev| {
          assert prev[i] == raw[i];
        }
      }
      if exists i :: 0 <= i < |prev| && prev[i].0 == name {
        var i :| 0 <= i < |prev| && prev[i].0 == name;
        assert raw[i] == prev[i];
      }
    }
  }

  /** Each raw entry contributes its own variants, in order, after those of
      the entries of the same name before it. */
  lemma {:induction false} AppendedOfDistinct<X>(raw: seq<(string, seq<VariantRaw<X>>)>, i: nat)
    requires i < |raw| && forall j :: 0 <= j < |raw| && j != i ==> raw[j].0 != raw[i].0
    ensures Appended(raw, raw[i].0) == DefsOf(raw[i].0, raw[i].1)
    decreases |raw|
  {
    var prev := raw[..|raw| - 1];
    if i < |prev| {
      AppendedOfDistinct(prev, i);
    } else {
      AppendedNone(prev, raw[i].0);
    }
  }

  lemma {:induction false} AppendedNone<X>(raw: seq<(string, seq<VariantRaw<X>>)>, name: string)
    requires forall j :: 0 <= j < |raw| ==> raw[j].0 != name
    ensures Appended(raw, name) == []
    decreases |raw|
  {
    if |raw| > 0 {
      AppendedNone(raw[..|raw| - 1], name);
    }
  }

  /** A name is in the scoped map exactly when some variant of that name is
      in scope. */
  lemma {:induction false} ScopedHas<X>(ds: seq<GameDef<X>>, scope: FeaturesetsScope, name: string)
    ensures name in Scoped(ds, scope) <==> exists i :: 0 <= i < |ds| && ds[i].name == name && InScope(ds[i], scope)
    decreases |ds|
  {
    if |ds| > 0 {
      var prev := ds[..|ds| - 1];
      ScopedHas(prev, scope, name);
      if exists i :: 0 <= i < |ds| && ds[i].name == name && InScope(ds[i], scope) {
        var i :| 0 <= i < |ds| && ds[i].name == name && InScope(ds[i], scope);
        if i < |prev| {
          assert prev[i] == ds[i];
        }
      }
      if exists i :: 0 <= i < |prev| && prev[i].name == name && InScope(prev[i], scope) {
        var i :| 0 <= i < |prev| && prev[i].name == name && InScope(prev[i], scope);
        assert ds[i] == prev[i];
      }
    }
  }

  /** The scoped map holds, for a name, the last variant of that name in
      scope: a later matching variant overwrites an earlier one. */
  lemma {:induction false} ScopedLastWins<X>(ds: seq<GameDef<X>>, scope: FeaturesetsScope, name: string)
    requires name in Scoped(ds, scope)
    ensures exists i :: 0 <= i < |ds| && ds[i].name == name && InScope(ds[i], scope)
              && Scoped(ds, scope)[name] == ds[i]
              && forall j :: i < j < |ds| ==> !(ds[j].name == name && InScope(ds[j], scope))
    decreases |ds|
  {
    var prev := ds[..|ds| - 1];
    var d := ds[|ds| - 1];
    if d.name == name && InScope(d, scope) {
      assert Scoped(ds, scope)[name] == ds[|ds| - 1];
    } else {
      assert name in Scoped(prev, scope);
      ScopedLastWins(prev, scope, name);
      var i :| 0 <= i < |prev| && prev[i].name == name && InScope(prev[i], scope)
                && Scoped(prev, scope)[name] == prev[i]
                && forall j :: i < j < |prev| ==> !(prev[j].name == name && InScope(prev[j], scope));
      assert ds[i] == prev[i];
      forall j | i < j < |ds|
        ensures !(ds[j].name == name && InScope(ds[j], scope))
      {
        if j < |prev| {
          assert ds[j] == prev[j];
        }
      }
    }
  }
}
