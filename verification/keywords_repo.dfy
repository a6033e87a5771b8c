/** `KeywordsRepo`: for each keyword name, the set of engine ids it exists
    in. Names are kept in the order they were first added, as a JavaScript
    `Map` iterates its keys. */
module KeywordsRepos {

  datatype EngineScope = EngineScope(engine: string)

  /** One entry of the raw keywords object: a name and its scopes. */
  datatype KeywordRaw = KeywordRaw(name: string, scopes: seq<EngineScope>)

  datatype Repo = Repo(names: seq<string>, engines: map<string, set<string>>)

  /** The names list the keys of the map, each once. */
  ghost predicate Wf(r: Repo) {
    && (forall i, j :: 0 <= i < j < |r.names| ==> r.names[i] != r.names[j])
    && (forall i :: 0 <= i < |r.names| ==> r.names[i] in r.engines)
    && (forall n :: n in r.engines ==> n in r.names)
  }

  /** The engine ids stored for a name; none for a missing name. */
  function EnginesOf(r: Repo, name: string): set<string> {
    if name in r.engines then r.engines[name] else {}
  }

  /** The engine ids of a list of scopes. */
  function EngineIds(scopes: seq<EngineScope>): set<string> {
    set k | 0 <= k < |scopes| :: scopes[k].engine
  }

  /** One name of `addRaw`: a missing name gets an empty set first, then
      every scope's engine is added to the name's set. */
  function AddOne(r: Repo, k: KeywordRaw): Repo {
    Repo(if k.name in r.engines then r.names else r.names + [k.name],
         r.engines[k.name := EnginesOf(r, k.name) + EngineIds(k.scopes)])
  }

  /** `addRaw`: every name of the raw object in turn. */
  function AddRaw(r: Repo, raw: seq<KeywordRaw>): Repo
    decreases |raw|
  {
    if |raw| == 0 then r else AddOne(AddRaw(r, raw[..|raw| - 1]), raw[|raw| - 1])
  }

  /** `createScoped`: the names, in order, whose set holds the engine. */
  function CreateScoped(r: Repo, engine: string): seq<string> {
    Filter(r.names, r.engines, engine)
  }

  function Filter(names: seq<string>, engines: map<string, set<string>>, engine: string): seq<string>
    decreases |names|
  {
    if |names| == 0 then []
    else
      var n := names[|names| - 1];
      Filter(names[..|names| - 1], engines, engine)
        + if n in engines && engine in engines[n] then [n] else []
  }

  // ---------------------------------------------------------------------------
  // Properties

  /** After `addRaw` a name holds an engine exactly when it held it before or
      some raw entry of that name lists it: the sets are unioned. */
  lemma {:induction false} AddRawEngines(r: Repo, raw: seq<KeywordRaw>, n: string, e: string)
    ensures e in EnginesOf(AddRaw(r, raw), n) <==>
              e in EnginesOf(r, n) || exists i :: 0 <= i < |raw| && raw[i].name == n && e in EngineIds(raw[i].scopes)
    decreases |raw|
  {
    if |raw| > 0 {
      var prev := raw[..|raw| - 1];
      AddRawEngines(r, prev, n, e);
      if exists i :: 0 <= i < |prev| && prev[i].name == n && e in EngineIds(prev[i].scopes) {
        var i :| 0 <= i < |prev| && prev[i].name == n && e in EngineIds(prev[i].scopes);
        assert raw[i] == prev[i];
      }
      if exists i :: 0 <= i < |raw| && raw[i].name == n && e in EngineIds(raw[i].scopes) {
        var i :| 0 <= i < |raw| && raw[i].name == n && e in EngineIds(raw[i].scopes);
        if i < |prev| {
          assert prev[i] == raw[i];
        }
      }
    }
  }

  /** After `addRaw` a name is stored exactly when it was before or some raw
      entry has it; the names stored before keep their place in front, and
      the repository stays well formed. */
  lemma {:induction false} AddRawNames(r: Repo, raw: seq<KeywordRaw>, n: string)
    requires Wf(r)
    ensures var r' := AddRaw(r, raw);
            && Wf(r')
            && r.names <= r'.names
            && (n in r'.engines <==> n in r.engines || exists i :: 0 <= i < |raw| && raw[i].name == n)
    decreases |raw|
  {
    if |raw| > 0 {
      var prev := raw[..|raw| - 1];
      var k := raw[|raw| - 1];
      AddRawNames(r, prev, n);
      AddOneWf(AddRaw(r, prev), k);
      if exists i :: 0 <= i < |prev| && prev[i].name == n {
        var i :| 0 <= i < |prev| && prev[i].name == n;
        assert raw[i] == prev[i];
      }
      if exists i :: 0 <= i < |raw| && raw[i].name == n {
        var i :| 0 <= i < |raw| && raw[i].name == n;
        if i < |prev| {
          assert prev[i] == raw[i];
        }
      }
    }
  }

  lemma {:induction false} AddOneWf(r: Repo, k: KeywordRaw)
    requires Wf(r)
    ensures Wf(AddOne(r, k)) && r.names <= AddOne(r, k).names
  {
    var r' := AddOne(r, k);
    if k.name !in r.engines {
      forall i, j | 0 <= i < j < |r'.names|
        ensures r'.names[i] != r'.names[j]
      {
        if j == |r.names| {
          assert r'.names[i] == r.names[i] && r.names[i] in r.engines;
        }
      }
      forall n | n in r'.engines
        ensures n in r'.names
      {
        if n != k.name {
          assert n in r.names;
          var i :| 0 <= i < |r.names| && r.names[i] == n;
          assert r'.names[i] == n;
        } else {
          assert r'.names[|r.names|] == n;
        }
      }
    }
  }

  /** `createScoped` returns exactly the stored names whose set holds the
      engine. */
  lemma {:induction false} CreateScopedExact(r: Repo, engine: string, n: string)
    requires Wf(r)
    ensures n in CreateScoped(r, engine) <==> n in r.engines && engine in r.engines[n]
  {
    FilterHas(r.names, r.engines, engine, n);
    if n in r.engines {
      assert n in r.names;
    }
  }

  lemma {:induction false} FilterHas(names: seq<string>, engines: map<string, set<string>>, engine: string, n: string)
    ensures n in Filter(names, engines, engine) <==> n in names && n in engines && engine in engines[n]
    decreases |names|
  {
    if |names| > 0 {
      var prev := names[..|names| - 1];
      FilterHas(prev, engines, engine, n);
      assert names == prev + [names[|names| - 1]];
    }
  }

  /** Each name appears at most once in the result of `createScoped`. */
  lemma {:induction false} CreateScopedDistinct(r: Repo, engine: string)
    requires Wf(r)
    ensures var s := CreateScoped(r, engine);
            forall i, j :: 0 <= i < j < |s| ==> s[i] != s[j]
  {
    FilterDistinct(r.names, r.engines, engine);
    assert CreateScoped(r, engine) == Filter(r.names, r.engines, engine);
  }

  lemma {:induction false} FilterDistinct(names: seq<string>, engines: map<string, set<string>>, engine: string)
    requires forall i, j :: 0 <= i < j < |names| ==> names[i] != names[j]
    ensures var s := Filter(names, engines, engine);
            forall i, j :: 0 <= i < j < |s| ==> s[i] != s[j]
    decreases |names|
  {
    if |names| > 0 {
      var prev := names[..|names| - 1];
      var n := names[|names| - 1];
      FilterDistinct(prev, engines, engine);
      FilterHas(prev, engines, engine, n);
      assert n !in prev;
    }
  }

  /** Adding the same raw keywords a second time changes nothing. */
  lemma {:induction false} AddRawIdempotent(r: Repo, raw: seq<KeywordRaw>)
    ensures AddRaw(AddRaw(r, raw), raw) == AddRaw(r, raw)
  {
    var s := AddRaw(r, raw);
    AddRawIsFixed(s, raw, |raw|, r, raw);
    assert raw[..|raw|] == raw;
  }

  /** Every prefix of the raw keywords leaves their own result unchanged. */
  lemma {:induction false} AddRawIsFixed(s: Repo, raw: seq<KeywordRaw>, k: nat, r: Repo, all: seq<KeywordRaw>)
    requires s == AddRaw(r, all) && raw == all && k <= |raw|
    ensures AddRaw(s, raw[..k]) == s
    decreases k
  {
    if k > 0 {
      var prefix := raw[..k];
      assert prefix[..k - 1] == raw[..k - 1];
      AddRawIsFixed(s, raw, k - 1, r, all);
      var e := raw[k - 1];
      AddRawEnginesIn(r, all, k - 1);
      forall x | x in EngineIds(e.scopes)
        ensures x in EnginesOf(s, e.name)
      {
        AddRawEngines(r, all, e.name, x);
      }
      assert EnginesOf(s, e.name) + EngineIds(e.scopes) == s.engines[e.name];
      assert AddOne(s, e) == s;
      assert AddRaw(s, prefix) == AddOne(AddRaw(s, prefix[..k - 1]), prefix[k - 1]);
    }
  }

  /** A raw entry's name is stored after `addRaw`, even with no scopes. */
  lemma {:induction false} AddRawEnginesIn(r: Repo, raw: seq<KeywordRaw>, i: nat)
    requires i < |raw|
    ensures raw[i].name in AddRaw(r, raw).engines
    decreases |raw|
  {
    var prev := raw[..|raw| - 1];
    if i < |prev| {
      AddRawEnginesIn(r, prev, i);
      assert prev[i] == raw[i];
    }
  }
}
