/** `DependencyTracker`: the include/usage dependency relation between
    scripts, kept in both directions. A dependency is a script path string,
    whether or not a script exists at that path; a dependent is a script,
    known by its identity. */
module DependencyTrackers {
  import opened Wrappers
  import SetMaps

  /** The identity of a `Script` object. */
  type ScriptId = nat

  datatype Tracker = Tracker(byDependent: SetMaps.SetMap<ScriptId, string>, byDependency: SetMaps.SetMap<string, ScriptId>)

  function NewTracker(): Tracker {
    Tracker(map[], map[])
  }

  /** `getDependencies`. */
  function GetDependencies(t: Tracker, d: ScriptId): Option<set<string>> {
    SetMaps.Get(t.byDependent, d)
  }

  /** `getDependents`. */
  function GetDependents(t: Tracker, p: string): Option<set<ScriptId>> {
    SetMaps.Get(t.byDependency, p)
  }

  /** `add`: the edge in both directions. */
  function Add(t: Tracker, d: ScriptId, p: string): Tracker {
    Tracker(SetMaps.Add(t.byDependent, d, p), SetMaps.Add(t.byDependency, p, d))
  }

  /** `remove`: the edge out of both directions. */
  function Remove(t: Tracker, d: ScriptId, p: string): Tracker {
    Tracker(SetMaps.Delete(t.byDependent, d, p), SetMaps.Delete(t.byDependency, p, d))
  }

  /** The forward edge d -> p. */
  predicate Depends(t: Tracker, d: ScriptId, p: string) {
    d in t.byDependent && p in t.byDependent[d]
  }

  /** The inverse edge: d is listed among the dependents of p. */
  predicate ListedDependent(t: Tracker, d: ScriptId, p: string) {
    p in t.byDependency && d in t.byDependency[p]
  }

  /** The two directions describe the same relation, and neither map holds
      an empty set. */
  ghost predicate Mirrored(t: Tracker) {
    && SetMaps.NoEmptySets(t.byDependent)
    && SetMaps.NoEmptySets(t.byDependency)
    && forall d, p :: Depends(t, d, p) <==> ListedDependent(t, d, p)
  }

  /** Every forward edge is also listed in the inverse direction, so
      `getDependents` finds every script that registered a dependency. This
      is what the written `clear` keeps; `Mirrored` is what it loses. */
  ghost predicate Covers(t: Tracker) {
    forall d, p :: Depends(t, d, p) ==> ListedDependent(t, d, p)
  }

  /** What the written `clear` leaves: the forward set of d deleted, the
      inverse direction untouched. */
  function ClearedAsWritten(t: Tracker, d: ScriptId): Tracker {
    t.(byDependent := SetMaps.Clear(t.byDependent, d))
  }

  /** `clear` as written: the forward set is deleted before it is read, so
      the read finds nothing and no inverse edge is removed. */
  method ClearAsWritten(t: Tracker, d: ScriptId) returns (r: Tracker)
    ensures GetDependencies(r, d).None?
    ensures forall d' :: d' != d ==> GetDependencies(r, d') == GetDependencies(t, d')
    ensures r.byDependency == t.byDependency
    ensures r == ClearedAsWritten(t, d)
  {
    r := t.(byDependent := SetMaps.Clear(t.byDependent, d));
    var dependencies := GetDependencies(r, d);
    assert dependencies.None?;
  }

  /** `for (const p of ps) this.remove(d, p)`. */
  method RemoveEach(t: Tracker, d: ScriptId, ps: set<string>) returns (r: Tracker)
    ensures r == RemovedAll(t, d, ps)
  {
    r := t;
    var todo := ps;
    while todo != {}
      invariant todo <= ps
      invariant r == RemovedAll(t, d, ps - todo)
      decreases todo
    {
      var p :| p in todo;
      RemovedAllStep(t, d, ps - todo, p);
      r := Remove(r, d, p);
      assert ps - (todo - {p}) == (ps - todo) + {p};
      todo := todo - {p};
    }
    assert ps - todo == ps;
  }

  /** The result of removing the edges d -> p for every p of ps, in any
      order: d leaves every one of those sets, and a set that empties is
      dropped with its key. */
  function RemovedAll(t: Tracker, d: ScriptId, ps: set<string>): Tracker {
    Tracker(DropFrom(t.byDependent, d, ps), DropFromEach(t.byDependency, ps, d))
  }

  /** The set of `key` without the values vs, the key gone if it empties. */
  function DropFrom<K, V>(m: SetMaps.SetMap<K, V>, key: K, vs: set<V>): SetMaps.SetMap<K, V> {
    if key !in m || vs == {} then m
    else if m[key] - vs == {} then m - {key}
    else m[key := m[key] - vs]
  }

  /** The value v taken out of the sets of every key of ks, each key gone if
      its set empties. */
  function DropFromEach<K, V>(m: SetMaps.SetMap<K, V>, ks: set<K>, v: V): SetMaps.SetMap<K, V> {
    map k | k in m && !(k in ks && m[k] - {v} == {}) :: if k in ks then m[k] - {v} else m[k]
  }

  lemma {:induction false} RemovedAllStep(t: Tracker, d: ScriptId, done: set<string>, p: string)
    requires p !in done
    ensures Remove(RemovedAll(t, d, done), d, p) == RemovedAll(t, d, done + {p})
  {
    DropFromStep(t.byDependent, d, done, p);
    DropFromEachStep(t.byDependency, done, p, d);
  }

  lemma {:induction false} DropFromStep<K, V>(m: SetMaps.SetMap<K, V>, key: K, done: set<V>, v: V)
    requires v !in done
    ensures SetMaps.Delete(DropFrom(m, key, done), key, v) == DropFrom(m, key, done + {v})
  {
    if key in m && done != {} {
      assert m[key] - done - {v} == m[key] - (done + {v});
    }
  }

  lemma {:induction false} DropFromEachStep<K, V>(m: SetMaps.SetMap<K, V>, done: set<K>, k: K, v: V)
    requires k !in done
    ensures SetMaps.Delete(DropFromEach(m, done, v), k, v) == DropFromEach(m, done + {k}, v)
  {
    var a := SetMaps.Delete(DropFromEach(m, done, v), k, v);
    var b := DropFromEach(m, done + {k}, v);
    assert a.Keys == b.Keys;
  }

  /** `clear` as evidently intended: read the dependencies first, then drop
      the forward set and remove d from the dependents of each of them. */
  method Clear(t: Tracker, d: ScriptId) returns (r: Tracker)
    ensures r == Cleared(t, d)
  {
    var dependencies := GetDependencies(t, d);
    r := t.(byDependent := SetMaps.Clear(t.byDependent, d));
    if dependencies.None? {
      return;
    }
    r := RemoveEach(r, d, dependencies.value);
    assert r.byDependent == t.byDependent - {d};
  }

  /** What the corrected `clear` leaves: no forward set for d, and d taken
      out of the dependents of each path d depended on. */
  function Cleared(t: Tracker, d: ScriptId): Tracker {
    var ps := if d in t.byDependent then t.byDependent[d] else {};
    Tracker(t.byDependent - {d}, DropFromEach(t.byDependency, ps, d))
  }

  // ---------------------------------------------------------------------------
  // Properties

  /** `add` creates the edge in both directions and changes no other edge. */
  lemma {:induction false} AddEdge(t: Tracker, d: ScriptId, p: string, d': ScriptId, p': string)
    ensures var r := Add(t, d, p);
            && p in GetDependencies(r, d).value
            && d in GetDependents(r, p).value
            && ((d', p') != (d, p) ==> (Depends(r, d', p') <==> Depends(t, d', p')))
            && ((d', p') != (d, p) ==> (ListedDependent(r, d', p') <==> ListedDependent(t, d', p')))
  {
  }

  /** `remove` takes the edge out of both directions and changes no other. */
  lemma {:induction false} RemoveEdge(t: Tracker, d: ScriptId, p: string, d': ScriptId, p': string)
    ensures var r := Remove(t, d, p);
            && !Depends(r, d, p) && !ListedDependent(r, d, p)
            && ((d', p') != (d, p) ==> (Depends(r, d', p') <==> Depends(t, d', p')))
            && ((d', p') != (d, p) ==> (ListedDependent(r, d', p') <==> ListedDependent(t, d', p')))
  {
  }

  lemma {:induction false} AddKeepsMirrored(t: Tracker, d: ScriptId, p: string)
    requires Mirrored(t)
    ensures Mirrored(Add(t, d, p))
  {
    var r := Add(t, d, p);
    forall d', p'
      ensures Depends(r, d', p') <==> ListedDependent(r, d', p')
    {
      AddEdge(t, d, p, d', p');
    }
  }

  lemma {:induction false} RemoveKeepsMirrored(t: Tracker, d: ScriptId, p: string)
    requires Mirrored(t)
    ensures Mirrored(Remove(t, d, p))
  {
    var r := Remove(t, d, p);
    forall d', p'
      ensures Depends(r, d', p') <==> ListedDependent(r, d', p')
    {
      RemoveEdge(t, d, p, d', p');
    }
  }

  /** The corrected `clear` removes every edge of d, in both directions,
      keeps every other edge, and keeps the directions mirrored. */
  lemma {:induction false} ClearedRemovesAllEdges(t: Tracker, d: ScriptId)
    requires Mirrored(t)
    ensures var r := Cleared(t, d);
            && Mirrored(r)
            && GetDependencies(r, d).None?
            && (forall p :: !ListedDependent(r, d, p))
            && (forall d', p :: d' != d ==> (Depends(r, d', p) <==> Depends(t, d', p)))
  {
    var r := Cleared(t, d);
    forall d', p
      ensures Depends(r, d', p) <==> ListedDependent(r, d', p)
      ensures d' == d ==> !ListedDependent(r, d', p)
    {
      assert Depends(t, d', p) <==> ListedDependent(t, d', p);
      if d' == d && p in t.byDependency && d in t.byDependency[p] {
        assert Depends(t, d, p);
      }
    }
  }

  /** `add` and `remove` keep every forward edge listed in the inverse
      direction; so does the written `clear`, which only drops forward
      edges. */
  lemma {:induction false} OperationsKeepCovers(t: Tracker, d: ScriptId, p: string)
    requires Covers(t)
    ensures Covers(Add(t, d, p)) && Covers(Remove(t, d, p)) && Covers(ClearedAsWritten(t, d))
  {
    forall d', p' | Depends(Add(t, d, p), d', p')
      ensures ListedDependent(Add(t, d, p), d', p')
    {
      AddEdge(t, d, p, d', p');
    }
    forall d', p' | Depends(Remove(t, d, p), d', p')
      ensures ListedDependent(Remove(t, d, p), d', p')
    {
      RemoveEdge(t, d, p, d', p');
    }
    forall d', p' | Depends(ClearedAsWritten(t, d), d', p')
      ensures ListedDependent(ClearedAsWritten(t, d), d', p')
    {
      assert Depends(t, d', p');
    }
  }

  /** The written `clear` leaves d listed among the dependents of a path it
      depended on: after `add(1, "a")` and `clear(1)`, `getDependents("a")`
      still holds 1 while `getDependencies(1)` is undefined. */
  method ClearAsWrittenKeepsInverse() returns (r: Tracker)
    ensures GetDependencies(r, 1).None?
    ensures GetDependents(r, "a") == Some({1})
    ensures !Mirrored(r)
  {
    var t := Add(NewTracker(), 1, "a");
    var none: set<ScriptId> := {};
    assert none + {1} == {1};
    assert SetMaps.Add(map[], "a", 1) == map["a" := {1}];
    r := ClearAsWritten(t, 1);
    assert ListedDependent(r, 1, "a") && !Depends(r, 1, "a");
  }
}
