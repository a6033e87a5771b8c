/** `SetMap`: a map from keys to non-empty sets of values. */
module SetMaps {
  import opened Wrappers

  type SetMap<K, V> = map<K, set<V>>

  /** No key maps to an empty set: `delete` drops a key whose set empties. */
  predicate NoEmptySets<K, V>(m: SetMap<K, V>) {
    forall k :: k in m ==> m[k] != {}
  }

  function NewSetMap<K, V>(): (m: SetMap<K, V>)
    ensures NoEmptySets(m) && m.Keys == {}
  {
    map[]
  }

  /** `get`: the set of the key, or undefined. */
  function Get<K, V>(m: SetMap<K, V>, k: K): Option<set<V>> {
    if k in m then Some(m[k]) else None
  }

  /** `add`: the key's set gains the value, created if the key has none. */
  function Add<K, V>(m: SetMap<K, V>, k: K, v: V): (r: SetMap<K, V>)
  {
    var s := if k in m then m[k] else {};
    m[k := s + {v}]
  }

  /** `delete`: the value leaves the key's set, and the key goes when its set
      empties; a key without a set is left alone. */
  function Delete<K, V>(m: SetMap<K, V>, k: K, v: V): (r: SetMap<K, V>)
  {
    if k !in m then m
    else
      var s := m[k] - {v};
      if |s| == 0 then m - {k} else m[k := s]
  }

  /** `clear`: the key and its set are gone. */
  function Clear<K, V>(m: SetMap<K, V>, k: K): (r: SetMap<K, V>)
  {
    m - {k}
  }

  // ---------------------------------------------------------------------------
  // Properties, stated through `Get`

  /** After `add`, the key's set is the old one (or none) with the value; no
      other key changes. */
  lemma {:induction false} AddThenGet<K, V>(m: SetMap<K, V>, k: K, v: V, j: K)
    ensures var r := Add(m, k, v);
            && Get(r, k) == Some((if k in m then m[k] else {}) + {v})
            && v in Get(r, k).value
            && (j != k ==> Get(r, j) == Get(m, j))
  {
  }

  /** After `delete`, the value is not in the key's set, which is undefined
      exactly when nothing else was in it; a missing key is a no-op; no
      other key changes. */
  lemma {:induction false} DeleteThenGet<K, V>(m: SetMap<K, V>, k: K, v: V, j: K)
    ensures var r := Delete(m, k, v);
            && (k !in m ==> r == m)
            && (k in m ==> (Get(r, k).None? <==> m[k] <= {v}))
            && (Get(r, k).Some? ==> Get(r, k).value == m[k] - {v} && v !in Get(r, k).value)
            && (j != k ==> Get(r, j) == Get(m, j))
  {
  }

  /** After `clear`, the key is undefined and no other key changes. */
  lemma {:induction false} ClearThenGet<K, V>(m: SetMap<K, V>, k: K, j: K)
    ensures Get(Clear(m, k), k).None?
    ensures j != k ==> Get(Clear(m, k), j) == Get(m, j)
  {
  }

  /** `get` never returns an empty set: every operation keeps the invariant. */
  lemma {:induction false} OperationsKeepNoEmptySets<K, V>(m: SetMap<K, V>, k: K, v: V)
    requires NoEmptySets(m)
    ensures NoEmptySets(Add(m, k, v))
    ensures NoEmptySets(Delete(m, k, v))
    ensures NoEmptySets(Clear(m, k))
  {
  }

  lemma {:induction false} GetNeverEmpty<K, V>(m: SetMap<K, V>, k: K)
    requires NoEmptySets(m)
    ensures Get(m, k) != Some({})
  {
  }

  /** `delete` undoes an `add` of a value that was not in the key's set
      (including the key that had none). */
  lemma {:induction false} DeleteUndoesAdd<K, V>(m: SetMap<K, V>, k: K, v: V)
    requires NoEmptySets(m)
    requires k in m ==> v !in m[k]
    ensures Delete(Add(m, k, v), k, v) == m
  {
    var r := Delete(Add(m, k, v), k, v);
    if k in m {
      assert (m[k] + {v}) - {v} == m[k];
    } else {
      assert ({} + {v}) - {v} == {};
      assert r.Keys == m.Keys;
    }
  }
}
