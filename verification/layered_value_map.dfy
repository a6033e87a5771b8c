/** `LayeredValueMap`: a map from keys to layered values, read through the
    top layer. */
module LayeredValueMaps {
  import opened Wrappers
  import LV = LayeredValues

  type LayeredValueMap<K, V> = map<K, LV.LayeredValue<V>>

  /** The element at a layer of a key; a missing key has no layers. */
  function LayerOf<K, V>(m: LayeredValueMap<K, V>, k: K, layer: nat): Option<V> {
    if k in m then LV.At(m[k], layer) else None
  }

  /** Every stored key has a defined top: `delete` drops a key whose last
      layer goes. */
  predicate AllDefined<K, V>(m: LayeredValueMap<K, V>) {
    forall k :: k in m ==> LV.Top(m[k]).Some?
  }

  /** `get`: the key's top, or undefined. */
  function Get<K, V>(m: LayeredValueMap<K, V>, k: K): Option<V> {
    if k in m then LV.Top(m[k]) else None
  }

  /** `new LayeredValue({ [layer]: value })`: an empty array assigned one
      layer. */
  function Single<V>(layer: nat, v: V): (lv: LV.LayeredValue<V>)
    ensures forall i: nat :: LV.At(lv, i) == if i == layer then Some(v) else None
  {
    LV.SetAt(LV.LayeredValue([]), layer, v);
    LV.Set(LV.LayeredValue([]), layer, v)
  }

  /** `set`: a missing key gets a new layered value holding the one layer;
      otherwise that layer of the key's value is set. */
  function Set<K, V>(m: LayeredValueMap<K, V>, k: K, layer: nat, v: V): (r: LayeredValueMap<K, V>)
  {
    if k !in m then m[k := Single(layer, v)]
    else m[k := LV.Set(m[k], layer, v)]
  }

  /** `delete`: a missing key is left alone; otherwise the layer is deleted
      and the key dropped when its top becomes undefined. */
  function Delete<K, V>(m: LayeredValueMap<K, V>, k: K, layer: nat): (r: LayeredValueMap<K, V>)
  {
    if k !in m then m
    else
      var lv := LV.Delete(m[k], layer);
      if LV.Top(lv).None? then m - {k} else m[k := lv]
  }

  // ---------------------------------------------------------------------------
  // Properties

  /** Under the invariant, `get` is undefined exactly for the missing keys. */
  lemma {:induction false} GetDefinedIffPresent<K, V>(m: LayeredValueMap<K, V>, k: K)
    requires AllDefined(m)
    ensures Get(m, k).Some? <==> k in m
  {
  }

  /** `get` is the value of the key's highest defined layer. */
  lemma {:induction false} GetIsHighestLayer<K, V>(m: LayeredValueMap<K, V>, k: K)
    ensures Get(m, k).None? <==> forall i: nat :: LayerOf(m, k, i).None?
    ensures Get(m, k).Some? ==>
      exists l: nat :: LayerOf(m, k, l) == Get(m, k) && forall j: nat :: j > l ==> LayerOf(m, k, j).None?
  {
    if k in m {
      var lv := m[k];
      LV.LastDefinedAt(lv);
      assert forall i: nat :: LayerOf(m, k, i) == LV.At(lv, i);
      match LV.LastDefined(lv.all) {
        case None =>
        case Some(l) => assert LayerOf(m, k, l) == Get(m, k);
      }
    }
  }

  /** `set` defines that one layer of that one key, creating the entry when
      missing; every other layer and key is unchanged. */
  lemma {:induction false} SetLayers<K, V>(m: LayeredValueMap<K, V>, k: K, layer: nat, v: V, j: K, i: nat)
    ensures var r := Set(m, k, layer, v);
            && k in r && r.Keys == m.Keys + {k}
            && LayerOf(r, j, i) == (if j == k && i == layer then Some(v) else LayerOf(m, j, i))
            && (j != k ==> Get(r, j) == Get(m, j))
  {
    if k in m {
      LV.SetAt(m[k], layer, v);
    }
  }

  /** `set` at or above every defined layer of the key makes `get` return the
      value. */
  lemma {:induction false} SetHighestThenGet<K, V>(m: LayeredValueMap<K, V>, k: K, layer: nat, v: V)
    requires forall j: nat :: j > layer ==> LayerOf(m, k, j).None?
    ensures Get(Set(m, k, layer, v), k) == Some(v)
  {
    if k in m {
      forall j: nat | j > layer
        ensures LV.At(m[k], j).None?
      {
        assert LayerOf(m, k, j).None?;
      }
      LV.SetHighestIsTop(m[k], layer, v);
    } else {
      LV.SetHighestIsTop(LV.LayeredValue([]), layer, v);
    }
  }

  /** `delete` undefines that one layer of that one key, and drops the key
      exactly when none of its layers stays defined; a missing key is a
      no-op, and no other key is touched. */
  lemma {:induction false} DeleteLayers<K, V>(m: LayeredValueMap<K, V>, k: K, layer: nat, j: K, i: nat)
    ensures var r := Delete(m, k, layer);
            && (k !in m ==> r == m)
            && (k in m ==> (k !in r <==> forall l: nat :: l != layer ==> LayerOf(m, k, l).None?))
            && LayerOf(r, j, i) == (if j == k && i == layer then None else LayerOf(m, j, i))
            && (j != k ==> (j in r <==> j in m) && Get(r, j) == Get(m, j))
  {
    if k in m {
      var lv := LV.Delete(m[k], layer);
      LV.DeleteAt(m[k], layer);
      LV.TopIsHighest(lv);
      assert forall l: nat :: LayerOf(m, k, l) == LV.At(m[k], l);
      if LV.Top(lv).None? {
        assert LV.At(lv, i).None?;
      }
    }
  }

  /** `set` and `delete` keep every stored key's top defined. */
  lemma {:induction false} SetKeepsAllDefined<K, V>(m: LayeredValueMap<K, V>, k: K, layer: nat, v: V)
    requires AllDefined(m)
    ensures AllDefined(Set(m, k, layer, v))
  {
    var r := Set(m, k, layer, v);
    var lv := r[k];
    LV.TopIsHighest(lv);
    if k in m {
      LV.SetAt(m[k], layer, v);
    }
    assert LV.At(lv, layer).Some?;
  }

  lemma {:induction false} DeleteKeepsAllDefined<K, V>(m: LayeredValueMap<K, V>, k: K, layer: nat)
    requires AllDefined(m)
    ensures AllDefined(Delete(m, k, layer))
  {
  }
}
