/** `LayeredValue`: values stored at numbered layers, the highest defined
    layer winning. The layers are a JavaScript array with holes: assigning
    past the end grows it with holes, `delete` leaves a hole and keeps the
    length, and `top` is `findLast` of the defined elements. */
module LayeredValues {
  import opened Wrappers

  /** The array of layers; None is a hole (`undefined`). */
  datatype LayeredValue<V> = LayeredValue(all: seq<Option<V>>)

  /** The element at a layer, reading past the end as a hole. */
  function At<V>(lv: LayeredValue<V>, layer: nat): Option<V> {
    if layer < |lv.all| then lv.all[layer] else None
  }

  /** The highest index holding a defined element, searching down from the
      end as `findLast` does. */
  function LastDefined<V>(all: seq<Option<V>>): (r: Option<nat>)
    ensures r.Some? ==> r.value < |all| && all[r.value].Some?
    ensures r.Some? ==> forall j :: r.value < j < |all| ==> all[j].None?
    ensures r.None? ==> forall j :: 0 <= j < |all| ==> all[j].None?
    decreases |all|
  {
    if |all| == 0 then None
    else if all[|all| - 1].Some? then Some(|all| - 1)
    else LastDefined(all[..|all| - 1])
  }

  /** `top`: the element of the highest defined layer, if any. */
  function Top<V>(lv: LayeredValue<V>): Option<V> {
    match LastDefined(lv.all)
    case None => None
    case Some(i) => lv.all[i]
  }

  /** `set`: an index at or past the end grows the array with holes. */
  function Set<V>(lv: LayeredValue<V>, layer: nat, v: V): (r: LayeredValue<V>)
    ensures |r.all| == if layer < |lv.all| then |lv.all| else layer + 1
  {
    if layer < |lv.all| then LayeredValue(lv.all[layer := Some(v)])
    else LayeredValue(lv.all + seq(layer - |lv.all|, _ => None) + [Some(v)])
  }

  /** `delete`: a hole at the layer; the length is kept. */
  function Delete<V>(lv: LayeredValue<V>, layer: nat): (r: LayeredValue<V>)
    ensures |r.all| == |lv.all|
  {
    if layer < |lv.all| then LayeredValue(lv.all[layer := None]) else lv
  }

  /** The constructor: every entry of the object of layers assigned in turn
      to an empty array. */
  method New<V>(layers: map<nat, V>) returns (lv: LayeredValue<V>)
    ensures forall i: nat :: At(lv, i) == if i in layers then Some(layers[i]) else None
  {
    lv := LayeredValue([]);
    var todo := layers.Keys;
    while todo != {}
      invariant todo <= layers.Keys
      invariant forall i: nat :: At(lv, i) == if i in layers && i !in todo then Some(layers[i]) else None
      decreases todo
    {
      var k :| k in todo;
      SetAt(lv, k, layers[k]);
      lv := Set(lv, k, layers[k]);
      todo := todo - {k};
    }
  }

  // ---------------------------------------------------------------------------
  // Properties

  /** `set` defines one layer and leaves every other as it was. */
  lemma {:induction false} SetAt<V>(lv: LayeredValue<V>, layer: nat, v: V)
    ensures forall i: nat :: At(Set(lv, layer, v), i) == if i == layer then Some(v) else At(lv, i)
  {
    var r := Set(lv, layer, v);
    forall i: nat
      ensures At(r, i) == if i == layer then Some(v) else At(lv, i)
    {
      if layer >= |lv.all| && |lv.all| <= i < layer {
        assert r.all[i] == seq(layer - |lv.all|, _ => None)[i - |lv.all|];
      }
    }
  }

  /** `delete` undefines one layer and leaves every other as it was. */
  lemma {:induction false} DeleteAt<V>(lv: LayeredValue<V>, layer: nat)
    ensures forall i: nat :: At(Delete(lv, layer), i) == if i == layer then None else At(lv, i)
  {
  }

  /** `findLast`'s index read through `At`: defined there and undefined
      above; with no index found, undefined everywhere. */
  lemma {:induction false} LastDefinedAt<V>(lv: LayeredValue<V>)
    ensures var r := LastDefined(lv.all);
            && (r.Some? ==> At(lv, r.value).Some? && forall j: nat :: j > r.value ==> At(lv, j).None?)
            && (r.None? ==> forall i: nat :: At(lv, i).None?)
  {
  }

  /** A defined layer with nothing defined above it is the one `findLast`
      finds. */
  lemma {:induction false} HighestIsLast<V>(lv: LayeredValue<V>, l: nat)
    requires At(lv, l).Some? && forall j: nat :: j > l ==> At(lv, j).None?
    ensures LastDefined(lv.all) == Some(l)
  {
    var r := LastDefined(lv.all);
    assert l < |lv.all| && lv.all[l].Some?;
    if r.Some? {
      assert At(lv, r.value) == lv.all[r.value];
    }
  }

  /** `top` is the value at the highest defined layer: defined there, and
      every layer above it undefined; undefined only when no layer is. */
  lemma {:induction false} TopIsHighest<V>(lv: LayeredValue<V>)
    ensures Top(lv).None? <==> forall i: nat :: At(lv, i).None?
    ensures Top(lv).Some? ==> exists l: nat :: At(lv, l) == Top(lv) && forall j: nat :: j > l ==> At(lv, j).None?
  {
    LastDefinedAt(lv);
    match LastDefined(lv.all)
    case None =>
    case Some(l) =>
      assert At(lv, l) == Top(lv);
  }

  /** Two layer arrays that agree at every layer have the same `top`,
      whatever their lengths. */
  lemma {:induction false} TopByLayers<V>(a: LayeredValue<V>, b: LayeredValue<V>)
    requires forall i: nat :: At(a, i) == At(b, i)
    ensures Top(a) == Top(b)
  {
    LastDefinedAt(a);
    LastDefinedAt(b);
    match LastDefined(a.all)
    case None =>
    case Some(l) =>
      HighestIsLast(b, l);
      assert Top(b) == At(b, l);
  }

  /** Setting a layer at or above every defined layer makes its value `top`. */
  lemma {:induction false} SetHighestIsTop<V>(lv: LayeredValue<V>, layer: nat, v: V)
    requires forall j: nat :: j > layer ==> At(lv, j).None?
    ensures Top(Set(lv, layer, v)) == Some(v)
  {
    var r := Set(lv, layer, v);
    SetAt(lv, layer, v);
    HighestIsLast(r, layer);
    assert Top(r) == At(r, layer);
  }

  /** Setting a layer below a defined one leaves `top` alone. */
  lemma {:induction false} SetBelowKeepsTop<V>(lv: LayeredValue<V>, layer: nat, v: V, above: nat)
    requires layer < above && At(lv, above).Some?
    ensures Top(Set(lv, layer, v)) == Top(lv)
  {
    var r := Set(lv, layer, v);
    SetAt(lv, layer, v);
    LastDefinedAt(lv);
    var l := LastDefined(lv.all).value;
    assert At(r, l) == At(lv, l);
    HighestIsLast(r, l);
    assert Top(r) == At(r, l) && Top(lv) == At(lv, l);
  }

  /** Deleting the top layer reverts `top` to the highest defined layer
      below it. */
  lemma {:induction false} DeleteTopReverts<V>(lv: LayeredValue<V>, layer: nat)
    requires LastDefined(lv.all) == Some(layer)
    ensures Top(Delete(lv, layer)) == Top(LayeredValue(lv.all[..layer]))
  {
    var r := Delete(lv, layer);
    var below := LayeredValue(lv.all[..layer]);
    DeleteAt(lv, layer);
    forall i: nat
      ensures At(r, i) == At(below, i)
    {
      if layer < i < |lv.all| {
        assert lv.all[i].None?;
      }
    }
    TopByLayers(r, below);
  }

  /** The constructor's `top` is the value of the highest given layer. */
  lemma {:induction false} NewTop<V>(layers: map<nat, V>, lv: LayeredValue<V>, high: nat)
    requires forall i: nat :: At(lv, i) == if i in layers then Some(layers[i]) else None
    requires high in layers && forall i :: i in layers ==> i <= high
    ensures Top(lv) == Some(layers[high])
  {
    TopIsHighest(lv);
    assert At(lv, high).Some?;
    var l: nat :| At(lv, l) == Top(lv) && forall j: nat :: j > l ==> At(lv, j).None?;
    assert At(lv, l).Some?;
  }
}
