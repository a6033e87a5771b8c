/** Builders that assemble segment lists and trees: a stack builder fed with
    start/end events (`SegmentBuilder`) and a linear builder fed with ranges in
    order, which closes earlier entries automatically (`SegmentBuilderLinear`). */
module SegmentBuilders {
  import opened Wrappers
  import opened Segments

  /** A `start` that has not been ended yet, with the segments stored meanwhile. */
  datatype OpenStart<T> = OpenStart(position: nat, children: seq<Segment<T>>)

  datatype Builder<T> = Builder(roots: seq<Segment<T>>, starts: seq<OpenStart<T>>)

  function NewBuilder<T>(): Builder<T> {
    Builder([], [])
  }

  /** `store`: a root when no start is open, otherwise a child of the innermost
      open start. */
  function Store<T>(b: Builder<T>, seg: Segment<T>): (r: Builder<T>)
    ensures |b.starts| == 0 ==> r == Builder(b.roots + [seg], [])
    ensures |b.starts| > 0 ==>
              && r.roots == b.roots
              && |r.starts| == |b.starts|
              && r.starts[..|b.starts| - 1] == b.starts[..|b.starts| - 1]
              && r.starts[|b.starts| - 1].position == b.starts[|b.starts| - 1].position
              && r.starts[|b.starts| - 1].children == b.starts[|b.starts| - 1].children + [seg]
  {
    if |b.starts| == 0 then Builder(b.roots + [seg], [])
    else
      var top := b.starts[|b.starts| - 1];
      Builder(b.roots, b.starts[..|b.starts| - 1] + [OpenStart(top.position, top.children + [seg])])
  }

  /** `start`. */
  function Start<T>(b: Builder<T>, position: nat): (r: Builder<T>)
    ensures r.roots == b.roots && r.starts == b.starts + [OpenStart(position, [])]
  {
    Builder(b.roots, b.starts + [OpenStart(position, [])])
  }

  /** `end` when a start is open: the innermost start is popped and closed into
      a segment that keeps the children gathered since that start. */
  function Close<T>(b: Builder<T>, position: nat, value: T): (r: Builder<T>)
    requires |b.starts| > 0
    ensures |r.starts| == |b.starts| - 1
    ensures var top := b.starts[|b.starts| - 1];
            r == Store(Builder(b.roots, b.starts[..|b.starts| - 1]),
                       Segment(Range(top.position, position), value, top.children))
  {
    var top := b.starts[|b.starts| - 1];
    Store(Builder(b.roots, b.starts[..|b.starts| - 1]),
          Segment(Range(top.position, position), value, top.children))
  }

  /** `end`: throws when no segment was started. */
  function End<T>(b: Builder<T>, position: nat, value: T): (r: Result<Builder<T>>)
    ensures r.Failure? <==> |b.starts| == 0
    ensures r.Success? ==> |r.value.starts| == |b.starts| - 1
  {
    if |b.starts| == 0 then Failure("No Segment started to be ended.")
    else Success(Close(b, position, value))
  }

  /** `set`: a segment without children, stored at once. */
  function Set<T>(b: Builder<T>, range: Range, value: T): (r: Builder<T>)
    ensures |b.starts| == 0 ==> r.roots == b.roots + [Segment(range, value, [])] && r.starts == []
    ensures |r.starts| == |b.starts|
  {
    Store(b, Segment(range, value, []))
  }

  /** `set` applied to each entry in turn. */
  function SetAll<T>(b: Builder<T>, entries: seq<(Range, T)>): (r: Builder<T>)
    ensures |r.starts| == |b.starts|
    decreases |entries|
  {
    if |entries| == 0 then b
    else SetAll(Set(b, entries[0].0, entries[0].1), entries[1..])
  }

  function Leaves<T>(entries: seq<(Range, T)>): (segs: seq<Segment<T>>)
    ensures |segs| == |entries|
    ensures forall i :: 0 <= i < |entries| ==> segs[i] == Segment(entries[i].0, entries[i].1, [])
    decreases |entries|
  {
    if |entries| == 0 then []
    else [Segment(entries[0].0, entries[0].1, [])] + Leaves(entries[1..])
  }

  /** With no start open, `set` appends one childless root per entry. */
  lemma {:induction false} SetAllRoots<T>(b: Builder<T>, entries: seq<(Range, T)>)
    requires |b.starts| == 0
    ensures SetAll(b, entries) == Builder(b.roots + Leaves(entries), [])
    decreases |entries|
  {
    if |entries| == 0 {
      assert b.roots + [] == b.roots;
    } else {
      var seg := Segment(entries[0].0, entries[0].1, []);
      var b' := Set(b, entries[0].0, entries[0].1);
      assert b' == Builder(b.roots + [seg], []);
      SetAllRoots(b', entries[1..]);
      assert Leaves(entries) == [seg] + Leaves(entries[1..]);
      assert b.roots + [seg] + Leaves(entries[1..]) == b.roots + ([seg] + Leaves(entries[1..]));
    }
  }

  /** While a start is open, `set` only appends to the innermost start's children. */
  lemma {:induction false} SetAllInsideStart<T>(b: Builder<T>, entries: seq<(Range, T)>)
    requires |b.starts| > 0
    ensures var r := SetAll(b, entries);
            var n := |b.starts| - 1;
            && r.roots == b.roots
            && r.starts[..n] == b.starts[..n]
            && r.starts[n] == OpenStart(b.starts[n].position, b.starts[n].children + Leaves(entries))
    decreases |entries|
  {
    var n := |b.starts| - 1;
    if |entries| == 0 {
      assert b.starts[n].children + [] == b.starts[n].children;
    } else {
      var seg := Segment(entries[0].0, entries[0].1, []);
      var b' := Set(b, entries[0].0, entries[0].1);
      assert b'.starts[n] == OpenStart(b.starts[n].position, b.starts[n].children + [seg]);
      SetAllInsideStart(b', entries[1..]);
      assert Leaves(entries) == [seg] + Leaves(entries[1..]);
      assert b.starts[n].children + [seg] + Leaves(entries[1..]) == b.starts[n].children + ([seg] + Leaves(entries[1..]));
    }
  }

  /** `end` pairs with the most recent `start` (LIFO): a start, some sets and an
      end make one segment from the start's position to the end's, holding
      exactly the segments set in between, stored where the start was opened. */
  lemma {:induction false} StartSetEnd<T>(b: Builder<T>, p: nat, entries: seq<(Range, T)>, q: nat, v: T)
    ensures var r := End(SetAll(Start(b, p), entries), q, v);
            && r.Success?
            && r.value == Store(b, Segment(Range(p, q), v, Leaves(entries)))
  {
    var s := Start(b, p);
    SetAllInsideStart(s, entries);
    var m := SetAll(s, entries);
    assert m.starts[..|s.starts| - 1] == b.starts;
    assert m.starts[|m.starts| - 1] == OpenStart(p, [] + Leaves(entries));
    assert [] + Leaves(entries) == Leaves(entries);
  }

  // ---------------------------------------------------------------------------
  // SegmentBuilderLinear

  /** An entry of `endStack`: the end and value of a pushed range not closed yet. */
  datatype PendingEnd<T> = PendingEnd(end: nat, value: T)

  datatype LinearBuilder<T> = LinearBuilder(builder: Builder<T>, ends: seq<PendingEnd<T>>)

  function NewLinear<T>(): LinearBuilder<T> {
    LinearBuilder(NewBuilder(), [])
  }

  /** Every pushed range opens one start and one `endStack` entry, and both are
      popped together, so the two stacks always have the same height. */
  predicate Synced<T>(lb: LinearBuilder<T>) {
    |lb.builder.starts| == |lb.ends|
  }

  /** One iteration of `push`'s loop: pop the top entry and end it. */
  function PopEnd<T>(lb: LinearBuilder<T>): (r: LinearBuilder<T>)
    requires Synced(lb) && |lb.ends| > 0
    ensures Synced(r) && r.ends == lb.ends[..|lb.ends| - 1]
  {
    var top := lb.ends[|lb.ends| - 1];
    LinearBuilder(Close(lb.builder, top.end, top.value), lb.ends[..|lb.ends| - 1])
  }

  /** The loop of `push`: end open entries while their end is strictly before `end`. */
  function CloseBefore<T>(lb: LinearBuilder<T>, end: nat): (r: LinearBuilder<T>)
    requires Synced(lb)
    ensures Synced(r)
    ensures |r.ends| <= |lb.ends| && r.ends == lb.ends[..|r.ends|]
    ensures forall i :: |r.ends| <= i < |lb.ends| ==> lb.ends[i].end < end
    ensures |r.ends| > 0 ==> end <= r.ends[|r.ends| - 1].end
    decreases |lb.ends|
  {
    if |lb.ends| == 0 || end <= lb.ends[|lb.ends| - 1].end then lb
    else CloseBefore(PopEnd(lb), end)
  }

  /** `push`: closes every open entry whose end is strictly before the new range's
      end, then opens the new range. */
  function Push<T>(lb: LinearBuilder<T>, range: Range, value: T): (r: LinearBuilder<T>)
    requires Synced(lb)
    ensures Synced(r)
    ensures exists k :: 0 <= k <= |lb.ends|
              && r.ends == lb.ends[..k] + [PendingEnd(range.end, value)]
              && (forall i :: k <= i < |lb.ends| ==> lb.ends[i].end < range.end)
              && (k > 0 ==> range.end <= lb.ends[k - 1].end)
  {
    var c := CloseBefore(lb, range.end);
    LinearBuilder(Start(c.builder, range.start), c.ends + [PendingEnd(range.end, value)])
  }

  /** `finalize` as the source writes it: it walks `endStack` from the bottom
      while each `end` pops the innermost start, so the outermost end is paired
      with the innermost start. */
  function FinalizeAsWritten<T>(b: Builder<T>, ends: seq<PendingEnd<T>>): (r: Builder<T>)
    requires |ends| <= |b.starts|
    ensures |r.starts| == |b.starts| - |ends|
    decreases |ends|
  {
    if |ends| == 0 then b
    else FinalizeAsWritten(Close(b, ends[0].end, ends[0].value), ends[1..])
  }

  /** `finalize` as intended: each still-open entry is ended against its own
      start, innermost first. */
  function Finalize<T>(lb: LinearBuilder<T>): (r: Builder<T>)
    requires Synced(lb)
    ensures |r.starts| == 0
    decreases |lb.ends|
  {
    if |lb.ends| == 0 then lb.builder
    else Finalize(PopEnd(lb))
  }

  function ToTreeAsWritten<T>(lb: LinearBuilder<T>): seq<Segment<T>>
    requires Synced(lb)
  {
    FinalizeAsWritten(lb.builder, lb.ends).roots
  }

  /** `toTree` (and `toMap`, which differs only in the container): the roots
      after finalizing. */
  function ToTree<T>(lb: LinearBuilder<T>): seq<Segment<T>>
    requires Synced(lb)
  {
    Finalize(lb).roots
  }

  /** Pushing every range in turn, starting from an empty builder. */
  function PushAll<T>(lb: LinearBuilder<T>, entries: seq<(Range, T)>): (r: LinearBuilder<T>)
    requires Synced(lb)
    ensures Synced(r)
    decreases |entries|
  {
    if |entries| == 0 then lb
    else PushAll(Push(lb, entries[0].0, entries[0].1), entries[1..])
  }

  // ---------------------------------------------------------------------------
  // Nesting

  /** A segment is well formed and each child lies inside its parent, recursively. */
  predicate Nested<T>(seg: Segment<T>) {
    && ValidRange(seg.range)
    && forall i :: 0 <= i < |seg.children| ==>
         && seg.range.start <= seg.children[i].range.start
         && seg.children[i].range.end <= seg.range.end
         && Nested(seg.children[i])
  }

  predicate AllNested<T>(segs: seq<Segment<T>>) {
    forall i :: 0 <= i < |segs| ==> Nested(segs[i])
  }

  /** Everything gathered under an open start lies between its position and
      the given end, and is nested. */
  predicate InsideOpen<T>(o: OpenStart<T>, end: nat) {
    forall i :: 0 <= i < |o.children| ==>
      && o.position <= o.children[i].range.start
      && o.children[i].range.end <= end
      && Nested(o.children[i])
  }

  /** The linear builder's invariant: open starts and pending ends describe
      nested ranges (starts non-decreasing, ends non-increasing, each start at
      or before its end), everything gathered under an open start lies inside
      its range, and every root is nested. */
  predicate LinearInv<T>(lb: LinearBuilder<T>) {
    var starts := lb.builder.starts;
    var ends := lb.ends;
    && Synced(lb)
    && (forall k :: 0 <= k < |ends| ==> starts[k].position <= ends[k].end)
    && (forall k, k' :: 0 <= k < k' < |ends| ==>
          starts[k].position <= starts[k'].position && ends[k'].end <= ends[k].end)
    && (forall k :: 0 <= k < |ends| ==> InsideOpen(starts[k], ends[k].end))
    && AllNested(lb.builder.roots)
  }

  lemma {:induction false} PopEndKeepsInv<T>(lb: LinearBuilder<T>)
    requires LinearInv(lb) && |lb.ends| > 0
    ensures LinearInv(PopEnd(lb))
  {
    var n := |lb.ends|;
    var top := lb.builder.starts[n - 1];
    var e := lb.ends[n - 1];
    var seg := Segment(Range(top.position, e.end), e.value, top.children);
    assert Nested(seg);
    var r := PopEnd(lb);
    var b0 := Builder(lb.builder.roots, lb.builder.starts[..n - 1]);
    assert r.builder == Store(b0, seg);
    if n > 1 {
      assert lb.builder.starts[n - 2].position <= top.position;
      assert e.end <= lb.ends[n - 2].end;
      forall k | 0 <= k < |r.ends|
        ensures InsideOpen(r.builder.starts[k], r.ends[k].end)
      {
        if k < n - 2 {
          assert r.builder.starts[k] == lb.builder.starts[k];
        } else {
          assert r.builder.starts[k].children == lb.builder.starts[k].children + [seg];
        }
      }
    }
  }

  /** Popping leaves the positions of the remaining open starts alone. */
  lemma {:induction false} PopEndPositions<T>(lb: LinearBuilder<T>)
    requires Synced(lb) && |lb.ends| > 0
    ensures forall k :: 0 <= k < |PopEnd(lb).ends| ==>
              PopEnd(lb).builder.starts[k].position == lb.builder.starts[k].position
  {
    var n := |lb.ends|;
    var p := PopEnd(lb);
    forall k | 0 <= k < n - 1
      ensures p.builder.starts[k].position == lb.builder.starts[k].position
    {
      if k < n - 2 {
        assert p.builder.starts[..n - 2] == lb.builder.starts[..n - 2];
        assert p.builder.starts[k] == p.builder.starts[..n - 2][k];
      }
    }
  }

  lemma {:induction false} CloseBeforeKeepsInv<T>(lb: LinearBuilder<T>, end: nat)
    requires LinearInv(lb)
    ensures LinearInv(CloseBefore(lb, end))
    ensures forall k :: 0 <= k < |CloseBefore(lb, end).ends| ==>
              CloseBefore(lb, end).builder.starts[k].position == lb.builder.starts[k].position
    decreases |lb.ends|
  {
    if |lb.ends| == 0 || end <= lb.ends[|lb.ends| - 1].end {
    } else {
      var p := PopEnd(lb);
      PopEndKeepsInv(lb);
      CloseBeforeKeepsInv(p, end);
      PopEndPositions(lb);
    }
  }

  /** Opening a range inside the innermost pending one keeps the invariant. */
  lemma {:induction false} OpenKeepsInv<T>(c: LinearBuilder<T>, range: Range, value: T)
    requires LinearInv(c) && ValidRange(range)
    requires forall k :: 0 <= k < |c.ends| ==> c.builder.starts[k].position <= range.start
    requires |c.ends| > 0 ==> range.end <= c.ends[|c.ends| - 1].end
    ensures LinearInv(LinearBuilder(Start(c.builder, range.start),
                                    c.ends + [PendingEnd(range.end, value)]))
  {
    var r := LinearBuilder(Start(c.builder, range.start), c.ends + [PendingEnd(range.end, value)]);
    var m := |c.ends|;
    var starts := r.builder.starts;
    var ends := r.ends;
    assert forall k :: 0 <= k < m ==> starts[k] == c.builder.starts[k] && ends[k] == c.ends[k];
    assert starts[m] == OpenStart(range.start, []) && ends[m].end == range.end;
    assert forall k :: 0 <= k < |ends| ==> starts[k].position <= ends[k].end;
    assert forall k :: 0 <= k < |ends| ==> InsideOpen(starts[k], ends[k].end);
    forall k, k' | 0 <= k < k' < |ends|
      ensures starts[k].position <= starts[k'].position && ends[k'].end <= ends[k].end
    {
      if k' == m {
        assert ends[m - 1].end <= ends[k].end;
      }
    }
  }

  /** Pushing a well-formed range that starts no earlier than any open start
      keeps the invariant. */
  lemma {:induction false} PushKeepsInv<T>(lb: LinearBuilder<T>, range: Range, value: T)
    requires LinearInv(lb) && ValidRange(range)
    requires forall k :: 0 <= k < |lb.ends| ==> lb.builder.starts[k].position <= range.start
    ensures LinearInv(Push(lb, range, value))
    ensures forall k :: 0 <= k < |Push(lb, range, value).ends| ==>
              Push(lb, range, value).builder.starts[k].position <= range.start
  {
    var c := CloseBefore(lb, range.end);
    CloseBeforeKeepsInv(lb, range.end);
    OpenKeepsInv(c, range, value);
  }

  lemma {:induction false} FinalizeNested<T>(lb: LinearBuilder<T>)
    requires LinearInv(lb)
    ensures AllNested(Finalize(lb).roots)
    decreases |lb.ends|
  {
    if |lb.ends| > 0 {
      PopEndKeepsInv(lb);
      FinalizeNested(PopEnd(lb));
    }
  }

  predicate StartsNonDecreasing<T>(entries: seq<(Range, T)>) {
    forall i, j :: 0 <= i < j < |entries| ==> entries[i].0.start <= entries[j].0.start
  }

  lemma {:induction false} PushAllKeepsInv<T>(lb: LinearBuilder<T>, entries: seq<(Range, T)>)
    requires LinearInv(lb)
    requires forall i :: 0 <= i < |entries| ==> ValidRange(entries[i].0)
    requires StartsNonDecreasing(entries)
    requires forall k, i :: 0 <= k < |lb.ends| && 0 <= i < |entries| ==>
               lb.builder.starts[k].position <= entries[i].0.start
    ensures LinearInv(PushAll(lb, entries))
    decreases |entries|
  {
    if |entries| > 0 {
      var lb' := Push(lb, entries[0].0, entries[0].1);
      PushKeepsInv(lb, entries[0].0, entries[0].1);
      var rest := entries[1..];
      forall k, i | 0 <= k < |lb'.ends| && 0 <= i < |rest|
        ensures lb'.builder.starts[k].position <= rest[i].0.start
      {
        assert entries[0].0.start <= entries[i + 1].0.start;
      }
      PushAllKeepsInv(lb', rest);
    }
  }

  /** The intended result of the linear builder: ranges pushed in order of
      their start give a tree in which every child lies inside its parent. */
  lemma {:induction false} LinearTreeNested<T>(entries: seq<(Range, T)>)
    requires forall i :: 0 <= i < |entries| ==> ValidRange(entries[i].0)
    requires StartsNonDecreasing(entries)
    ensures AllNested(ToTree(PushAll(NewLinear(), entries)))
  {
    PushAllKeepsInv(NewLinear(), entries);
    FinalizeNested(PushAll(NewLinear(), entries));
  }

  /** With at most one entry still open, the written `finalize` and the
      intended one build the same tree: the two only differ in how they pair
      two or more open entries with their starts. */
  lemma {:induction false} FinalizeAgreesWhenFlat<T>(lb: LinearBuilder<T>)
    requires Synced(lb) && |lb.ends| <= 1
    ensures ToTreeAsWritten(lb) == ToTree(lb)
  {
    if |lb.ends| == 1 {
      var c := PopEnd(lb);
      assert c.builder == Close(lb.builder, lb.ends[0].end, lb.ends[0].value);
      assert Finalize(lb) == Finalize(c) == c.builder;
      assert FinalizeAsWritten(lb.builder, lb.ends) == FinalizeAsWritten(c.builder, lb.ends[1..]);
    }
  }

  /** Two ranges pushed in order, the second inside the first, as a call whose
      last argument holds another call: the written `finalize` pairs the outer
      end and value with the inner start and the inner ones with the outer
      start. The root runs from the outer start to the inner end and carries
      the inner value; its only child runs from the inner start to the outer
      end and carries the outer value. */
  lemma {:induction false} TwoNestedAsWritten<T>(outer: Range, a: T, inner: Range, b: T)
    requires inner.end <= outer.end
    ensures ToTreeAsWritten(PushAll(NewLinear(), [(outer, a), (inner, b)]))
            == [Segment(Range(outer.start, inner.end), b, [Segment(Range(inner.start, outer.end), a, [])])]
  {
    PushNestedPair(outer, a, inner, b);
    FinalizeOpenPairAsWritten(outer, a, inner, b);
  }

  /** Pushing a range and then one ending inside it leaves both open. */
  lemma {:induction false} PushNestedPair<T>(outer: Range, a: T, inner: Range, b: T)
    requires inner.end <= outer.end
    ensures PushAll(NewLinear(), [(outer, a), (inner, b)])
            == LinearBuilder(Builder([], [OpenStart(outer.start, []), OpenStart(inner.start, [])]),
                             [PendingEnd(outer.end, a), PendingEnd(inner.end, b)])
  {
    var lb0 := NewLinear<T>();
    var lb1 := Push(lb0, outer, a);
    assert CloseBefore(lb0, outer.end) == lb0;
    assert lb1 == LinearBuilder(Builder([], [OpenStart(outer.start, [])]), [PendingEnd(outer.end, a)]);
    assert CloseBefore(lb1, inner.end) == lb1;
    var lb := Push(lb1, inner, b);
    assert lb == LinearBuilder(Builder([], [OpenStart(outer.start, []), OpenStart(inner.start, [])]),
                               [PendingEnd(outer.end, a), PendingEnd(inner.end, b)]);
    var es := [(outer, a), (inner, b)];
    assert PushAll(lb0, es) == PushAll(lb1, es[1..]);
    assert es[1..][1..] == [];
  }

  /** The written `finalize` of two open starts pairs each with the other's end. */
  lemma {:induction false} FinalizeOpenPairAsWritten<T>(outer: Range, a: T, inner: Range, b: T)
    ensures ToTreeAsWritten(LinearBuilder(Builder([], [OpenStart(outer.start, []), OpenStart(inner.start, [])]),
                                          [PendingEnd(outer.end, a), PendingEnd(inner.end, b)]))
            == [Segment(Range(outer.start, inner.end), b, [Segment(Range(inner.start, outer.end), a, [])])]
  {
    var lb := LinearBuilder(Builder([], [OpenStart(outer.start, []), OpenStart(inner.start, [])]),
                            [PendingEnd(outer.end, a), PendingEnd(inner.end, b)]);
    var child := Segment(Range(inner.start, outer.end), a, []);
    var b1 := Close(lb.builder, outer.end, a);
    assert lb.builder.starts[..1] == [OpenStart(outer.start, [])];
    assert [] + [child] == [child];
    assert b1 == Builder([], [OpenStart(outer.start, [child])]);
    var b2 := Close(b1, inner.end, b);
    assert b2 == Builder([Segment(Range(outer.start, inner.end), b, [child])], []);
    assert FinalizeAsWritten(lb.builder, lb.ends) == FinalizeAsWritten(b1, lb.ends[1..]);
    assert FinalizeAsWritten(b1, lb.ends[1..]) == FinalizeAsWritten(b2, []);
  }

  /** The linear builder after pushing [0,10) with value 1 and then the
      nested [2,5) with value 2. */
  function NestedPair(): LinearBuilder<int> {
    Push(Push(NewLinear(), Range(0, 10), 1), Range(2, 5), 2)
  }

  lemma {:induction false} NestedPairState()
    ensures NestedPair() == LinearBuilder(Builder([], [OpenStart(0, []), OpenStart(2, [])]),
                                          [PendingEnd(10, 1), PendingEnd(5, 2)])
  {
    var lb1 := Push(NewLinear(), Range(0, 10), 1);
    assert CloseBefore(NewLinear<int>(), 10) == NewLinear();
    assert lb1 == LinearBuilder(Builder([], [OpenStart(0, [])]), [PendingEnd(10, 1)]);
    assert CloseBefore(lb1, 5) == lb1;
  }

  lemma {:induction false} NestedPairAsWritten()
    ensures ToTreeAsWritten(NestedPair()) == [Segment(Range(0, 5), 2, [Segment(Range(2, 10), 1, [])])]
  {
    NestedPairState();
    var lb := NestedPair();
    var inner := Segment(Range(2, 10), 1, []);
    var b1 := Close(lb.builder, 10, 1);
    assert lb.builder.starts[..1] == [OpenStart(0, [])];
    assert b1 == Store(Builder([], [OpenStart(0, [])]), inner);
    assert [] + [inner] == [inner];
    assert b1 == Builder([], [OpenStart(0, [inner])]);
    var b2 := Close(b1, 5, 2);
    assert b2 == Builder([Segment(Range(0, 5), 2, [inner])], []);
    assert FinalizeAsWritten(lb.builder, lb.ends) == FinalizeAsWritten(b1, lb.ends[1..]);
    assert FinalizeAsWritten(b1, lb.ends[1..]) == FinalizeAsWritten(b2, []);
  }

  lemma {:induction false} NestedPairIntended()
    ensures ToTree(NestedPair()) == [Segment(Range(0, 10), 1, [Segment(Range(2, 5), 2, [])])]
  {
    NestedPairState();
    var lb := NestedPair();
    var leaf := Segment(Range(2, 5), 2, []);
    var c1 := PopEnd(lb);
    assert c1.builder == Close(lb.builder, 5, 2);
    assert lb.builder.starts[..1] == [OpenStart(0, [])];
    assert c1.builder == Store(Builder([], [OpenStart(0, [])]), leaf);
    assert [] + [leaf] == [leaf];
    assert c1 == LinearBuilder(Builder([], [OpenStart(0, [leaf])]), [PendingEnd(10, 1)]);
    var c2 := PopEnd(c1);
    assert c2.builder == Builder([Segment(Range(0, 10), 1, [leaf])], []);
    assert Finalize(lb) == Finalize(c1);
    assert Finalize(c1) == Finalize(c2);
  }

  /** The source's `finalize` breaks nesting: pushing [0,10) and then the nested
      [2,5) yields a root [0,5) carrying the inner value, whose child [2,10)
      carries the outer value and sticks out of its parent. */
  lemma {:induction false} FinalizeAsWrittenBreaksNesting()
    ensures var lb := Push(Push(NewLinear(), Range(0, 10), 1), Range(2, 5), 2);
            && ToTreeAsWritten(lb) == [Segment(Range(0, 5), 2, [Segment(Range(2, 10), 1, [])])]
            && !Nested(ToTreeAsWritten(lb)[0])
            && ToTree(lb) == [Segment(Range(0, 10), 1, [Segment(Range(2, 5), 2, [])])]
  {
    NestedPairAsWritten();
    NestedPairIntended();
    var root := Segment(Range(0, 5), 2, [Segment(Range(2, 10), 1, [])]);
    assert !(root.children[0].range.end <= root.range.end);
  }
}
