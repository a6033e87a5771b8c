/** `SegmentTree`: sorted root segments whose children are again sorted segment
    lists. Queries descend through the levels with the binary search of
    `Segments`. */
module SegmentTrees {
  import opened Segments

  /** Every level of the tree is sorted, as the linear builder produces it for
      ranges pushed in order. */
  predicate SortedTree<T>(segs: seq<Segment<T>>)
    decreases segs
  {
    && Sorted(segs)
    && forall i :: 0 <= i < |segs| ==> SortedTree(segs[i].children)
  }

  /** `SegmentTree.has`: a root segment matches the position. */
  function Has<T>(roots: seq<Segment<T>>, pos: nat, matchEnd: bool): (b: bool)
    ensures b ==> AnyMatches(roots, pos, matchEnd)
    ensures Sorted(roots) ==> (b <==> AnyMatches(roots, pos, matchEnd))
  {
    SegmentIndexFinds(roots, pos, matchEnd);
    SegmentIndex(roots, pos, matchEnd) != -1
  }

  /** `path` descends from the list `segs`: its first segment is one of `segs`,
      and each next one is a child of the one before. */
  ghost predicate Descends<T>(segs: seq<Segment<T>>, path: seq<Segment<T>>)
    decreases path
  {
    |path| == 0 || (path[0] in segs && Descends(path[0].children, path[1..]))
  }

  /** `SegmentTree.get`: the chain of segments containing the position, from a
      root down. */
  function Get<T>(segs: seq<Segment<T>>, pos: nat, matchEnd: bool): (path: seq<Segment<T>>)
    ensures forall k :: 0 <= k < |path| ==> Matches(path[k].range, pos, matchEnd)
    ensures Descends(segs, path)
    ensures Sorted(segs) ==> (|path| == 0 <==> !AnyMatches(segs, pos, matchEnd))
    decreases segs
  {
    var i := SegmentIndex(segs, pos, matchEnd);
    SegmentIndexFinds(segs, pos, matchEnd);
    if i == -1 then []
    else
      var rest := Get(segs[i].children, pos, matchEnd);
      var path := [segs[i]] + rest;
      assert path[1..] == rest;
      path
  }

  /** On a tree sorted at every level the descent stops only where nothing
      deeper contains the position: the last segment of the chain has no child
      matching it. */
  lemma {:induction false} GetIsDeepest<T>(segs: seq<Segment<T>>, pos: nat, matchEnd: bool)
    requires SortedTree(segs)
    ensures var path := Get(segs, pos, matchEnd);
            |path| > 0 ==> !AnyMatches(path[|path| - 1].children, pos, matchEnd)
    decreases segs
  {
    var i := SegmentIndex(segs, pos, matchEnd);
    if i != -1 {
      var c := segs[i].children;
      var rest := Get(c, pos, matchEnd);
      var path := Get(segs, pos, matchEnd);
      assert path == [segs[i]] + rest;
      if |rest| > 0 {
        GetIsDeepest(c, pos, matchEnd);
        assert path[|path| - 1] == rest[|rest| - 1];
      } else {
        assert Sorted(c);
      }
    }
  }

  /** The iterator of `SegmentTree`: the segments in pre-order, each one
      immediately followed by the segments of its subtree. */
  function Flatten<T>(segs: seq<Segment<T>>): seq<Segment<T>>
    decreases segs
  {
    if |segs| == 0 then []
    else [segs[0]] + Flatten(segs[0].children) + Flatten(segs[1..])
  }

  /** The number of segments in a forest. */
  function Size<T>(segs: seq<Segment<T>>): nat
    decreases segs
  {
    if |segs| == 0 then 0
    else 1 + Size(segs[0].children) + Size(segs[1..])
  }

  /** The iteration yields every segment of the tree exactly once by count. */
  lemma {:induction false} FlattenSize<T>(segs: seq<Segment<T>>)
    ensures |Flatten(segs)| == Size(segs)
    decreases segs
  {
    if |segs| > 0 {
      FlattenSize(segs[0].children);
      FlattenSize(segs[1..]);
    }
  }

  lemma {:induction false} SliceOfMiddle<T>(x: seq<T>, y: seq<T>, z: seq<T>, lo: nat, hi: nat)
    requires lo <= hi <= |y|
    ensures (x + y + z)[|x| + lo..|x| + hi] == y[lo..hi]
  {
  }

  /** In the iteration f of segs, the iteration of the children of the
      segment at j directly follows it. */
  ghost predicate SubtreeFollows<T>(segs: seq<Segment<T>>, j: nat) {
    var f := Flatten(segs);
    && j < |f|
    && var sub := Flatten(f[j].children);
       && j + 1 + |sub| <= |f|
       && f[j + 1..j + 1 + |sub|] == sub
  }

  /** Pre-order: wherever a segment is yielded, the iteration of its own
      children follows it directly. */
  lemma {:induction false} FlattenSubtree<T>(segs: seq<Segment<T>>, j: nat)
    requires j < |Flatten(segs)|
    ensures SubtreeFollows(segs, j)
    decreases segs
  {
    var head := Flatten(segs[0].children);
    if j == 0 {
      SubtreeOfFirst(segs);
    } else if j <= |head| {
      FlattenSubtree(segs[0].children, j - 1);
      SubtreeInHead(segs, j);
    } else {
      FlattenSubtree(segs[1..], j - 1 - |head|);
      SubtreeInTail(segs, j);
    }
  }

  lemma {:induction false} SubtreeOfFirst<T>(segs: seq<Segment<T>>)
    requires |segs| > 0
    ensures SubtreeFollows(segs, 0)
  {
    var f := Flatten(segs);
    var x := [segs[0]];
    var head := Flatten(segs[0].children);
    var tail := Flatten(segs[1..]);
    assert f == x + head + tail;
    SliceOfMiddle(x, head, tail, 0, |head|);
    assert head[0..|head|] == head;
  }

  lemma {:induction false} SubtreeInHead<T>(segs: seq<Segment<T>>, j: nat)
    requires |segs| > 0 && 1 <= j <= |Flatten(segs[0].children)|
    requires SubtreeFollows(segs[0].children, j - 1)
    ensures SubtreeFollows(segs, j)
  {
    var f := Flatten(segs);
    var x := [segs[0]];
    var head := Flatten(segs[0].children);
    var tail := Flatten(segs[1..]);
    assert f == x + head + tail;
    assert f[j] == head[j - 1];
    var sub := Flatten(head[j - 1].children);
    SliceOfMiddle(x, head, tail, j, j + |sub|);
  }

  lemma {:induction false} SubtreeInTail<T>(segs: seq<Segment<T>>, j: nat)
    requires |segs| > 0 && 1 + |Flatten(segs[0].children)| <= j
    requires SubtreeFollows(segs[1..], j - 1 - |Flatten(segs[0].children)|)
    ensures SubtreeFollows(segs, j)
  {
    var f := Flatten(segs);
    var x := [segs[0]];
    var head := Flatten(segs[0].children);
    var tail := Flatten(segs[1..]);
    var j' := j - 1 - |head|;
    assert f == (x + head) + tail + [];
    assert f[j] == tail[j'];
    var sub := Flatten(tail[j'].children);
    SliceOfMiddle(x + head, tail, [], j' + 1, j' + 1 + |sub|);
  }
}
