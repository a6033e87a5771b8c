/** Segments: ranges of text offsets carrying a value and, in a tree, nested
    children. A list of sibling segments is kept sorted by start and is queried
    by binary search (`getSegmentIndex`, `SegmentMap`). */
module Segments {
  import opened Wrappers

  /** A range of text offsets. `end` is the offset just after the range. */
  datatype Range = Range(start: nat, end: nat)

  /** A segment; `children` is empty where the source leaves it undefined. */
  datatype Segment<T> = Segment(range: Range, value: T, children: seq<Segment<T>>)

  /** The test `getSegmentIndex` applies: `range.contains(position)`, and, unless
      `matchEnd` is set, the position is not the range's end. */
  predicate Matches(r: Range, pos: nat, matchEnd: bool) {
    if matchEnd then r.start <= pos <= r.end else r.start <= pos < r.end
  }

  predicate ValidRange(r: Range) {
    r.start <= r.end
  }

  /** Ranges are well formed, sorted by start and pairwise non-overlapping. */
  predicate SortedRanges(rs: seq<Range>) {
    && (forall i :: 0 <= i < |rs| ==> ValidRange(rs[i]))
    && (forall i, j :: 0 <= i < j < |rs| ==> rs[i].end <= rs[j].start)
  }

  /** Every range lies inside [0, eof]. */
  predicate WithinEof(rs: seq<Range>, eof: nat) {
    forall i :: 0 <= i < |rs| ==> rs[i].end <= eof
  }

  function RangesOf<T>(segs: seq<Segment<T>>): (rs: seq<Range>)
    ensures |rs| == |segs|
    ensures forall i :: 0 <= i < |segs| ==> rs[i] == segs[i].range
  {
    seq(|segs|, i requires 0 <= i < |segs| => segs[i].range)
  }

  predicate Sorted<T>(segs: seq<Segment<T>>) {
    SortedRanges(RangesOf(segs))
  }

  /** Some segment of the list matches the position. */
  predicate AnyMatches<T>(segs: seq<Segment<T>>, pos: nat, matchEnd: bool) {
    exists i :: 0 <= i < |segs| && Matches(segs[i].range, pos, matchEnd)
  }

  /** The `while (low <= high)` loop of `getSegmentIndex`, one iteration per call;
      `high - low` shrinks on every call. */
  function Search<T>(segs: seq<Segment<T>>, pos: nat, matchEnd: bool, low: int, high: int): (r: int)
    requires 0 <= low && high < |segs|
    ensures r == -1 || (low <= r <= high && Matches(segs[r].range, pos, matchEnd))
    decreases high - low + 1
  {
    if low > high then -1
    else
      var mid := (low + high) / 2;
      if Matches(segs[mid].range, pos, matchEnd) then mid
      else if pos < segs[mid].range.start then Search(segs, pos, matchEnd, low, mid - 1)
      else Search(segs, pos, matchEnd, mid + 1, high)
  }

  /** `getSegmentIndex`: the index of a segment matching the position, or -1. */
  function SegmentIndex<T>(segs: seq<Segment<T>>, pos: nat, matchEnd: bool): (r: int)
    ensures r == -1 || (0 <= r < |segs| && Matches(segs[r].range, pos, matchEnd))
    ensures |segs| == 0 ==> r == -1
  {
    Search(segs, pos, matchEnd, 0, |segs| - 1)
  }

  /** On a sorted list the binary search misses nothing: when a segment between
      `low` and `high` matches, the search finds one. */
  lemma {:induction false} SearchComplete<T>(segs: seq<Segment<T>>, pos: nat, matchEnd: bool, low: int, high: int, w: nat)
    requires Sorted(segs)
    requires 0 <= low <= w <= high < |segs|
    requires Matches(segs[w].range, pos, matchEnd)
    ensures Search(segs, pos, matchEnd, low, high) != -1
    decreases high - low + 1
  {
    var rs := RangesOf(segs);
    var mid := (low + high) / 2;
    if Matches(segs[mid].range, pos, matchEnd) {
    } else if pos < segs[mid].range.start {
      SearchComplete(segs, pos, matchEnd, low, mid - 1, w);
    } else {
      SearchComplete(segs, pos, matchEnd, mid + 1, high, w);
    }
  }

  /** `getSegmentIndex` on a sorted list answers -1 exactly when no segment matches. */
  lemma {:induction false} SegmentIndexFinds<T>(segs: seq<Segment<T>>, pos: nat, matchEnd: bool)
    ensures Sorted(segs) ==> (SegmentIndex(segs, pos, matchEnd) != -1 <==> AnyMatches(segs, pos, matchEnd))
  {
    if Sorted(segs) && AnyMatches(segs, pos, matchEnd) {
      var w :| 0 <= w < |segs| && Matches(segs[w].range, pos, matchEnd);
      SearchComplete(segs, pos, matchEnd, 0, |segs| - 1, w);
    }
  }

  // ---------------------------------------------------------------------------
  // SegmentMap

  /** `SegmentMap.indexAt`. The `getSegmentIndexAtPos` it calls is taken to
      be `getSegmentIndex`, called with the same arguments. */
  function IndexAt<T>(segs: seq<Segment<T>>, pos: nat, matchEnd: bool): (r: int)
    ensures r == -1 || (0 <= r < |segs| && Matches(segs[r].range, pos, matchEnd))
    ensures Sorted(segs) ==> (r != -1 <==> AnyMatches(segs, pos, matchEnd))
  {
    SegmentIndexFinds(segs, pos, matchEnd);
    SegmentIndex(segs, pos, matchEnd)
  }

  /** `SegmentMap.hasAt`. */
  function HasAt<T>(segs: seq<Segment<T>>, pos: nat, matchEnd: bool): (b: bool)
    ensures b ==> AnyMatches(segs, pos, matchEnd)
    ensures Sorted(segs) ==> (b <==> AnyMatches(segs, pos, matchEnd))
  {
    IndexAt(segs, pos, matchEnd) != -1
  }

  /** `SegmentMap.getByIndex`: `segments[index]`, undefined outside the list
      (in particular for -1). */
  function GetByIndex<T>(segs: seq<Segment<T>>, index: int): (r: Option<Segment<T>>)
    ensures r.Some? <==> 0 <= index < |segs|
    ensures r.Some? ==> r.value == segs[index]
  {
    if 0 <= index < |segs| then Some(segs[index]) else None
  }

  /** `SegmentMap.getAt`. */
  function GetAt<T>(segs: seq<Segment<T>>, pos: nat, matchEnd: bool): (r: Option<Segment<T>>)
    ensures r.Some? ==> r.value in segs && Matches(r.value.range, pos, matchEnd)
    ensures Sorted(segs) ==> (r.None? <==> !AnyMatches(segs, pos, matchEnd))
  {
    GetByIndex(segs, IndexAt(segs, pos, matchEnd))
  }

  // ---------------------------------------------------------------------------
  // Inversion

  /** The gap between each consecutive pair of ranges, zero-length ones included. */
  function InnerGaps(rs: seq<Range>): (gs: seq<Range>)
    requires |rs| >= 1
    ensures |gs| == |rs| - 1
    ensures forall i :: 0 <= i < |gs| ==> gs[i] == Range(rs[i].end, rs[i + 1].start)
  {
    seq(|rs| - 1, i requires 0 <= i < |rs| - 1 => Range(rs[i].end, rs[i + 1].start))
  }

  function LeadingGap(rs: seq<Range>): seq<Range>
    requires |rs| >= 1
  {
    if rs[0].start != 0 then [Range(0, rs[0].start)] else []
  }

  function TrailingGap(rs: seq<Range>, eof: nat): seq<Range>
    requires |rs| >= 1
  {
    if rs[|rs| - 1].end != eof then [Range(rs[|rs| - 1].end, eof)] else []
  }

  /** `SegmentMap.inverted`: the ranges between the segments and the document's
      beginning and end. */
  function Inverted(rs: seq<Range>, eof: nat): (gs: seq<Range>)
    ensures |rs| == 0 ==> gs == [Range(0, eof)]
    ensures |rs| >= 1 ==> gs == LeadingGap(rs) + InnerGaps(rs) + TrailingGap(rs, eof)
  {
    if |rs| == 0 then [Range(0, eof)]
    else LeadingGap(rs) + InnerGaps(rs) + TrailingGap(rs, eof)
  }

  /** n ranges give n-1 inner gaps, plus a leading gap exactly when the first
      range does not start at 0 and a trailing gap exactly when the last one does
      not end at eof. */
  lemma {:induction false} InvertedCount(rs: seq<Range>, eof: nat)
    requires |rs| >= 1
    ensures |Inverted(rs, eof)| == |rs| - 1
                                   + (if rs[0].start != 0 then 1 else 0)
                                   + (if rs[|rs| - 1].end != eof then 1 else 0)
    ensures rs[0].start != 0 ==> Inverted(rs, eof)[0] == Range(0, rs[0].start)
    ensures rs[|rs| - 1].end != eof ==>
              Inverted(rs, eof)[|Inverted(rs, eof)| - 1] == Range(rs[|rs| - 1].end, eof)
  {
  }

  /** Position p lies in one of the ranges (half-open). */
  predicate Covered(rs: seq<Range>, p: nat) {
    exists i :: 0 <= i < |rs| && rs[i].start <= p < rs[i].end
  }

  /** For sorted ranges inside [0, eof], the last range that starts at or before p. */
  lemma {:induction false} LastStartingAtOrBefore(rs: seq<Range>, p: nat) returns (i: nat)
    requires |rs| >= 1 && rs[0].start <= p
    ensures i < |rs| && rs[i].start <= p
    ensures i + 1 == |rs| || p < rs[i + 1].start
  {
    i := 0;
    while i + 1 < |rs| && rs[i + 1].start <= p
      invariant i < |rs| && rs[i].start <= p
      decreases |rs| - i
    {
      i := i + 1;
    }
  }

  /** Concatenating two sorted lists, the first ending before the second starts,
      keeps them sorted. */
  lemma {:induction false} SortedConcat(a: seq<Range>, b: seq<Range>)
    requires SortedRanges(a) && SortedRanges(b)
    requires forall i, j :: 0 <= i < |a| && 0 <= j < |b| ==> a[i].end <= b[j].start
    ensures SortedRanges(a + b)
  {
    var c := a + b;
    forall i, j | 0 <= i < j < |c|
      ensures c[i].end <= c[j].start
    {
      if j < |a| {
        assert c[i] == a[i] && c[j] == a[j];
      } else if i < |a| {
        assert c[i] == a[i] && c[j] == b[j - |a|];
      } else {
        assert c[i] == b[i - |a|] && c[j] == b[j - |a|];
      }
    }
  }

  lemma {:induction false} CoveredConcat(a: seq<Range>, b: seq<Range>, p: nat)
    ensures Covered(a + b, p) == (Covered(a, p) || Covered(b, p))
  {
    var c := a + b;
    if Covered(c, p) {
      var i :| 0 <= i < |c| && c[i].start <= p < c[i].end;
      if i < |a| { assert c[i] == a[i]; } else { assert c[i] == b[i - |a|]; }
    }
    if Covered(a, p) {
      var i :| 0 <= i < |a| && a[i].start <= p < a[i].end;
      assert c[i] == a[i];
    }
    if Covered(b, p) {
      var i :| 0 <= i < |b| && b[i].start <= p < b[i].end;
      assert c[|a| + i] == b[i];
    }
  }

  lemma {:induction false} InnerGapsSorted(rs: seq<Range>)
    requires SortedRanges(rs) && |rs| >= 1
    ensures SortedRanges(InnerGaps(rs))
    ensures forall j :: 0 <= j < |InnerGaps(rs)| ==>
              rs[0].start <= InnerGaps(rs)[j].start && InnerGaps(rs)[j].end <= rs[|rs| - 1].end
  {
    var g := InnerGaps(rs);
    forall i, j | 0 <= i < j < |g|
      ensures g[i].end <= g[j].start
    {
      assert ValidRange(rs[i + 1]);
      if i + 1 < j { assert rs[i + 1].end <= rs[j].start; }
    }
    forall j | 0 <= j < |g|
      ensures ValidRange(g[j])
      ensures rs[0].start <= g[j].start && g[j].end <= rs[|rs| - 1].end
    {
      assert rs[j].end <= rs[j + 1].start;
      assert ValidRange(rs[0]) && ValidRange(rs[j]) && ValidRange(rs[j + 1]);
      if 0 < j { assert rs[0].end <= rs[j].start; }
      if j + 1 < |rs| - 1 { assert rs[j + 1].end <= rs[|rs| - 1].start; }
    }
  }

  lemma {:induction false} LeadAndInnerSorted(rs: seq<Range>)
    requires SortedRanges(rs) && |rs| >= 1
    ensures SortedRanges(LeadingGap(rs) + InnerGaps(rs))
    ensures forall j :: 0 <= j < |LeadingGap(rs) + InnerGaps(rs)| ==>
              (LeadingGap(rs) + InnerGaps(rs))[j].end <= rs[|rs| - 1].end
  {
    var lead := LeadingGap(rs);
    var inner := InnerGaps(rs);
    InnerGapsSorted(rs);
    assert ValidRange(rs[0]);
    SortedConcat(lead, inner);
    var li := lead + inner;
    forall j | 0 <= j < |li|
      ensures li[j].end <= rs[|rs| - 1].end
    {
      if j < |lead| {
        assert li[j] == Range(0, rs[0].start);
        if |rs| > 1 { assert rs[0].end <= rs[|rs| - 1].start; }
        assert ValidRange(rs[|rs| - 1]);
      } else {
        assert li[j] == inner[j - |lead|];
      }
    }
  }

  /** The gaps are themselves sorted and inside [0, eof]. */
  lemma {:induction false} InvertedSorted(rs: seq<Range>, eof: nat)
    requires SortedRanges(rs) && WithinEof(rs, eof)
    ensures SortedRanges(Inverted(rs, eof)) && WithinEof(Inverted(rs, eof), eof)
  {
    if |rs| >= 1 {
      var li := LeadingGap(rs) + InnerGaps(rs);
      var trail := TrailingGap(rs, eof);
      LeadAndInnerSorted(rs);
      assert rs[|rs| - 1].end <= eof;
      assert SortedRanges(trail);
      SortedConcat(li, trail);
      assert WithinEof(li, eof);
      var gs := li + trail;
      assert forall j :: 0 <= j < |gs| ==> gs[j].end <= eof by {
        forall j | 0 <= j < |gs| ensures gs[j].end <= eof {
          if j < |li| { assert gs[j] == li[j]; } else { assert gs[j] == trail[j - |li|]; }
        }
      }
    }
  }

  /** A position inside some range lies in no gap. */
  lemma {:induction false} CoveredNotGap(rs: seq<Range>, eof: nat, p: nat, i: nat)
    requires SortedRanges(rs) && |rs| >= 1
    requires i < |rs| && rs[i].start <= p < rs[i].end
    ensures !Covered(Inverted(rs, eof), p)
  {
    var n := |rs|;
    var lead := LeadingGap(rs);
    var inner := InnerGaps(rs);
    var trail := TrailingGap(rs, eof);
    assert !Covered(lead, p) by {
      if i > 0 { assert rs[0].end <= rs[i].start; }
      assert ValidRange(rs[0]);
    }
    assert !Covered(inner, p) by {
      forall a | 0 <= a < |inner|
        ensures !(inner[a].start <= p < inner[a].end)
      {
        if a < i {
          if a + 1 < i { assert rs[a + 1].end <= rs[i].start; }
          assert ValidRange(rs[a + 1]);
        } else if a > i {
          assert rs[i].end <= rs[a].start;
          assert ValidRange(rs[a]);
        }
      }
    }
    assert !Covered(trail, p) by {
      if i < n - 1 { assert rs[i].end <= rs[n - 1].start; }
      assert ValidRange(rs[n - 1]);
    }
    CoveredConcat(lead, inner, p);
    CoveredConcat(lead + inner, trail, p);
  }

  /** A position before eof inside no range lies in some gap. */
  lemma {:induction false} UncoveredInGap(rs: seq<Range>, eof: nat, p: nat)
    requires SortedRanges(rs) && |rs| >= 1
    requires p < eof && !Covered(rs, p)
    ensures Covered(Inverted(rs, eof), p)
  {
    var n := |rs|;
    var lead := LeadingGap(rs);
    var inner := InnerGaps(rs);
    var trail := TrailingGap(rs, eof);
    CoveredConcat(lead, inner, p);
    CoveredConcat(lead + inner, trail, p);
    if p < rs[0].start {
      assert lead[0] == Range(0, rs[0].start);
      assert Covered(lead, p);
    } else {
      var i := LastStartingAtOrBefore(rs, p);
      assert !(rs[i].start <= p < rs[i].end);
      if i + 1 == n {
        assert trail[0] == Range(rs[n - 1].end, eof);
        assert Covered(trail, p);
      } else {
        assert inner[i].start <= p < inner[i].end;
        assert Covered(inner, p);
      }
    }
  }

  /** Segments and gaps tile [0, eof): every position before eof lies in exactly
      one of the two families. */
  lemma {:induction false} InvertedTiles(rs: seq<Range>, eof: nat, p: nat)
    requires SortedRanges(rs) && WithinEof(rs, eof)
    requires p < eof
    ensures Covered(rs, p) != Covered(Inverted(rs, eof), p)
  {
    var gs := Inverted(rs, eof);
    if |rs| == 0 {
      assert gs[0].start <= p < gs[0].end;
    } else if Covered(rs, p) {
      var i :| 0 <= i < |rs| && rs[i].start <= p < rs[i].end;
      CoveredNotGap(rs, eof, p, i);
    } else {
      UncoveredInGap(rs, eof, p);
    }
  }

  /** Inverting twice gives back the positions of the original ranges: the
      complement of the complement covers exactly what the ranges cover. */
  lemma {:induction false} InvertTwice(rs: seq<Range>, eof: nat, p: nat)
    requires SortedRanges(rs) && WithinEof(rs, eof)
    requires p < eof
    ensures Covered(Inverted(Inverted(rs, eof), eof), p) == Covered(rs, p)
  {
    InvertedSorted(rs, eof);
    InvertedTiles(rs, eof, p);
    InvertedTiles(Inverted(rs, eof), eof, p);
  }
}
