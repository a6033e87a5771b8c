/** `parseGlobalSegments`: the stretches of a script at brace depth 0, outside
    every function body. Only braces outside comments and strings count. Each
    global segment ends just before a `{` that opens depth 1, and starts at the
    beginning of the text or just after a `}` that returns to depth 0. */
module GlobalSegments {
  import opened Wrappers
  import opened Chars
  import opened Segments
  import opened TextSegments

  /** The scan's variables: brace depth (never below 0), start offset of the
      current global stretch, and the segments set so far. */
  datatype GState = GState(level: nat, offset: nat, out: seq<Range>)

  /** One brace of the scan at absolute offset `at`. */
  function Step(st: GState, brace: char, at: nat): GState {
    if brace == '{' then
      var level := st.level + 1;
      GState(level, st.offset, if level == 1 then st.out + [Range(st.offset, at)] else st.out)
    else
      var level := if st.level == 0 then 0 else st.level - 1;
      GState(level, if level == 0 then at + 1 else st.offset, st.out)
  }

  /** The gaps between the text segments, the only places braces are read. */
  function CodeGaps(s: string): (gaps: seq<Range>)
    ensures SortedRanges(gaps) && WithinEof(gaps, |s|)
    ensures forall p: nat :: p < |s| ==> (Covered(gaps, p) <==> !Covered(RangesOf(ParseTextSegments(s)), p))
  {
    var rs := RangesOf(ParseTextSegments(s));
    TextSegmentsSorted(s);
    InvertedSorted(rs, |s|);
    forall p: nat | p < |s|
      ensures Covered(Inverted(rs, |s|), p) <==> !Covered(rs, p)
    {
      InvertedTiles(rs, |s|, p);
    }
    Inverted(rs, |s|)
  }

  /** Which offsets lie outside every comment and string. */
  ghost function CodeMask(s: string): (code: seq<bool>)
    ensures |code| == |s|
    ensures forall p :: 0 <= p < |s| ==> (code[p] <==> !Covered(RangesOf(ParseTextSegments(s)), p))
  {
    var gaps := CodeGaps(s);
    seq(|s|, p requires 0 <= p < |s| => Covered(gaps, p))
  }

  /** Every offset of a gap is outside comments and strings. */
  lemma {:induction false} GapIsCode(s: string, j: nat)
    requires j < |CodeGaps(s)|
    ensures var g := CodeGaps(s)[j];
            g.end <= |s| && forall k :: g.start <= k < g.end ==> CodeMask(s)[k]
  {
    var gaps := CodeGaps(s);
    var g := gaps[j];
    forall k | g.start <= k < g.end
      ensures CodeMask(s)[k]
    {
      assert Covered(gaps, k);
    }
  }

  // ---------------------------------------------------------------------------
  // Invariant of the scan

  /** A global stretch starts at the beginning of the text or just after a `}`
      outside comments and strings. */
  predicate IsGlobalStart(s: string, p: nat) {
    p == 0 || (p - 1 < |s| && s[p - 1] == '}' && !Covered(RangesOf(ParseTextSegments(s)), p - 1))
  }

  /** A global stretch that does not run to the end of the text ends at a `{`
      outside comments and strings. */
  predicate IsGlobalEnd(s: string, p: nat) {
    p < |s| && s[p] == '{' && !Covered(RangesOf(ParseTextSegments(s)), p)
  }

  /** `IsGlobalStart` with the code mask in place of the text segments. */
  predicate OkStart(s: string, code: seq<bool>, p: nat) {
    p == 0 || (p - 1 < |s| && p - 1 < |code| && s[p - 1] == '}' && code[p - 1])
  }

  /** `IsGlobalEnd` with the code mask in place of the text segments. */
  predicate OkEnd(s: string, code: seq<bool>, p: nat) {
    p < |s| && p < |code| && s[p] == '{' && code[p]
  }

  /** What holds once the scan has read everything before offset `pos`. */
  predicate Inv(st: GState, s: string, code: seq<bool>, pos: nat) {
    && st.offset <= pos
    && OkStart(s, code, st.offset)
    && SortedRanges(st.out)
    && (forall k :: 0 <= k < |st.out| ==>
          st.out[k].end < pos && OkStart(s, code, st.out[k].start) && OkEnd(s, code, st.out[k].end))
    && (st.level == 0 ==> forall k :: 0 <= k < |st.out| ==> st.out[k].end < st.offset)
    && (st.level > 0 ==> |st.out| > 0)
  }

  lemma {:induction false} InvLater(st: GState, s: string, code: seq<bool>, pos: nat, pos': nat)
    requires Inv(st, s, code, pos) && pos <= pos'
    ensures Inv(st, s, code, pos')
  {
  }

  /** Reading a brace outside comments and strings keeps the invariant. */
  lemma {:induction false} StepKeepsInv(st: GState, s: string, code: seq<bool>, pos: nat, at: nat)
    requires Inv(st, s, code, pos) && pos <= at < |s| && at < |code|
    requires s[at] == '{' || s[at] == '}'
    requires code[at]
    ensures Inv(Step(st, s[at], at), s, code, at + 1)
  {
    var st' := Step(st, s[at], at);
    if s[at] == '{' && st.level == 0 {
      var r := Range(st.offset, at);
      assert st'.out == st.out + [r];
      SortedConcat(st.out, [r]);
      forall k | 0 <= k < |st'.out|
        ensures st'.out[k].end < at + 1
        ensures OkStart(s, code, st'.out[k].start) && OkEnd(s, code, st'.out[k].end)
      {
        if k < |st.out| { assert st'.out[k] == st.out[k]; }
      }
    }
  }

  lemma {:induction false} OkIsGlobal(s: string, gs: seq<Range>)
    requires forall k :: 0 <= k < |gs| ==> OkStart(s, CodeMask(s), gs[k].start)
    requires forall k :: 0 <= k < |gs| ==>
               (gs[k].end == |s| && k == |gs| - 1) || OkEnd(s, CodeMask(s), gs[k].end)
    ensures forall k :: 0 <= k < |gs| ==> IsGlobalStart(s, gs[k].start)
    ensures forall k :: 0 <= k < |gs| ==>
              (gs[k].end == |s| && k == |gs| - 1) || IsGlobalEnd(s, gs[k].end)
  {
  }

  // ---------------------------------------------------------------------------
  // The scan as a fold over the text

  /** The scan reads the character at offset p: a brace outside comments and
      strings. */
  predicate IsRead(s: string, code: seq<bool>, p: nat) {
    p < |s| && p < |code| && code[p] && (s[p] == '{' || s[p] == '}')
  }

  /** The brace depth before offset n: each `{` read adds one, each `}` read
      takes one away but never below 0. */
  function Depth(s: string, code: seq<bool>, n: nat): nat
    decreases n
  {
    if n == 0 then 0
    else
      var d := Depth(s, code, n - 1);
      if !IsRead(s, code, n - 1) then d
      else if s[n - 1] == '{' then d + 1
      else if d == 0 then 0
      else d - 1
  }

  /** The state reached from `st` by reading, in text order, the braces at
      offsets from `from` up to `n`. */
  function Run(st: GState, s: string, code: seq<bool>, from: nat, n: nat): GState
    requires from <= n
    decreases n - from
  {
    if n == from then st
    else
      var r := Run(st, s, code, from, n - 1);
      if IsRead(s, code, n - 1) then Step(r, s[n - 1], n - 1) else r
  }

  /** The state of the scan once it has read everything before offset n. */
  function ScanTo(s: string, code: seq<bool>, n: nat): GState {
    Run(GState(0, 0, []), s, code, 0, n)
  }

  /** The segments once the whole text is read: a last segment to the end of
      the text when the depth is back at 0. */
  function Final(st: GState, eof: nat): seq<Range> {
    if st.level == 0 then st.out + [Range(st.offset, eof)] else st.out
  }

  /** The global segments of a script, as the fold over its text defines them. */
  ghost function Globals(s: string): seq<Range> {
    Final(ScanTo(s, CodeMask(s), |s|), |s|)
  }

  /** The brace depth before offset p, counting only braces outside comments
      and strings. */
  ghost function DepthAt(s: string, p: nat): nat {
    Depth(s, CodeMask(s), p)
  }

  /** Offsets where nothing is read leave the state alone. */
  lemma {:induction false} RunSkip(st: GState, s: string, code: seq<bool>, from: nat, m: nat, n: nat)
    requires from <= m <= n
    requires forall p :: m <= p < n ==> !IsRead(s, code, p)
    ensures Run(st, s, code, from, n) == Run(st, s, code, from, m)
    decreases n - m
  {
    if n > m {
      RunSkip(st, s, code, from, m, n - 1);
    }
  }

  /** Reading up to m and then on to n is reading up to n. */
  lemma {:induction false} RunCompose(st: GState, s: string, code: seq<bool>, from: nat, m: nat, n: nat)
    requires from <= m <= n
    ensures Run(Run(st, s, code, from, m), s, code, m, n) == Run(st, s, code, from, n)
    decreases n - m
  {
    if n > m {
      RunCompose(st, s, code, from, m, n - 1);
    }
  }

  /** The scan's level is the brace depth. */
  lemma {:induction false} ScanLevel(s: string, code: seq<bool>, n: nat)
    ensures ScanTo(s, code, n).level == Depth(s, code, n)
    decreases n
  {
    if n > 0 {
      ScanLevel(s, code, n - 1);
    }
  }

  /** The segments set so far only ever grow at the end. */
  lemma {:induction false} ScanOutGrows(s: string, code: seq<bool>, m: nat, n: nat)
    requires m <= n
    ensures ScanTo(s, code, m).out <= ScanTo(s, code, n).out
    decreases n - m
  {
    if n > m {
      ScanOutGrows(s, code, m, n - 1);
    }
  }

  /** The invariant of the scan, for any mask of the text. */
  lemma {:induction false} ScanToInv(s: string, code: seq<bool>, n: nat)
    requires n <= |s| && |code| == |s|
    ensures Inv(ScanTo(s, code, n), s, code, n)
    decreases n
  {
    if n > 0 {
      ScanToInv(s, code, n - 1);
      if IsRead(s, code, n - 1) {
        StepKeepsInv(ScanTo(s, code, n - 1), s, code, n - 1, n - 1);
      } else {
        InvLater(ScanTo(s, code, n - 1), s, code, n - 1, n);
      }
    }
  }

  /** Depth 0 is what the segments cover: while the depth is 0, every offset
      from the start of the current stretch on has depth 0, and so has every
      offset of a segment set so far, up to and including its end. */
  lemma {:induction false} ScanAtDepth0(s: string, code: seq<bool>, n: nat)
    ensures var st := ScanTo(s, code, n);
            && st.offset <= n
            && (st.level == 0 ==> forall q :: st.offset <= q <= n ==> Depth(s, code, q) == 0)
            && (forall k, q :: 0 <= k < |st.out| && st.out[k].start <= q <= st.out[k].end ==> Depth(s, code, q) == 0)
    decreases n
  {
    if n > 0 {
      var st := ScanTo(s, code, n - 1);
      ScanAtDepth0(s, code, n - 1);
      ScanLevel(s, code, n - 1);
      var st' := ScanTo(s, code, n);
      if IsRead(s, code, n - 1) && s[n - 1] == '{' && st.level == 0 {
        assert st'.out == st.out + [Range(st.offset, n - 1)];
        forall k, q | 0 <= k < |st'.out| && st'.out[k].start <= q <= st'.out[k].end
          ensures Depth(s, code, q) == 0
        {
          if k < |st.out| {
            assert st'.out[k] == st.out[k];
          }
        }
      }
    }
  }

  /** A `{` read at depth 0 ends a segment. */
  lemma {:induction false} OpenEndsSegment(s: string, code: seq<bool>, p: nat)
    requires IsRead(s, code, p) && s[p] == '{' && Depth(s, code, p) == 0
    ensures var out := ScanTo(s, code, p + 1).out;
            |out| > 0 && out[|out| - 1].end == p
  {
    ScanLevel(s, code, p);
  }

  /** The `while (true)` loop over the text of one gap `g`: take whichever of
      the next `{` and `}` comes first, stop when there is neither. Every
      brace of the gap is read in turn. */
  method ScanGap(st0: GState, s: string, g: Range, ghost code: seq<bool>) returns (st: GState)
    requires g.start <= g.end <= |s|
    requires g.end <= |code| && forall k :: g.start <= k < g.end ==> code[k]
    ensures st == Run(st0, s, code, g.start, g.end)
  {
    st := st0;
    var text := s[g.start..g.end];
    var i := 0;
    while true
      invariant i <= |text|
      invariant st == Run(st0, s, code, g.start, g.start + i)
      decreases |text| - i
    {
      var iOpen := IndexOfChar(text, '{', i);
      var iClose := IndexOfChar(text, '}', i);
      if iOpen.Some? && (iClose.None? || iOpen.value < iClose.value) {
        var at := iOpen.value;
        SkipToBrace(st0, s, code, g, text, i, at);
        st := Step(st, text[at], g.start + at);
        i := at + 1;
      } else if iClose.Some? && (iOpen.None? || iClose.value < iOpen.value) {
        var at := iClose.value;
        SkipToBrace(st0, s, code, g, text, i, at);
        st := Step(st, text[at], g.start + at);
        i := at + 1;
      } else {
        forall p | g.start + i <= p < g.end
          ensures !IsRead(s, code, p)
        {
          assert s[p] == text[p - g.start];
        }
        RunSkip(st0, s, code, g.start, g.start + i, g.end);
        break;
      }
    }
  }

  /** Reading on from index i of the gap's text to its next brace at `at`:
      nothing is read before it and the brace itself is read. */
  lemma {:induction false} SkipToBrace(st0: GState, s: string, code: seq<bool>, g: Range, text: string, i: nat, at: nat)
    requires g.start <= g.end <= |s| && text == s[g.start..g.end] && i <= at < |text|
    requires g.end <= |code| && forall k :: g.start <= k < g.end ==> code[k]
    requires text[at] == '{' || text[at] == '}'
    requires forall k :: i <= k < at ==> text[k] != '{' && text[k] != '}'
    ensures Run(st0, s, code, g.start, g.start + at + 1)
            == Step(Run(st0, s, code, g.start, g.start + i), text[at], g.start + at)
  {
    forall p | g.start + i <= p < g.start + at
      ensures !IsRead(s, code, p)
    {
      assert s[p] == text[p - g.start];
    }
    RunSkip(st0, s, code, g.start, g.start + i, g.start + at);
    assert s[g.start + at] == text[at];
  }

  /** `parseGlobalSegments`: the scan keeps the brace depth, the start of the
      current global stretch and the segments set so far; at the end, a last
      segment runs to the end of the text when the depth is 0. The result is
      the fold over the whole text; every segment lies in the text, they come
      in order without overlapping, and each starts at 0 or just after a `}`,
      and ends at a `{` or (the last one only) at the end of the text,
      counting only braces outside comments and strings. */
  method ParseGlobalSegments(s: string) returns (gs: seq<Range>)
    ensures gs == Globals(s)
    ensures |gs| >= 1
    ensures SortedRanges(gs) && WithinEof(gs, |s|)
    ensures forall k :: 0 <= k < |gs| ==> IsGlobalStart(s, gs[k].start)
    ensures forall k :: 0 <= k < |gs| ==>
              (gs[k].end == |s| && k == |gs| - 1) || IsGlobalEnd(s, gs[k].end)
  {
    var gaps := CodeGaps(s);
    ghost var code := CodeMask(s);
    var st := GState(0, 0, []);
    ghost var pos: nat := 0;
    var j := 0;
    while j < |gaps|
      invariant j <= |gaps| && pos <= |s|
      invariant j < |gaps| ==> pos <= gaps[j].start
      invariant forall k :: j <= k < |gaps| ==> pos <= gaps[k].start
      invariant forall k :: 0 <= k < j ==> gaps[k].end <= pos
      invariant st == ScanTo(s, code, pos)
    {
      var g := gaps[j];
      assert ValidRange(g);
      GapIsCode(s, j);
      BetweenGaps(s, pos, j);
      RunSkip(GState(0, 0, []), s, code, 0, pos, g.start);
      RunCompose(GState(0, 0, []), s, code, 0, g.start, g.end);
      st := ScanGap(st, s, g, code);
      pos := g.end;
      j := j + 1;
    }
    BetweenGaps(s, pos, j);
    RunSkip(GState(0, 0, []), s, code, 0, pos, |s|);
    GlobalsShape(s);
    gs := Final(st, |s|);
  }

  /** Nothing is read between the end of the gaps before j and the start of
      gap j (or the end of the text). */
  lemma {:induction false} BetweenGaps(s: string, pos: nat, j: nat)
    requires j <= |CodeGaps(s)| && pos <= |s|
    requires forall k :: 0 <= k < j ==> CodeGaps(s)[k].end <= pos
    ensures var stop := if j < |CodeGaps(s)| then CodeGaps(s)[j].start else |s|;
            forall p :: pos <= p < stop ==> !IsRead(s, CodeMask(s), p)
  {
    var gaps := CodeGaps(s);
    var stop := if j < |gaps| then gaps[j].start else |s|;
    forall p | pos <= p < stop && p < |s|
      ensures !Covered(gaps, p)
    {
    }
  }

  /** The shape of the result: at least one segment, in order inside the
      text, each starting at 0 or after a `}` and ending at a `{` or, the last
      one only, at the end of the text. */
  lemma {:induction false} GlobalsShape(s: string)
    ensures var gs := Globals(s);
            && |gs| >= 1
            && SortedRanges(gs) && WithinEof(gs, |s|)
            && (forall k :: 0 <= k < |gs| ==> IsGlobalStart(s, gs[k].start))
            && (forall k :: 0 <= k < |gs| ==> (gs[k].end == |s| && k == |gs| - 1) || IsGlobalEnd(s, gs[k].end))
  {
    var code := CodeMask(s);
    var st := ScanTo(s, code, |s|);
    ScanToInv(s, code, |s|);
    var gs := Final(st, |s|);
    if st.level == 0 {
      var r := Range(st.offset, |s|);
      SortedConcat(st.out, [r]);
      forall k | 0 <= k < |gs|
        ensures OkStart(s, code, gs[k].start)
        ensures (gs[k].end == |s| && k == |gs| - 1) || OkEnd(s, code, gs[k].end)
      {
        if k < |st.out| { assert gs[k] == st.out[k]; }
      }
    }
    OkIsGlobal(s, gs);
  }

  /** Every `{` outside comments and strings that opens depth 1 ends a global
      segment. */
  lemma {:induction false} OpenAtDepth0EndsSegment(s: string, p: nat)
    requires p < |s| && CodeMask(s)[p] && s[p] == '{' && DepthAt(s, p) == 0
    ensures exists k :: 0 <= k < |Globals(s)| && Globals(s)[k].end == p
  {
    var code := CodeMask(s);
    OpenEndsSegment(s, code, p);
    ScanOutGrows(s, code, p + 1, |s|);
    var out := ScanTo(s, code, p + 1).out;
    var k := |out| - 1;
    assert Globals(s)[k] == ScanTo(s, code, |s|).out[k] == out[k];
  }

  /** Every offset of a global segment is at brace depth 0. */
  lemma {:induction false} SegmentsAtDepth0(s: string, k: nat, q: nat)
    requires k < |Globals(s)| && Globals(s)[k].start <= q < Globals(s)[k].end
    ensures DepthAt(s, q) == 0
  {
    var code := CodeMask(s);
    var st := ScanTo(s, code, |s|);
    ScanAtDepth0(s, code, |s|);
    if k < |st.out| {
      assert Globals(s)[k] == st.out[k];
    }
  }

  /** The last segment runs to the end of the text exactly when the braces
      outside comments and strings leave the depth at 0. */
  lemma {:induction false} LastSegmentIffDepth0(s: string)
    ensures var gs := Globals(s);
            |gs| > 0 && gs[|gs| - 1].end == |s| <==> DepthAt(s, |s|) == 0
  {
    var code := CodeMask(s);
    var st := ScanTo(s, code, |s|);
    ScanLevel(s, code, |s|);
    ScanToInv(s, code, |s|);
  }
}
