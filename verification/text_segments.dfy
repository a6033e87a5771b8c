/** `parseTextSegments`: the comments and string literals of a script, found by
    one left-to-right scan that tries, at each offset, a block comment, then a
    line comment, then a string literal. */
module TextSegments {
  import opened Wrappers
  import opened Chars
  import opened Segments
  import opened SegmentBuilders

  datatype TextKind = CommentBlock | CommentLine | StringLit

  /** A block comment runs from its `/*` to the first `*/` after it, both
      included, or to the end of the text when it is never closed. */
  function BlockEnd(s: string, i: nat): (e: nat)
    requires StartsAt(s, i, "/*")
    ensures i + 2 <= e <= |s|
    ensures e == |s| || (i + 4 <= e && StartsAt(s, e - 2, "*/"))
    ensures forall k :: i + 2 <= k && k + 2 < e ==> !StartsAt(s, k, "*/")
    ensures e == |s| && !StartsAt(s, e - 2, "*/") ==> forall k :: i + 2 <= k ==> !StartsAt(s, k, "*/")
  {
    match FindFrom(s, "*/", i + 2)
    case Some(k) => k + 2
    case None => |s|
  }

  predicate IsNewline(c: char) {
    c == '\r' || c == '\n'
  }

  /** A line comment runs from its `//` up to, not including, the first `\r` or
      `\n`, or to the end of the text. */
  function LineEnd(s: string, i: nat): (e: nat)
    requires StartsAt(s, i, "//")
    ensures i + 2 <= e <= |s|
    ensures forall k :: i <= k < e ==> !IsNewline(s[k])
    ensures e == |s| || IsNewline(s[e])
  {
    assert s[i..i + 2][0] == s[i] && s[i..i + 2][1] == s[i + 1];
    CommentRunEnd(s, i + 2)
  }

  /** The first `\r` or `\n` from offset j on, or the end of the text. */
  function CommentRunEnd(s: string, j: nat): (e: nat)
    requires j <= |s|
    ensures j <= e <= |s|
    ensures forall k :: j <= k < e ==> !IsNewline(s[k])
    ensures e == |s| || IsNewline(s[e])
    decreases |s| - j
  {
    if j == |s| || IsNewline(s[j]) then j else CommentRunEnd(s, j + 1)
  }

  /** The rest of a string literal from offset j, just after its opening quote
      or an escape: it ends after the first unescaped `"` or at the end of the
      text. A backslash escapes the character after it, whatever it is; a
      backslash that is the last character of the text leaves nothing to
      escape, and then no string literal starts at the opening quote. */
  function StringEnd(s: string, j: nat): (r: Option<nat>)
    requires j <= |s|
    ensures r.Some? ==> j <= r.value <= |s|
    ensures r.Some? && r.value < |s| ==> j < r.value && s[r.value - 1] == '"'
    ensures r.None? ==> |s| > 0 && s[|s| - 1] == '\\'
    decreases |s| - j
  {
    if j == |s| then Some(|s|)
    else if s[j] == '"' then Some(j + 1)
    else if s[j] == '\\' then (if j + 1 == |s| then None else StringEnd(s, j + 2))
    else StringEnd(s, j + 1)
  }

  /** The length of the run of backslashes just before offset k, not looking
      before offset j. */
  function BackslashesBefore(s: string, j: nat, k: nat): nat
    requires j <= k <= |s|
    decreases k - j
  {
    if k == j || s[k - 1] != '\\' then 0 else 1 + BackslashesBefore(s, j, k - 1)
  }

  /** Reading a string literal's body from offset j, the character at k is
      not escaped: an even run of backslashes stands before it. */
  predicate Unescaped(s: string, j: nat, k: nat)
    requires j <= k <= |s|
  {
    BackslashesBefore(s, j, k) % 2 == 0
  }

  lemma {:induction false} RunsFromNext(s: string, j: nat, k: nat)
    requires j < k <= |s| && s[j] != '\\'
    ensures BackslashesBefore(s, j, k) == BackslashesBefore(s, j + 1, k)
    decreases k - j
  {
    if k > j + 1 && s[k - 1] == '\\' {
      RunsFromNext(s, j, k - 1);
    }
  }

  lemma {:induction false} RunsAfterEscape(s: string, j: nat, k: nat)
    requires j + 2 <= k <= |s| && s[j] == '\\'
    ensures BackslashesBefore(s, j, k) % 2 == BackslashesBefore(s, j + 2, k) % 2
    decreases k - j
  {
    if k == j + 2 {
      assert BackslashesBefore(s, j, j + 1) == 1;
    } else if s[k - 1] == '\\' {
      RunsAfterEscape(s, j, k - 1);
    }
  }

  /** The literal ends just after the first `"` from j on that no backslash
      escapes, a backslash escaping the next character whatever it is, and
      runs to the end of the text when there is none; there is no literal
      when the text ends in a backslash that is not escaped. */
  lemma {:induction false} StringEndExact(s: string, j: nat)
    requires j <= |s|
    ensures var r := StringEnd(s, j);
            && (r.Some? && r.value < |s| ==> j < r.value && s[r.value - 1] == '"' && Unescaped(s, j, r.value - 1))
            && (r.Some? ==> forall k :: j <= k < r.value && s[k] == '"' && Unescaped(s, j, k) ==> k == r.value - 1)
            && (r.None? ==> (forall k :: j <= k < |s| && s[k] == '"' ==> !Unescaped(s, j, k)) && !Unescaped(s, j, |s|))
    decreases |s| - j
  {
    if j < |s| && s[j] != '"' {
      if s[j] == '\\' {
        assert BackslashesBefore(s, j, j + 1) == 1;
        if j + 1 < |s| {
          StringEndExact(s, j + 2);
          forall k | j + 2 <= k <= |s|
            ensures Unescaped(s, j, k) <==> Unescaped(s, j + 2, k)
          {
            RunsAfterEscape(s, j, k);
          }
        }
      } else {
        StringEndExact(s, j + 1);
        forall k | j + 1 <= k <= |s|
          ensures Unescaped(s, j, k) <==> Unescaped(s, j + 1, k)
        {
          RunsFromNext(s, j, k);
        }
      }
    }
  }

  /** The token starting at offset i, as the alternation tries them: its kind
      and the offset just after it. */
  function MatchAt(s: string, i: nat): (r: Option<(TextKind, nat)>)
    requires i <= |s|
    ensures r.Some? ==> i < r.value.1 <= |s|
    ensures r.Some? && r.value.0 == CommentBlock <==> StartsAt(s, i, "/*")
    ensures r.Some? && r.value.0 == CommentBlock ==> r.value.1 == BlockEnd(s, i)
    ensures r.Some? && r.value.0 == CommentLine <==> StartsAt(s, i, "//") && !StartsAt(s, i, "/*")
    ensures r.Some? && r.value.0 == CommentLine ==> r.value.1 == LineEnd(s, i)
    ensures r.Some? && r.value.0 == StringLit ==> s[i] == '"'
    ensures i < |s| && s[i] == '"' ==> (r.Some? <==> StringEnd(s, i + 1).Some?)
    ensures i < |s| && s[i] != '"' && !StartsAt(s, i, "/*") && !StartsAt(s, i, "//") ==> r.None?
  {
    if StartsAt(s, i, "/*") then Some((CommentBlock, BlockEnd(s, i)))
    else if StartsAt(s, i, "//") then Some((CommentLine, LineEnd(s, i)))
    else if i < |s| && s[i] == '"' then
      match StringEnd(s, i + 1)
      case Some(e) => Some((StringLit, e))
      case None => None
    else None
  }

  /** The tokens from offset i on: each is the token at its own start, they do
      not overlap and come in text order, and the scan resumes right after each
      one. */
  function Tokens(s: string, i: nat): (ts: seq<(Range, TextKind)>)
    requires i <= |s|
    ensures forall a :: 0 <= a < |ts| ==> i <= ts[a].0.start < ts[a].0.end <= |s|
    decreases |s| - i
  {
    if i == |s| then []
    else
      match MatchAt(s, i)
      case None => Tokens(s, i + 1)
      case Some((k, e)) =>
        var rest := Tokens(s, e);
        var ts := [(Range(i, e), k)] + rest;
        assert forall a :: 1 <= a < |ts| ==> ts[a] == rest[a - 1];
        ts
  }

  /** Each token is the token the alternation matches at its own start. */
  lemma {:induction false} TokensMatch(s: string, i: nat, a: nat)
    requires i <= |s| && a < |Tokens(s, i)|
    ensures var t := Tokens(s, i)[a];
            MatchAt(s, t.0.start) == Some((t.1, t.0.end))
    decreases |s| - i
  {
    var m := MatchAt(s, i);
    if m.None? {
      assert Tokens(s, i) == Tokens(s, i + 1);
      TokensMatch(s, i + 1, a);
    } else {
      var rest := Tokens(s, m.value.1);
      assert Tokens(s, i) == [(Range(i, m.value.1), m.value.0)] + rest;
      if a > 0 {
        assert Tokens(s, i)[a] == rest[a - 1];
        TokensMatch(s, m.value.1, a - 1);
      }
    }
  }

  /** The tokens do not overlap and come in text order. */
  lemma {:induction false} TokensOrdered(s: string, i: nat, a: nat, b: nat)
    requires i <= |s| && a < b < |Tokens(s, i)|
    ensures Tokens(s, i)[a].0.end <= Tokens(s, i)[b].0.start
    decreases |s| - i
  {
    var m := MatchAt(s, i);
    if m.None? {
      assert Tokens(s, i) == Tokens(s, i + 1);
      TokensOrdered(s, i + 1, a, b);
    } else {
      var rest := Tokens(s, m.value.1);
      assert Tokens(s, i) == [(Range(i, m.value.1), m.value.0)] + rest;
      assert Tokens(s, i)[b] == rest[b - 1];
      if a > 0 {
        assert Tokens(s, i)[a] == rest[a - 1];
        TokensOrdered(s, m.value.1, a - 1, b - 1);
      } else {
        assert Tokens(s, i)[0].0.end == m.value.1;
      }
    }
  }

  /** From an offset where no token starts up to the end, the scan finds none. */
  lemma {:induction false} TokensSkip(s: string, i: nat)
    requires i <= |s|
    requires forall k :: i <= k < |s| ==> MatchAt(s, k).None?
    ensures Tokens(s, i) == []
    decreases |s| - i
  {
    if i < |s| {
      TokensSkip(s, i + 1);
    }
  }

  function TokenRanges(ts: seq<(Range, TextKind)>): (rs: seq<Range>)
    ensures |rs| == |ts|
    ensures forall a :: 0 <= a < |ts| ==> rs[a] == ts[a].0
  {
    seq(|ts|, a requires 0 <= a < |ts| => ts[a].0)
  }

  /** The scan misses nothing: at every offset from i on that no token covers,
      no token starts. */
  lemma {:induction false} TokensComplete(s: string, i: nat, p: nat)
    requires i <= p < |s|
    requires !Covered(TokenRanges(Tokens(s, i)), p)
    ensures MatchAt(s, p).None?
    decreases |s| - i
  {
    var ts := Tokens(s, i);
    var m := MatchAt(s, i);
    if m.None? {
      if p > i {
        assert ts == Tokens(s, i + 1);
        TokensComplete(s, i + 1, p);
      }
    } else {
      var e := m.value.1;
      var rest := Tokens(s, e);
      assert ts == [(Range(i, e), m.value.0)] + rest;
      UncoveredTail((Range(i, e), m.value.0), rest, p);
      TokensComplete(s, e, p);
    }
  }

  lemma {:induction false} UncoveredTail(t: (Range, TextKind), rest: seq<(Range, TextKind)>, p: nat)
    requires !Covered(TokenRanges([t] + rest), p)
    ensures !(t.0.start <= p < t.0.end) && !Covered(TokenRanges(rest), p)
  {
    var rs := TokenRanges([t] + rest);
    assert rs[0] == t.0;
    forall a | 0 <= a < |rest|
      ensures !(TokenRanges(rest)[a].start <= p < TokenRanges(rest)[a].end)
    {
      assert rs[a + 1] == rest[a].0;
    }
  }

  /** `parseTextSegments`: every token becomes a childless segment set into an
      empty builder, so the map lists the tokens in text order. */
  function ParseTextSegments(s: string): (segs: seq<Segment<TextKind>>)
    ensures segs == Leaves(Tokens(s, 0))
  {
    var ts := Tokens(s, 0);
    SetAllRoots(NewBuilder(), ts);
    assert [] + Leaves(ts) == Leaves(ts);
    SetAll(NewBuilder(), ts).roots
  }

  /** The text segments form a sorted, non-overlapping list inside the text, as
      the binary search of `SegmentMap` needs. */
  lemma {:induction false} TextSegmentsSorted(s: string)
    ensures Sorted(ParseTextSegments(s)) && WithinEof(RangesOf(ParseTextSegments(s)), |s|)
  {
    var ts := Tokens(s, 0);
    var rs := RangesOf(ParseTextSegments(s));
    assert forall a :: 0 <= a < |rs| ==> rs[a] == ts[a].0;
    forall a, b | 0 <= a < b < |rs| ensures rs[a].end <= rs[b].start {
      TokensOrdered(s, 0, a, b);
    }
  }

  /** Every text segment is the token the alternation matches at its start. */
  lemma {:induction false} TextSegmentsSound(s: string, a: nat)
    requires a < |ParseTextSegments(s)|
    ensures var seg := ParseTextSegments(s)[a];
            MatchAt(s, seg.range.start) == Some((seg.value, seg.range.end))
  {
    var ts := Tokens(s, 0);
    assert ParseTextSegments(s)[a] == Segment(ts[a].0, ts[a].1, []);
    TokensMatch(s, 0, a);
  }

  /** The text segments miss no token: every offset outside all of them
      starts none. */
  lemma {:induction false} TextSegmentsComplete(s: string, p: nat)
    requires p < |s|
    requires !Covered(RangesOf(ParseTextSegments(s)), p)
    ensures MatchAt(s, p).None?
  {
    assert RangesOf(ParseTextSegments(s)) == TokenRanges(Tokens(s, 0));
    TokensComplete(s, 0, p);
  }
}
