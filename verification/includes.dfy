/** `parseIncludes`: the `#include path;` directives of a script's first global
    segment, found with the pattern `#include\s*(\b[\w\\]+)`. */
module Includes {
  import opened Wrappers
  import opened Chars
  import opened Segments
  import opened TextSegments
  import opened SegmentBuilders
  import GlobalSegments

  /** An included path and where it is written. */
  datatype Include = Include(path: string, pathRange: Range)

  /** One match of the pattern in a text: the directive spans [start, end),
      the path spans [pathStart, end). */
  datatype IncludeMatch = IncludeMatch(start: nat, pathStart: nat, end: nat, path: string)

  /** `document.getText(range)`: the range is clamped to the document, and its
      ends are swapped when given in reverse order. */
  function GetText(s: string, r: Range): (t: string)
    ensures |t| <= |s|
  {
    var lo := if r.start <= |s| then r.start else |s|;
    var hi := if r.end <= |s| then r.end else |s|;
    if lo <= hi then s[lo..hi] else s[hi..lo]
  }

  /** `document.offsetAt(range.start)`: where the text of a range starts in
      the document. */
  function RangeBase(s: string, r: Range): (base: nat)
    ensures var t := GetText(s, r);
            base + |t| <= |s| && s[base..base + |t|] == t
  {
    var lo := if r.start <= r.end then r.start else r.end;
    if lo <= |s| then lo else |s|
  }

  /** The pattern at offset k of t. After `#include` and any whitespace, `\b`
      needs a word character when whitespace was skipped (the character
      before is then a space) and a non-word character when none was (the
      character before is `e`); the path is then the longest run of `[\w\\]`,
      which must not be empty. Giving back whitespace cannot help: the path
      would have to start with a space. */
  function IncludeAt(t: string, k: nat): (r: Option<IncludeMatch>)
    requires k <= |t|
    ensures r.Some? ==>
              && r.value.start == k
              && StartsAt(t, k, "#include")
              && k + 8 <= r.value.pathStart < r.value.end <= |t|
              && r.value.path == t[r.value.pathStart..r.value.end]
  {
    if !StartsAt(t, k, "#include") then None
    else
      var j := SpaceEnd(t, k + 8);
      if j == |t| then None
      else if (if j == k + 8 then t[j] == '\\' else IsWord(t[j])) then
        var e := PathEnd(t, j);
        Some(IncludeMatch(k, j, e, t[j..e]))
      else None
  }

  /** What a match is: `#include`, whitespace, and the longest run of path
      characters, where `\b` needs a word character after whitespace and a
      non-word character when no whitespace was skipped. The pattern matches
      exactly when that run can start. */
  lemma {:induction false} IncludeAtExact(t: string, k: nat)
    requires k <= |t|
    ensures var r := IncludeAt(t, k);
            r.Some? ==>
              && (forall q :: k + 8 <= q < r.value.pathStart ==> IsSpace(t[q]))
              && (forall q :: r.value.pathStart <= q < r.value.end ==> IsPathChar(t[q]))
              && (r.value.end == |t| || !IsPathChar(t[r.value.end]))
              && (r.value.pathStart == k + 8 ==> t[r.value.pathStart] == '\\')
              && (r.value.pathStart > k + 8 ==> IsWord(t[r.value.pathStart]))
    ensures var r := IncludeAt(t, k);
            StartsAt(t, k, "#include") && SpaceEnd(t, k + 8) < |t| ==>
              var j := SpaceEnd(t, k + 8);
              (r.Some? <==> (if j == k + 8 then t[j] == '\\' else IsWord(t[j])))
    ensures !StartsAt(t, k, "#include") || SpaceEnd(t, k + 8) == |t| ==> IncludeAt(t, k).None?
  {
  }

  /** `matchAll` from offset k: after a match the search resumes at its end,
      otherwise one character further. */
  function MatchesFrom(t: string, k: nat): (ms: seq<IncludeMatch>)
    requires k <= |t|
    ensures forall a :: 0 <= a < |ms| ==> k <= ms[a].start < ms[a].end <= |t|
    decreases |t| - k
  {
    if k == |t| then []
    else
      match IncludeAt(t, k)
      case None => MatchesFrom(t, k + 1)
      case Some(m) =>
        var rest := MatchesFrom(t, m.end);
        var ms := [m] + rest;
        assert ms[1..] == rest;
        ms
  }

  /** The matches do not overlap and come in order: each ends before the
      next one starts. */
  lemma {:induction false} MatchesOrdered(t: string, k: nat, a: nat, b: nat)
    requires k <= |t| && a < b < |MatchesFrom(t, k)|
    ensures MatchesFrom(t, k)[a].end <= MatchesFrom(t, k)[b].start
    decreases |t| - k
  {
    var h := IncludeAt(t, k);
    if h.None? {
      assert MatchesFrom(t, k) == MatchesFrom(t, k + 1);
      MatchesOrdered(t, k + 1, a, b);
    } else {
      var rest := MatchesFrom(t, h.value.end);
      assert MatchesFrom(t, k) == [h.value] + rest;
      if a > 0 {
        MatchesOrdered(t, h.value.end, a - 1, b - 1);
      } else {
        assert rest[b - 1].start >= h.value.end;
      }
    }
  }

  /** Every match found is a match of the pattern where it starts. */
  lemma {:induction false} MatchesMatch(t: string, k: nat, a: nat)
    requires k <= |t| && a < |MatchesFrom(t, k)|
    ensures var m := MatchesFrom(t, k)[a];
            IncludeAt(t, m.start) == Some(m)
    decreases |t| - k
  {
    var m := IncludeAt(t, k);
    if m.None? {
      assert MatchesFrom(t, k) == MatchesFrom(t, k + 1);
      MatchesMatch(t, k + 1, a);
    } else if a > 0 {
      var rest := MatchesFrom(t, m.value.end);
      assert MatchesFrom(t, k) == [m.value] + rest;
      MatchesMatch(t, m.value.end, a - 1);
    }
  }

  /** The membership form of `MatchesMatch`. */
  lemma {:induction false} MatchFound(t: string, k: nat, m: IncludeMatch)
    requires k <= |t| && m in MatchesFrom(t, k)
    ensures m.start <= |t| && IncludeAt(t, m.start) == Some(m)
    decreases |t| - k
  {
    var h := IncludeAt(t, k);
    if h.None? {
      assert MatchesFrom(t, k) == MatchesFrom(t, k + 1);
      MatchFound(t, k + 1, m);
    } else if m != h.value {
      var rest := MatchesFrom(t, h.value.end);
      assert MatchesFrom(t, k) == [h.value] + rest;
      MatchFound(t, h.value.end, m);
    }
  }

  /** No match of ms covers offset p. */
  predicate Uncovered(ms: seq<IncludeMatch>, p: nat) {
    forall a :: 0 <= a < |ms| ==> !(ms[a].start <= p < ms[a].end)
  }

  lemma {:induction false} UncoveredTail(m: IncludeMatch, rest: seq<IncludeMatch>, p: nat)
    requires Uncovered([m] + rest, p)
    ensures !(m.start <= p < m.end) && Uncovered(rest, p)
  {
    var ms := [m] + rest;
    assert ms[0] == m;
    forall a | 0 <= a < |rest| ensures !(rest[a].start <= p < rest[a].end) {
      assert ms[a + 1] == rest[a];
    }
  }

  /** The search misses no directive: at every offset from k on that lies in
      no match, the pattern does not match. */
  lemma {:induction false} MatchesComplete(t: string, k: nat, p: nat)
    requires k <= p < |t|
    requires Uncovered(MatchesFrom(t, k), p)
    ensures IncludeAt(t, p).None?
    decreases |t| - k
  {
    var m := IncludeAt(t, k);
    if m.None? {
      if p > k {
        assert MatchesFrom(t, k) == MatchesFrom(t, k + 1);
        MatchesComplete(t, k + 1, p);
      }
    } else {
      var rest := MatchesFrom(t, m.value.end);
      assert MatchesFrom(t, k) == [m.value] + rest;
      UncoveredTail(m.value, rest, p);
      MatchesComplete(t, m.value.end, p);
    }
  }

  // ---------------------------------------------------------------------------
  // The path set

  /** `Set.add`: a path joins at the end unless it is already there. */
  function AddPath(paths: seq<string>, p: string): (r: seq<string>)
    ensures p in r
    ensures forall q :: q in r <==> q in paths || q == p
  {
    if p in paths then paths else paths + [p]
  }

  predicate Distinct<T(==)>(xs: seq<T>) {
    forall a, b :: 0 <= a < b < |xs| ==> xs[a] != xs[b]
  }

  /** `[...new Set(paths)]`: each path once, in order of first appearance. */
  function Dedup(acc: seq<string>, xs: seq<string>): (r: seq<string>)
    requires Distinct(acc)
    ensures Distinct(r)
    ensures forall q :: q in r <==> q in acc || q in xs
    ensures |acc| <= |r| && r[..|acc|] == acc
    decreases |xs|
  {
    if |xs| == 0 then acc
    else
      var acc' := AddPath(acc, xs[0]);
      assert acc'[..|acc|] == acc;
      var r := Dedup(acc', xs[1..]);
      assert forall q :: q in xs <==> q == xs[0] || q in xs[1..] by {
        assert xs == [xs[0]] + xs[1..];
      }
      assert r[..|acc|] == r[..|acc'|][..|acc|];
      r
  }

  /** The position of the first occurrence of x in xs. */
  function FirstIndex(xs: seq<string>, x: string): (i: nat)
    requires x in xs
    ensures i < |xs| && xs[i] == x && x !in xs[..i]
  {
    if xs[0] == x then 0
    else
      assert x in xs[1..] by { assert xs == [xs[0]] + xs[1..]; }
      var i := 1 + FirstIndex(xs[1..], x);
      assert xs[..i] == [xs[0]] + xs[1..][..i - 1];
      i
  }

  /** The deduplicated paths come in the order of their first appearance. */
  lemma {:induction false} DedupOrder(xs: seq<string>, a: nat, b: nat)
    requires a < b < |Dedup([], xs)|
    ensures FirstIndex(xs, Dedup([], xs)[a]) < FirstIndex(xs, Dedup([], xs)[b])
  {
    DedupOrderFrom([], xs, a, b);
  }

  /** Generalisation of `DedupOrder` over an accumulated prefix: entries past
      the prefix keep the order of their first appearance in xs. */
  lemma {:induction false} DedupOrderFrom(acc: seq<string>, xs: seq<string>, a: nat, b: nat)
    requires Distinct(acc)
    requires |acc| <= a < b < |Dedup(acc, xs)|
    ensures Dedup(acc, xs)[a] in xs && Dedup(acc, xs)[b] in xs
    ensures FirstIndex(xs, Dedup(acc, xs)[a]) < FirstIndex(xs, Dedup(acc, xs)[b])
    decreases |xs|
  {
    var r := Dedup(acc, xs);
    var acc' := AddPath(acc, xs[0]);
    assert r == Dedup(acc', xs[1..]);
    var x := r[a];
    var y := r[b];
    DedupFresh(acc, xs, a);
    DedupFresh(acc, xs, b);
    if xs[0] in acc {
      DedupOrderFrom(acc', xs[1..], a, b);
      FirstIndexShift(xs, x);
      FirstIndexShift(xs, y);
    } else if a == |acc| {
      DedupHead(acc, xs);
      assert x == xs[0];
      DedupFresh(acc', xs[1..], b);
      FirstIndexShift(xs, y);
    } else {
      DedupOrderFrom(acc', xs[1..], a, b);
      FirstIndexShift(xs, x);
      FirstIndexShift(xs, y);
    }
  }

  /** An entry past the accumulated prefix is new: it comes from xs, and not
      from the prefix. */
  lemma {:induction false} DedupFresh(acc: seq<string>, xs: seq<string>, a: nat)
    requires Distinct(acc)
    requires |acc| <= a < |Dedup(acc, xs)|
    ensures Dedup(acc, xs)[a] !in acc && Dedup(acc, xs)[a] in xs
  {
    var r := Dedup(acc, xs);
    forall q | 0 <= q < |acc| ensures acc[q] != r[a] {
      assert acc[q] == r[..|acc|][q] == r[q];
    }
    assert r[a] in r;
  }

  /** A first entry not yet accumulated is placed right after the prefix. */
  lemma {:induction false} DedupHead(acc: seq<string>, xs: seq<string>)
    requires Distinct(acc)
    requires |xs| > 0 && xs[0] !in acc
    ensures |acc| < |Dedup(acc, xs)| && Dedup(acc, xs)[|acc|] == xs[0]
  {
    var acc' := AddPath(acc, xs[0]);
    assert acc' == acc + [xs[0]];
    var r := Dedup(acc', xs[1..]);
    assert r[..|acc'|] == acc';
    assert r[|acc|] == r[..|acc'|][|acc|];
  }

  lemma {:induction false} FirstIndexShift(xs: seq<string>, x: string)
    requires |xs| > 0 && x in xs[1..] && x != xs[0]
    ensures x in xs && FirstIndex(xs, x) == 1 + FirstIndex(xs[1..], x)
  {
    assert xs == [xs[0]] + xs[1..];
  }

  // ---------------------------------------------------------------------------
  // parseIncludes

  datatype Parsed = Parsed(byRange: seq<Segment<Include>>, paths: seq<string>)

  /** The text `parseIncludes` searches: the first global segment, or the whole
      document when there is none (`getText(undefined)`). */
  function SearchedText(s: string, globals: seq<Range>): string {
    if |globals| == 0 then s else GetText(s, globals[0])
  }

  /** Where the searched text starts in the document. */
  function SearchBase(s: string, globals: seq<Range>): nat {
    if |globals| == 0 then 0 else RangeBase(s, globals[0])
  }

  /** A match is dropped when its start, shifted by `base`, lies in a comment
      or string. */
  predicate Dropped(m: IncludeMatch, textSegs: seq<Segment<TextKind>>, base: nat) {
    HasAt(textSegs, base + m.start, false)
  }

  /** The matches kept, in order. */
  function Kept(ms: seq<IncludeMatch>, textSegs: seq<Segment<TextKind>>, base: nat): (ks: seq<IncludeMatch>)
  {
    if |ms| == 0 then []
    else
      var rest := Kept(ms[1..], textSegs, base);
      if Dropped(ms[0], textSegs, base) then rest else [ms[0]] + rest
  }

  /** A match is kept exactly when it was found and is not dropped. */
  lemma {:induction false} KeptMember(ms: seq<IncludeMatch>, textSegs: seq<Segment<TextKind>>, base: nat, m: IncludeMatch)
    ensures m in Kept(ms, textSegs, base) <==> m in ms && !Dropped(m, textSegs, base)
  {
    if |ms| > 0 {
      KeptMember(ms[1..], textSegs, base, m);
      assert ms == [ms[0]] + ms[1..];
    }
  }

  function ToSegment(m: IncludeMatch, base: nat): Segment<Include> {
    Segment(Range(base + m.start, base + m.end), Include(m.path, Range(base + m.pathStart, base + m.end)), [])
  }

  function PathsOf(ks: seq<IncludeMatch>): (ps: seq<string>)
    ensures |ps| == |ks| && forall a :: 0 <= a < |ks| ==> ps[a] == ks[a].path
  {
    seq(|ks|, a requires 0 <= a < |ks| => ks[a].path)
  }

  function Assemble(ks: seq<IncludeMatch>, base: nat): (p: Parsed)
    ensures Distinct(p.paths)
  {
    Parsed(seq(|ks|, a requires 0 <= a < |ks| => ToSegment(ks[a], base)), Dedup([], PathsOf(ks)))
  }

  /** `parseIncludes` as written: offsets of matches in the first global
      segment's text are used as document offsets, whatever offset that
      segment starts at. */
  function ParseIncludesAsWritten(s: string, globals: seq<Range>, textSegs: seq<Segment<TextKind>>): Parsed {
    Assemble(Kept(MatchesFrom(SearchedText(s, globals), 0), textSegs, 0), 0)
  }

  /** `parseIncludes` with match offsets shifted to document offsets. */
  function ParseIncludes(s: string, globals: seq<Range>, textSegs: seq<Segment<TextKind>>): (p: Parsed)
    ensures Distinct(p.paths)
  {
    var base := SearchBase(s, globals);
    Assemble(Kept(MatchesFrom(SearchedText(s, globals), 0), textSegs, base), base)
  }

  /** A pattern found in a slice of s is found in s at the shifted offset. */
  lemma {:induction false} ShiftStartsAt(s: string, base: nat, t: string, i: nat, pat: string)
    requires base + |t| <= |s| && s[base..base + |t|] == t
    requires StartsAt(t, i, pat)
    ensures StartsAt(s, base + i, pat)
  {
    forall q | 0 <= q < |pat|
      ensures s[base + i + q] == pat[q]
    {
      assert t[i..i + |pat|][q] == t[i + q] == s[base..base + |t|][i + q];
    }
  }

  /** The searched text sits in the document at `SearchBase`. */
  lemma {:induction false} SearchedTextAt(s: string, globals: seq<Range>)
    ensures var t := SearchedText(s, globals);
            var base := SearchBase(s, globals);
            base + |t| <= |s| && s[base..base + |t|] == t
  {
  }

  /** What the include list means: a path is listed exactly when a match of
      the directive pattern in the searched text, outside comments and
      strings, names it; and each path is listed once. */
  lemma {:induction false} IncludePathsExact(s: string, globals: seq<Range>, textSegs: seq<Segment<TextKind>>, path: string)
    ensures var p := ParseIncludes(s, globals, textSegs);
            var ms := MatchesFrom(SearchedText(s, globals), 0);
            var base := SearchBase(s, globals);
            && Distinct(p.paths)
            && (path in p.paths <==> exists m :: m in ms && m.path == path && !Dropped(m, textSegs, base))
  {
    var ms := MatchesFrom(SearchedText(s, globals), 0);
    var base := SearchBase(s, globals);
    var ks := Kept(ms, textSegs, base);
    PathsOfMember(ks, path);
    assert ParseIncludes(s, globals, textSegs).paths == Dedup([], PathsOf(ks));
    if exists m :: m in ks && m.path == path {
      var m :| m in ks && m.path == path;
      KeptMember(ms, textSegs, base, m);
    }
    if exists m :: m in ms && m.path == path && !Dropped(m, textSegs, base) {
      var m :| m in ms && m.path == path && !Dropped(m, textSegs, base);
      KeptMember(ms, textSegs, base, m);
    }
  }

  /** A path is among the paths of some matches exactly when one of them
      names it. */
  lemma {:induction false} PathsOfMember(ks: seq<IncludeMatch>, path: string)
    ensures path in PathsOf(ks) <==> exists m :: m in ks && m.path == path
  {
    var ps := PathsOf(ks);
    if path in ps {
      var a :| 0 <= a < |ps| && ps[a] == path;
      assert ks[a] in ks;
    }
    if exists m :: m in ks && m.path == path {
      var m :| m in ks && m.path == path;
      var a :| 0 <= a < |ks| && ks[a] == m;
      assert ps[a] == path;
    }
  }

  /** Each directive's segment is where the directive is written in the
      document: it starts with `#include` and lies after the searched text's
      start. */
  lemma {:induction false} IncludeRangesInDocument(s: string, globals: seq<Range>, textSegs: seq<Segment<TextKind>>, a: nat)
    requires a < |ParseIncludes(s, globals, textSegs).byRange|
    ensures var r := ParseIncludes(s, globals, textSegs).byRange[a].range;
            SearchBase(s, globals) <= r.start < r.end <= |s| && StartsAt(s, r.start, "#include")
  {
    var t := SearchedText(s, globals);
    var base := SearchBase(s, globals);
    var ks := Kept(MatchesFrom(t, 0), textSegs, base);
    assert ParseIncludes(s, globals, textSegs).byRange[a] == ToSegment(ks[a], base);
    SearchedTextAt(s, globals);
    KeptInDocument(s, base, t, textSegs, a);
  }

  lemma {:induction false} KeptInDocument(s: string, base: nat, t: string, textSegs: seq<Segment<TextKind>>, a: nat)
    requires base + |t| <= |s| && s[base..base + |t|] == t
    requires a < |Kept(MatchesFrom(t, 0), textSegs, base)|
    ensures var r := ToSegment(Kept(MatchesFrom(t, 0), textSegs, base)[a], base).range;
            base <= r.start < r.end <= |s| && StartsAt(s, r.start, "#include")
  {
    var m := Kept(MatchesFrom(t, 0), textSegs, base)[a];
    KeptMember(MatchesFrom(t, 0), textSegs, base, m);
    MatchInDocument(s, base, t, m);
  }

  /** A match in a slice of the document, shifted by where the slice starts,
      is a directive of the document. */
  lemma {:induction false} MatchInDocument(s: string, base: nat, t: string, m: IncludeMatch)
    requires base + |t| <= |s| && s[base..base + |t|] == t
    requires m in MatchesFrom(t, 0)
    ensures base + m.start < base + m.end <= |s| && StartsAt(s, base + m.start, "#include")
  {
    MatchFoundAt(t, m);
    ShiftStartsAt(s, base, t, m.start, "#include");
  }

  lemma {:induction false} MatchFoundAt(t: string, m: IncludeMatch)
    requires m in MatchesFrom(t, 0)
    ensures m.start < m.end <= |t| && StartsAt(t, m.start, "#include")
  {
    MatchFound(t, 0, m);
  }

  /** Where the pattern matches nowhere in [i, j), the search skips ahead. */
  lemma {:induction false} MatchesSkip(t: string, i: nat, j: nat)
    requires i <= j <= |t|
    requires forall k :: i <= k < j ==> IncludeAt(t, k).None?
    ensures MatchesFrom(t, i) == MatchesFrom(t, j)
    decreases j - i
  {
    if i < j {
      MatchesSkip(t, i + 1, j);
    }
  }

  /** The offset mix-up: in `}/**/#include a` a stray `}` makes the first
      global segment start at offset 1, so the directive found at offset 4 of
      that segment's text is checked against offset 4 of the document, which
      lies in the comment. The include is dropped, while shifting the offset
      keeps it. */
  lemma {:induction false} IncludeOffsetsShifted()
    ensures var s := "}/**/#include a";
            var globals := GlobalSegments.Globals(s);
            var textSegs := ParseTextSegments(s);
            && ParseIncludesAsWritten(s, globals, textSegs).paths == []
            && ParseIncludes(s, globals, textSegs).paths == ["a"]
  {
    var s := "}/**/#include a";
    ExampleGlobals();
    var globals := [Range(1, 15)];
    var textSegs := ParseTextSegments(s);
    ExampleMatches();
    var m := IncludeMatch(4, 13, 14, "a");
    assert MatchesFrom(SearchedText(s, globals), 0) == [m];
    ExampleKept();
    assert SearchBase(s, globals) == 1;
    AssemblePaths(m, 0);
    AssemblePaths(m, 1);
  }

  lemma {:induction false} AssemblePaths(m: IncludeMatch, base: nat)
    ensures Assemble([], base).paths == []
    ensures Assemble([m], base).paths == [m.path]
  {
    assert PathsOf([m]) == [m.path];
    assert Dedup([], [m.path]) == Dedup([m.path], []);
  }

  /** Checked at offset 4 the example's directive lies in the comment;
      checked at offset 5 it does not. */
  lemma {:induction false} ExampleKept()
    ensures var textSegs := ParseTextSegments("}/**/#include a");
            var m := IncludeMatch(4, 13, 14, "a");
            Kept([m], textSegs, 0) == [] && Kept([m], textSegs, 1) == [m]
  {
    CommentAfterBrace();
    var textSegs := [Segment(Range(1, 5), CommentBlock, [])];
    assert HasAt(textSegs, 4, false) by {
      assert Matches(textSegs[0].range, 4, false);
    }
    assert !HasAt(textSegs, 5, false);
  }

  /** The global segments of the example: the stray `}` at depth 0 moves the
      start of the only segment to offset 1. */
  lemma {:induction false} ExampleGlobals()
    ensures GlobalSegments.Globals("}/**/#include a") == [Range(1, 15)]
  {
    var s := "}/**/#include a";
    var code := GlobalSegments.CodeMask(s);
    CommentAfterBrace();
    assert !Covered(RangesOf(ParseTextSegments(s)), 0);
    assert GlobalSegments.IsRead(s, code, 0);
    ExampleBraces();
    forall p | 1 <= p < 15
      ensures !GlobalSegments.IsRead(s, code, p)
    {
    }
    var st0 := GlobalSegments.GState(0, 0, []);
    assert GlobalSegments.Run(st0, s, code, 0, 1) == GlobalSegments.GState(0, 1, []);
    GlobalSegments.RunSkip(st0, s, code, 0, 1, 15);
  }

  /** The only brace of the example is its first character. */
  lemma ExampleBraces()
    ensures forall p :: 1 <= p < 15 ==> "}/**/#include a"[p] != '{' && "}/**/#include a"[p] != '}'
  {
  }

  /** The searched text of the example. */
  lemma {:induction false} ExampleText()
    ensures SearchedText("}/**/#include a", [Range(1, 15)]) == "/**/#include a"
  {
    var s := "}/**/#include a";
    var t := SearchedText(s, [Range(1, 15)]);
    assert t == s[1..15];
    assert forall q :: 0 <= q < 14 ==> t[q] == s[q + 1];
  }

  /** The one directive found in the example's searched text. */
  lemma {:induction false} ExampleMatches()
    ensures SearchedText("}/**/#include a", [Range(1, 15)]) == "/**/#include a"
    ensures MatchesFrom("/**/#include a", 0) == [IncludeMatch(4, 13, 14, "a")]
  {
    ExampleText();
    var t := "/**/#include a";
    ExamplePrefix();
    ExampleDirective();
    var m := IncludeMatch(4, 13, 14, "a");
    assert MatchesFrom(t, 4) == [m] + MatchesFrom(t, 14);
    assert MatchesFrom(t, 14) == [];
  }

  /** No directive starts in the example's leading comment. */
  lemma {:induction false} ExamplePrefix()
    ensures MatchesFrom("/**/#include a", 0) == MatchesFrom("/**/#include a", 4)
  {
    var t := "/**/#include a";
    forall k | 0 <= k < 4
      ensures IncludeAt(t, k).None?
    {
      NoHashNoMatch(t, k);
    }
    MatchesSkip(t, 0, 4);
  }

  lemma {:induction false} NoHashNoMatch(t: string, k: nat)
    requires k < |t| && t[k] != '#'
    ensures IncludeAt(t, k).None?
  {
    if k + 8 <= |t| {
      assert t[k..k + 8][0] == t[k];
    }
  }

  lemma {:induction false} ExampleDirective()
    ensures IncludeAt("/**/#include a", 4) == Some(IncludeMatch(4, 13, 14, "a"))
  {
    var t := "/**/#include a";
    assert t[4..12] == "#include";
    assert t[12] == ' ' && t[13] == 'a';
    assert SpaceEnd(t, 13) == 13;
    assert SpaceEnd(t, 12) == 13;
    assert PathEnd(t, 14) == 14;
    assert PathEnd(t, 13) == 14;
    assert t[13..14] == "a";
  }

  /** The text segments of `}/**/#include a`: the one block comment. */
  lemma {:induction false} CommentAfterBrace()
    ensures ParseTextSegments("}/**/#include a") == [Segment(Range(1, 5), CommentBlock, [])]
  {
    var s := "}/**/#include a";
    assert s[0] == '}' && s[0..2][0] == '}';
    assert MatchAt(s, 0) == None;
    assert s[1..3] == "/*";
    assert s[3..5] == "*/";
    assert FindFrom(s, "*/", 3) == Some(3);
    assert MatchAt(s, 1) == Some((CommentBlock, 5));
    forall k | 5 <= k < 15
      ensures MatchAt(s, k).None?
    {
      assert s[k] != '/' && s[k] != '"';
      if k + 2 <= 15 { assert s[k..k + 2][0] == s[k]; }
    }
    TokensSkip(s, 5);
    assert Tokens(s, 0) == Tokens(s, 1);
    assert Tokens(s, 1) == [(Range(1, 5), CommentBlock)];
    assert Leaves([(Range(1, 5), CommentBlock)]) == [Segment(Range(1, 5), CommentBlock, [])];
  }
}
