/** `parseCallableUsages`: calls `name(...)` and references `path::name` found
    outside the global segments, i.e. inside function bodies. Each call's
    argument list is split at top-level commas by a scanner that tracks
    bracket nesting and jumps over comments and strings. The usages are pushed
    into a linear builder, so a call nested in another call's arguments
    becomes its child. */
module CallableUsages {
  import opened Wrappers
  import opened Chars
  import opened Segments
  import opened SegmentBuilders
  import opened TextSegments
  import Includes
  import MatchAll
  import CallableDefs

  // ---------------------------------------------------------------------------
  // The pattern
  //   (?:\b(?<path>[\w\\]+)\s*::\s*)?
  //   (?:\b(?<call>[A-Za-z_][\w]*)\b\s*\(|(?<=::\s*)\b(?<reference>[A-Za-z_][\w]*)\b)

  /** One match: where it starts, the optional path, the name, whether the
      call alternative matched, and where the match ends (just after `(` for
      a call, at the end of the name for a reference). */
  datatype UsageMatch = UsageMatch(start: nat, path: Option<Range>, nameStart: nat, nameEnd: nat, isCall: bool, end: nat)

  /** The offsets of a match are ordered and lie inside a text of length n. */
  predicate Fits(m: UsageMatch, n: nat) {
    && m.start <= m.nameStart < m.nameEnd <= m.end <= n
    && (m.path.Some? ==> m.start == m.path.value.start < m.path.value.end <= m.nameStart)
  }

  /** The start of the run of whitespace that ends at p. */
  function SpaceStart(t: string, p: nat): (k: nat)
    requires p <= |t|
    ensures k <= p
    ensures forall j :: k <= j < p ==> IsSpace(t[j])
    ensures k == 0 || !IsSpace(t[k - 1])
    decreases p
  {
    if p == 0 || !IsSpace(t[p - 1]) then p else SpaceStart(t, p - 1)
  }

  /** The lookbehind `(?<=::\s*)`: `::` and then only whitespace precede p. */
  predicate AfterColons(t: string, p: nat)
    requires p <= |t|
  {
    var k := SpaceStart(t, p);
    k >= 2 && t[k - 2] == ':' && t[k - 1] == ':'
  }

  /** The name alternatives at q: a call when the name is followed by
      optional whitespace and `(`, otherwise a reference when the
      lookbehind holds. The name is a maximal run of word characters, since
      `\b` after it forbids stopping inside one. */
  function NameAt(t: string, start: nat, path: Option<Range>, q: nat): (r: Option<UsageMatch>)
    requires start <= q <= |t|
    ensures r.Some? ==> r.value.start == start && r.value.path == path && r.value.nameStart == q
    ensures r.Some? ==> q < r.value.nameEnd <= r.value.end <= |t|
  {
    if q < |t| && IsIdentStart(t[q]) && IsBoundary(t, q) then
      var ne := WordEnd(t, q);
      var sp := SpaceEnd(t, ne);
      if sp < |t| && t[sp] == '(' then Some(UsageMatch(start, path, q, ne, true, sp + 1))
      else if AfterColons(t, q) then Some(UsageMatch(start, path, q, ne, false, ne))
      else None
    else None
  }

  /** The alternative with a path: a maximal run of path characters, `::`
      with optional whitespace around it, then a name. A shorter path cannot
      help, as the character after it would be neither whitespace nor `:`. */
  function PathPart(t: string, p: nat): (r: Option<UsageMatch>)
    requires p <= |t|
    ensures r.Some? ==> Fits(r.value, |t|) && r.value.start == p && r.value.path.Some?
  {
    if IsBoundary(t, p) && p < PathEnd(t, p) then
      var pe := PathEnd(t, p);
      var c := SpaceEnd(t, pe);
      if StartsAt(t, c, "::") then NameAt(t, p, Some(Range(p, pe)), SpaceEnd(t, c + 2)) else None
    else None
  }

  /** The match attempt at offset p: the optional path group is tried first,
      and skipped when the rest cannot match after it. */
  function UsageAt(t: string, p: nat): (r: Option<UsageMatch>)
    requires p <= |t|
    ensures r.Some? ==> Fits(r.value, |t|) && r.value.start == p
  {
    var withPath := PathPart(t, p);
    if withPath.Some? then withPath else NameAt(t, p, None, p)
  }

  /** What the name alternatives require of the text around a match. */
  predicate NameShape(t: string, m: UsageMatch)
    requires Fits(m, |t|)
  {
    && IsIdentStart(t[m.nameStart])
    && m.nameEnd == WordEnd(t, m.nameStart)
    && var sp := SpaceEnd(t, m.nameEnd);
       (m.isCall <==> sp < |t| && t[sp] == '(')
       && (m.isCall ==> m.end == sp + 1)
       && (!m.isCall ==> m.end == m.nameEnd && AfterColons(t, m.nameStart))
  }

  /** What the path group requires: a maximal path, `::` after optional
      whitespace, and the name after optional whitespace. */
  predicate PathShape(t: string, p: nat, m: UsageMatch)
    requires Fits(m, |t|) && m.path.Some? && p <= |t|
  {
    && m.path.value.end == PathEnd(t, p)
    && StartsAt(t, SpaceEnd(t, m.path.value.end), "::")
    && m.nameStart == SpaceEnd(t, SpaceEnd(t, m.path.value.end) + 2)
  }

  lemma {:induction false} NameAtSound(t: string, start: nat, path: Option<Range>, q: nat)
    requires start <= q <= |t| && NameAt(t, start, path, q).Some?
    requires path.Some? ==> start == path.value.start < path.value.end <= q
    ensures Fits(NameAt(t, start, path, q).value, |t|)
    ensures NameShape(t, NameAt(t, start, path, q).value)
  {
  }

  lemma {:induction false} PathPartSound(t: string, p: nat)
    requires p <= |t| && PathPart(t, p).Some?
    ensures PathShape(t, p, PathPart(t, p).value)
    ensures NameShape(t, PathPart(t, p).value)
  {
    var pe := PathEnd(t, p);
    var c := SpaceEnd(t, pe);
    NameAtSound(t, p, Some(Range(p, pe)), SpaceEnd(t, c + 2));
  }

  /** A match is what the pattern describes: a maximal identifier, preceded
      either by nothing or by a maximal path, `::` and whitespace; it is a call
      exactly when whitespace and `(` follow the name, and a reference needs
      `::` and only whitespace before the name. */
  lemma {:induction false} UsageAtSound(t: string, p: nat)
    requires p <= |t| && UsageAt(t, p).Some?
    ensures var m := UsageAt(t, p).value;
            && NameShape(t, m)
            && (m.path.None? ==> m.nameStart == p)
            && (m.path.Some? ==> PathShape(t, p, m))
  {
    if PathPart(t, p).Some? {
      PathPartSound(t, p);
    } else {
      NameAtSound(t, p, None, p);
    }
  }

  /** Every identifier followed by optional whitespace and `(` is matched as a
      call, without a path, where it starts. */
  lemma {:induction false} UsageAtFindsCall(t: string, p: nat)
    requires p < |t| && IsIdentStart(t[p]) && IsBoundary(t, p)
    requires var sp := SpaceEnd(t, WordEnd(t, p)); sp < |t| && t[sp] == '('
    ensures var r := UsageAt(t, p);
            r.Some? && r.value.isCall && r.value.path.None? && r.value.nameEnd == WordEnd(t, p)
  {
    NoPathBeforeCall(t, p);
    assert UsageAt(t, p) == NameAt(t, p, None, p);
  }

  /** The path alternative fails before a call: the path would end where the
      name ends, and `(` rather than `::` follows it. */
  lemma {:induction false} NoPathBeforeCall(t: string, p: nat)
    requires p < |t| && IsIdentStart(t[p])
    requires var sp := SpaceEnd(t, WordEnd(t, p)); sp < |t| && t[sp] == '('
    ensures PathPart(t, p).None?
  {
    var we := WordEnd(t, p);
    PathEndAfterWord(t, p, we);
    NoColonsAtParen(t, SpaceEnd(t, we));
  }

  lemma {:induction false} NoColonsAtParen(t: string, c: nat)
    requires c < |t| && t[c] == '('
    ensures !StartsAt(t, c, "::")
  {
  }

  /** A run of path characters that starts with a run of word characters
      ends with it when no path character follows. */
  lemma {:induction false} PathEndAfterWord(t: string, p: nat, we: nat)
    requires p <= |t| && we == WordEnd(t, p)
    requires we == |t| || !IsPathChar(t[we])
    ensures PathEnd(t, p) == we
    decreases we - p
  {
    if p < we {
      PathEndAfterWord(t, p + 1, we);
    }
  }

  // ---------------------------------------------------------------------------
  // `text.matchAll(regExp)`

  /** Where the match at each offset ends. */
  function UsageEnds(t: string): (ends: seq<Option<nat>>)
    ensures |ends| == |t|
    ensures forall p :: 0 <= p < |t| ==>
              ends[p] == (if UsageAt(t, p).Some? then Some(UsageAt(t, p).value.end) else None)
    ensures MatchAll.Resumable(ends)
  {
    seq(|t|, p requires 0 <= p < |t| => if UsageAt(t, p).Some? then Some(UsageAt(t, p).value.end) else None)
  }

  function MatchNumbered(t: string, a: nat): (m: UsageMatch)
    requires a < |MatchAll.Scan(UsageEnds(t), 0)|
    ensures Fits(m, |t|)
  {
    var ends := UsageEnds(t);
    MatchAll.ScanFound(ends, 0, a);
    UsageAt(t, MatchAll.Scan(ends, 0)[a]).value
  }

  /** The successive matches of the pattern in t. */
  function UsageMatches(t: string): (ms: seq<UsageMatch>)
    ensures |ms| == |MatchAll.Scan(UsageEnds(t), 0)|
    ensures forall a :: 0 <= a < |ms| ==> Fits(ms[a], |t|)
  {
    var n := |MatchAll.Scan(UsageEnds(t), 0)|;
    seq(n, a requires 0 <= a < n => MatchNumbered(t, a))
  }

  /** Each reported match is the pattern's match at its own start. */
  lemma {:induction false} UsageMatchesFound(t: string, a: nat)
    requires a < |UsageMatches(t)|
    ensures var m := UsageMatches(t)[a];
            m.start < |t| && UsageAt(t, m.start) == Some(m)
  {
    MatchAll.ScanFound(UsageEnds(t), 0, a);
  }

  /** Matches are reported left to right without overlapping. */
  lemma {:induction false} UsageMatchesOrdered(t: string, a: nat, b: nat)
    requires a < b < |UsageMatches(t)|
    ensures UsageMatches(t)[a].end <= UsageMatches(t)[b].start
  {
    var ends := UsageEnds(t);
    MatchAll.ScanFound(ends, 0, a);
    MatchAll.ScanFound(ends, 0, b);
    MatchAll.ScanOrdered(ends, 0, a, b);
  }

  /** No match is missed: wherever the pattern matches outside every
      reported match, a match is reported. */
  lemma {:induction false} UsageMatchesComplete(t: string, p: nat) returns (c: nat)
    requires p < |t| && UsageAt(t, p).Some?
    requires forall a :: 0 <= a < |UsageMatches(t)| ==>
               !(UsageMatches(t)[a].start < p < UsageMatches(t)[a].end)
    ensures c < |UsageMatches(t)| && UsageMatches(t)[c] == UsageAt(t, p).value
  {
    var ends := UsageEnds(t);
    var ps := MatchAll.Scan(ends, 0);
    var ms := UsageMatches(t);
    assert MatchAll.Uncovered(ends, ps, p) by {
      forall a | 0 <= a < |ps| && ps[a] < |ends| && ends[ps[a]].Some?
        ensures !(ps[a] < p < ends[ps[a]].value)
      {
        MatchAll.ScanFound(ends, 0, a);
        assert ms[a] == UsageAt(t, ps[a]).value;
      }
    }
    c := MatchAll.ScanComplete(ends, 0, p);
    assert ms[c] == UsageAt(t, ps[c]).value;
  }

  // ---------------------------------------------------------------------------
  // The argument scanner

  /** The text of one inverted range, where it starts in the document, and the
      document's comments and strings. */
  datatype ArgText = ArgText(text: string, base: nat, textSegs: seq<Segment<TextKind>>)

  /** The offsets at which the arguments start, and where the argument list
      closes (the text's length when it never does). */
  datatype ArgScan = ArgScan(starts: seq<nat>, close: nat)

  predicate Increasing(xs: seq<nat>) {
    forall a, b :: 0 <= a < b < |xs| ==> xs[a] < xs[b]
  }

  /** The characters the scanner looks for: commas only at level 1. */
  predicate IsDelim(c: char, level: int) {
    c == '(' || c == ')' || c == ';' || (level == 1 && c == ',')
  }

  /** `getNextSubstring(text, chars, i)`: the first delimiter at or after i. */
  function NextDelim(t: string, i: nat, level: int): (r: Option<nat>)
    ensures r.Some? ==> i <= r.value < |t| && IsDelim(t[r.value], level)
    ensures forall k :: i <= k < |t| && (r.None? || k < r.value) ==> !IsDelim(t[k], level)
    decreases |t| - i
  {
    if i >= |t| then None
    else if IsDelim(t[i], level) then Some(i)
    else NextDelim(t, i + 1, level)
  }

  /** Each jump moves forward. */
  predicate Forward(jumps: seq<Option<nat>>) {
    forall k :: 0 <= k < |jumps| && jumps[k].Some? ==> k < jumps[k].value
  }

  /** For each offset, the answer of `textSegments.getAt` there, as the offset
      in the text where the containing comment or string ends. */
  function JumpTable(x: ArgText): (jumps: seq<Option<nat>>)
    ensures |jumps| == |x.text| && Forward(jumps)
  {
    seq(|x.text|, k requires 0 <= k < |x.text| => JumpAt(x, k))
  }

  function JumpAt(x: ArgText, k: nat): (r: Option<nat>)
    ensures r.Some? ==> k < r.value
  {
    match GetAt(x.textSegs, x.base + k, false)
    case Some(seg) => Some(seg.range.end - x.base)
    case None => None
  }

  /** The `parseParams` loop from offset i at nesting level `level`: a
      delimiter inside a comment or string moves the scan to that segment's
      end; a comma records the start of the next argument; brackets change
      the level; the `)` back to level 0, or a `;`, closes the list. The
      result holds the argument starts recorded from i on. */
  function ScanArgs(t: string, jumps: seq<Option<nat>>, i: nat, level: nat): (r: ArgScan)
    requires |jumps| == |t| && Forward(jumps) && level >= 1
    decreases |t| - i
  {
    match NextDelim(t, i, level)
    case None => ArgScan([], |t|)
    case Some(k) =>
      if jumps[k].Some? then ScanArgs(t, jumps, jumps[k].value, level)
      else if t[k] == ',' then
        var r := ScanArgs(t, jumps, k + 1, level);
        ArgScan([k + 1] + r.starts, r.close)
      else if t[k] == '(' then ScanArgs(t, jumps, k + 1, level + 1)
      else if t[k] == ')' && level > 1 then ScanArgs(t, jumps, k + 1, level - 1)
      else ArgScan([], k)
  }

  /** One step of the scanner at the next delimiter k, by what k holds. */
  lemma {:induction false} ScanArgsStep(t: string, jumps: seq<Option<nat>>, i: nat, level: nat, k: nat)
    requires |jumps| == |t| && Forward(jumps) && level >= 1
    requires NextDelim(t, i, level) == Some(k)
    ensures var r := ScanArgs(t, jumps, i, level);
            if jumps[k].Some? then r == ScanArgs(t, jumps, jumps[k].value, level)
            else if t[k] == ',' then
              r == ArgScan([k + 1] + ScanArgs(t, jumps, k + 1, level).starts, ScanArgs(t, jumps, k + 1, level).close)
            else if t[k] == '(' then r == ScanArgs(t, jumps, k + 1, level + 1)
            else if t[k] == ')' && level > 1 then r == ScanArgs(t, jumps, k + 1, level - 1)
            else r == ArgScan([], k)
  {
  }

  /** Argument starts after i, increasing, and not after `close`. */
  predicate StartsWithin(starts: seq<nat>, i: nat, close: nat) {
    && (forall a :: 0 <= a < |starts| ==> i < starts[a] <= close)
    && Increasing(starts)
  }

  /** The bounds a scan from i keeps, for a text of length n. */
  predicate Bounded(r: ArgScan, i: nat, n: nat) {
    StartsWithin(r.starts, i, r.close) && i <= r.close <= n
  }

  /** The argument starts lie after i, in increasing order, and not after the
      closing offset, which is not after the text's end. */
  lemma {:induction false} ScanArgsBounds(t: string, jumps: seq<Option<nat>>, i: nat, level: nat)
    requires |jumps| == |t| && Forward(jumps) && level >= 1 && i <= |t|
    ensures Bounded(ScanArgs(t, jumps, i, level), i, |t|)
    decreases |t| - i, 1
  {
    match NextDelim(t, i, level)
    case None =>
    case Some(k) => BoundsAtDelim(t, jumps, i, level, k);
  }

  /** The bounds when the next delimiter is at k, by what k holds. */
  lemma {:induction false} BoundsAtDelim(t: string, jumps: seq<Option<nat>>, i: nat, level: nat, k: nat)
    requires |jumps| == |t| && Forward(jumps) && level >= 1 && i <= k < |t|
    requires NextDelim(t, i, level) == Some(k)
    ensures Bounded(ScanArgs(t, jumps, i, level), i, |t|)
    decreases |t| - i, 0
  {
    ScanArgsStep(t, jumps, i, level, k);
    var r := ScanArgs(t, jumps, i, level);
    if jumps[k].Some? {
      var e := jumps[k].value;
      if e <= |t| {
        ScanArgsBounds(t, jumps, e, level);
        BoundedLater(r, i, e, |t|);
      } else {
        assert NextDelim(t, e, level).None?;
      }
    } else if t[k] == ',' {
      ScanArgsBounds(t, jumps, k + 1, level);
      BoundedCons(k + 1, ScanArgs(t, jumps, k + 1, level), r, i, |t|);
    } else if t[k] == '(' || (t[k] == ')' && level > 1) {
      var lv := if t[k] == '(' then level + 1 else level - 1;
      ScanArgsBounds(t, jumps, k + 1, lv);
      BoundedLater(r, i, k + 1, |t|);
    }
  }

  lemma {:induction false} BoundedLater(r: ArgScan, i: nat, j: nat, n: nat)
    requires i <= j && Bounded(r, j, n)
    ensures Bounded(r, i, n)
  {
  }

  lemma {:induction false} BoundedCons(s: nat, rest: ArgScan, r: ArgScan, i: nat, n: nat)
    requires i < s && Bounded(rest, s, n)
    requires r == ArgScan([s] + rest.starts, rest.close)
    ensures Bounded(r, i, n)
  {
    assert forall a :: 0 < a < |r.starts| ==> r.starts[a] == rest.starts[a - 1];
  }

  // The same scan described position by position: the bracket level at each
  // offset counts the brackets before it that lie outside comments and
  // strings. `vis[k]` says whether offset k is outside them.

  /** Offset k of the text lies in no comment or string of the document. */
  ghost predicate Visible(x: ArgText, k: nat) {
    !AnyMatches(x.textSegs, x.base + k, false)
  }

  ghost function Mask(x: ArgText): (vis: seq<bool>)
    ensures |vis| == |x.text|
    ensures forall k :: 0 <= k < |x.text| ==> vis[k] == Visible(x, k)
  {
    seq(|x.text|, k requires 0 <= k < |x.text| => Visible(x, k))
  }

  /** The change of level at offset k. */
  function Delta(t: string, vis: seq<bool>, k: nat): int
    requires k < |t| == |vis|
  {
    if !vis[k] then 0
    else if t[k] == '(' then 1
    else if t[k] == ')' then -1
    else 0
  }

  /** The bracket level before offset k, for a list opened just before `from`. */
  function LevelAt(t: string, vis: seq<bool>, from: nat, k: nat): int
    requires from <= k <= |t| == |vis|
    decreases k - from
  {
    if k == from then 1 else LevelAt(t, vis, from, k - 1) + Delta(t, vis, k - 1)
  }

  /** Offset k closes the list: a visible `;`, or a visible `)` at level 1. */
  predicate Stops(t: string, vis: seq<bool>, from: nat, k: nat)
    requires from <= k < |t| == |vis|
  {
    vis[k] && (t[k] == ';' || (t[k] == ')' && LevelAt(t, vis, from, k) == 1))
  }

  /** Offset k separates two arguments: a visible comma at level 1. */
  predicate Splits(t: string, vis: seq<bool>, from: nat, k: nat)
    requires from <= k < |t| == |vis|
  {
    vis[k] && t[k] == ',' && LevelAt(t, vis, from, k) == 1
  }

  /** The offsets just after the separating commas before k. */
  function SplitsIn(t: string, vis: seq<bool>, from: nat, k: nat): seq<nat>
    requires from <= k <= |t| == |vis|
    decreases k - from
  {
    if k == from then []
    else SplitsIn(t, vis, from, k - 1) + (if Splits(t, vis, from, k - 1) then [k] else [])
  }

  /** The first offset at or after i that closes the list, or the text's
      length. */
  function FirstStop(t: string, vis: seq<bool>, from: nat, i: nat): (c: nat)
    requires from <= i <= |t| == |vis|
    ensures i <= c <= |t|
    ensures c < |t| ==> Stops(t, vis, from, c)
    ensures forall k :: i <= k < c ==> !Stops(t, vis, from, k)
    decreases |t| - i
  {
    if i == |t| then i
    else if Stops(t, vis, from, i) then i
    else FirstStop(t, vis, from, i + 1)
  }

  /** The jumps agree with the mask: a jump passes over hidden offsets only,
      and where there is no jump the offset is visible. */
  predicate Consistent(t: string, vis: seq<bool>, jumps: seq<Option<nat>>)
    requires |t| == |vis| == |jumps|
  {
    forall k :: 0 <= k < |t| ==>
      if jumps[k].Some? then forall j :: k <= j < jumps[k].value && j < |t| ==> !vis[j]
      else vis[k]
  }

  /** For comments and strings sorted as `parseTextSegments` leaves them,
      `getAt` finds the containing segment whenever there is one, so the jump
      table agrees with the mask. */
  lemma {:induction false} JumpsConsistent(x: ArgText)
    requires Sorted(x.textSegs)
    ensures Consistent(x.text, Mask(x), JumpTable(x))
  {
    var vis := Mask(x);
    var jumps := JumpTable(x);
    forall k | 0 <= k < |x.text|
      ensures if jumps[k].Some? then forall j :: k <= j < jumps[k].value && j < |x.text| ==> !vis[j]
              else vis[k]
    {
      var g := GetAt(x.textSegs, x.base + k, false);
      if g.Some? {
        forall j | k <= j < jumps[k].value && j < |x.text|
          ensures !vis[j]
        {
          assert Matches(g.value.range, x.base + j, false);
        }
      }
    }
  }

  /** Offsets that are not visible delimiters at the current level change
      nothing: the level stays, no argument starts and the list does not
      close. */
  lemma {:induction false} QuietRun(t: string, vis: seq<bool>, from: nat, i: nat, j: nat)
    requires from <= i <= j <= |t| == |vis|
    requires forall k :: i <= k < j ==> !(vis[k] && IsDelim(t[k], LevelAt(t, vis, from, i)))
    ensures LevelAt(t, vis, from, j) == LevelAt(t, vis, from, i)
    ensures SplitsIn(t, vis, from, j) == SplitsIn(t, vis, from, i)
    ensures forall k :: i <= k < j ==> !Stops(t, vis, from, k)
    ensures FirstStop(t, vis, from, i) == FirstStop(t, vis, from, j)
    decreases j - i
  {
    if i < j {
      QuietRun(t, vis, from, i, j - 1);
      assert !Splits(t, vis, from, j - 1);
      FirstStopSkips(t, vis, from, i, j);
    }
  }

  lemma {:induction false} FirstStopSkips(t: string, vis: seq<bool>, from: nat, i: nat, j: nat)
    requires from <= i <= j <= |t| == |vis|
    requires forall k :: i <= k < j ==> !Stops(t, vis, from, k)
    ensures FirstStop(t, vis, from, i) == FirstStop(t, vis, from, j)
    decreases j - i
  {
    if i < j {
      FirstStopSkips(t, vis, from, i + 1, j);
    }
  }

  /** The scanner from offset i agrees with the description. */
  predicate ScanAgrees(t: string, vis: seq<bool>, jumps: seq<Option<nat>>, from: nat, i: nat, level: nat)
    requires from <= i <= |t| == |vis| == |jumps| && Forward(jumps) && level >= 1
  {
    var c := FirstStop(t, vis, from, i);
    var r := ScanArgs(t, jumps, i, level);
    r.close == c && SplitsIn(t, vis, from, i) + r.starts == SplitsIn(t, vis, from, c)
  }

  /** The scanner computes the position-by-position description: started at
      an offset i that nothing before has closed, at the level that
      description gives at i, it closes where the description closes and
      records exactly the separating commas between i and there. Jumping to
      the end of a comment or string is thereby the same as ignoring the
      delimiters inside it, and a comma separates arguments exactly at
      level 1. */
  lemma {:induction false} ArgsExact(t: string, vis: seq<bool>, jumps: seq<Option<nat>>, from: nat, i: nat, level: nat)
    requires |t| == |vis| == |jumps| && Forward(jumps) && Consistent(t, vis, jumps)
    requires from <= i <= |t|
    requires forall k :: from <= k < i ==> !Stops(t, vis, from, k)
    requires level >= 1 && level == LevelAt(t, vis, from, i)
    ensures ScanAgrees(t, vis, jumps, from, i, level)
    decreases |t| - i, 1
  {
    match NextDelim(t, i, level)
    case None =>
      QuietRun(t, vis, from, i, |t|);
    case Some(k) =>
      QuietRun(t, vis, from, i, k);
      if jumps[k].Some? {
        ArgsJump(t, vis, jumps, from, i, level, k);
      } else {
        ArgsAtDelim(t, vis, jumps, from, i, level, k);
      }
  }

  /** A delimiter inside a comment or string: the scan resumes at the end of
      that segment, and nothing in between counts. */
  lemma {:induction false} ArgsJump(t: string, vis: seq<bool>, jumps: seq<Option<nat>>, from: nat, i: nat, level: nat, k: nat)
    requires |t| == |vis| == |jumps| && Forward(jumps) && Consistent(t, vis, jumps)
    requires from <= i <= k < |t|
    requires forall j :: from <= j < k ==> !Stops(t, vis, from, j)
    requires level >= 1 && level == LevelAt(t, vis, from, k)
    requires NextDelim(t, i, level) == Some(k) && jumps[k].Some?
    requires FirstStop(t, vis, from, i) == FirstStop(t, vis, from, k)
    requires SplitsIn(t, vis, from, i) == SplitsIn(t, vis, from, k)
    ensures ScanAgrees(t, vis, jumps, from, i, level)
    decreases |t| - i, 0
  {
    var e := jumps[k].value;
    var e' := if e < |t| then e else |t|;
    assert forall j :: k <= j < e' ==> !vis[j];
    QuietRun(t, vis, from, k, e');
    ScanArgsStep(t, jumps, i, level, k);
    if e < |t| {
      ArgsExact(t, vis, jumps, from, e, level);
    } else {
      assert NextDelim(t, e, level).None?;
    }
  }

  /** After a separating comma, the description's argument starts gain the
      offset after it, as the scanner's do. */
  lemma {:induction false} CommaAgrees(t: string, vis: seq<bool>, jumps: seq<Option<nat>>, from: nat, i: nat, level: nat, k: nat)
    requires |t| == |vis| == |jumps| && Forward(jumps)
    requires from <= i <= k < |t| && level >= 1
    requires var r := ScanArgs(t, jumps, k + 1, level);
             ScanArgs(t, jumps, i, level) == ArgScan([k + 1] + r.starts, r.close)
    requires SplitsIn(t, vis, from, i) + [k + 1] == SplitsIn(t, vis, from, k + 1)
    requires FirstStop(t, vis, from, i) == FirstStop(t, vis, from, k + 1)
    requires ScanAgrees(t, vis, jumps, from, k + 1, level)
    ensures ScanAgrees(t, vis, jumps, from, i, level)
  {
    var r := ScanArgs(t, jumps, k + 1, level);
    assert SplitsIn(t, vis, from, i) + ([k + 1] + r.starts) == (SplitsIn(t, vis, from, i) + [k + 1]) + r.starts;
  }

  /** A visible delimiter: a comma at level 1 records an argument, a bracket
      changes the level, and a `;` or the last `)` closes the list. */
  lemma {:induction false} ArgsAtDelim(t: string, vis: seq<bool>, jumps: seq<Option<nat>>, from: nat, i: nat, level: nat, k: nat)
    requires |t| == |vis| == |jumps| && Forward(jumps) && Consistent(t, vis, jumps)
    requires from <= i <= k < |t|
    requires forall j :: from <= j < k ==> !Stops(t, vis, from, j)
    requires level >= 1 && level == LevelAt(t, vis, from, k)
    requires NextDelim(t, i, level) == Some(k) && jumps[k].None?
    requires FirstStop(t, vis, from, i) == FirstStop(t, vis, from, k)
    requires SplitsIn(t, vis, from, i) == SplitsIn(t, vis, from, k)
    ensures ScanAgrees(t, vis, jumps, from, i, level)
    decreases |t| - i, 0
  {
    ScanArgsStep(t, jumps, i, level, k);
    assert vis[k];
    var c := t[k];
    assert LevelAt(t, vis, from, k + 1) == level + Delta(t, vis, k);
    if c == ',' {
      assert Splits(t, vis, from, k) && !Stops(t, vis, from, k);
      assert SplitsIn(t, vis, from, k + 1) == SplitsIn(t, vis, from, k) + [k + 1];
      assert FirstStop(t, vis, from, k) == FirstStop(t, vis, from, k + 1);
      ArgsExact(t, vis, jumps, from, k + 1, level);
      CommaAgrees(t, vis, jumps, from, i, level, k);
    } else if c == '(' || (c == ')' && level > 1) {
      assert !Splits(t, vis, from, k) && !Stops(t, vis, from, k);
      assert FirstStop(t, vis, from, k) == FirstStop(t, vis, from, k + 1);
      assert SplitsIn(t, vis, from, k + 1) == SplitsIn(t, vis, from, k);
      ArgsExact(t, vis, jumps, from, k + 1, if c == '(' then level + 1 else level - 1);
    } else {
      assert Stops(t, vis, from, k);
      assert FirstStop(t, vis, from, k) == k;
      assert SplitsIn(t, vis, from, i) + [] == SplitsIn(t, vis, from, k);
    }
  }

  /** The argument starts the description records before k are exactly the
      offsets just after the separating commas before k. */
  lemma {:induction false} SplitsInExact(t: string, vis: seq<bool>, from: nat, k: nat, c: nat)
    requires from <= k <= |t| == |vis|
    ensures c + 1 in SplitsIn(t, vis, from, k) <==> from <= c < k && Splits(t, vis, from, c)
    decreases k - from
  {
    if k > from {
      SplitsInExact(t, vis, from, k - 1, c);
    }
  }

  /** Every offset the description records follows a separating comma. */
  lemma {:induction false} SplitsInAfterComma(t: string, vis: seq<bool>, from: nat, k: nat, a: nat)
    requires from <= k <= |t| == |vis| && a < |SplitsIn(t, vis, from, k)|
    ensures var q := SplitsIn(t, vis, from, k)[a]; from < q <= k
    ensures var q := SplitsIn(t, vis, from, k)[a]; Splits(t, vis, from, q - 1)
    decreases k - from
  {
    var prev := SplitsIn(t, vis, from, k - 1);
    if a < |prev| {
      SplitsInAfterComma(t, vis, from, k - 1, a);
    }
  }

  /** `parseParams` for a call whose `(` ends just before `open`, on a text
      whose comments and strings are sorted: the list closes at the first
      visible `;` or visible `)` at level 1, and the recorded argument starts
      are exactly the offsets just after the visible level-1 commas before
      that point. */
  lemma {:induction false} CallArgsExact(x: ArgText, open: nat)
    requires Sorted(x.textSegs) && open <= |x.text|
    ensures var r := ScanArgs(x.text, JumpTable(x), open, 1);
            r.close == FirstStop(x.text, Mask(x), open, open)
    ensures var r := ScanArgs(x.text, JumpTable(x), open, 1);
            forall c: nat :: c + 1 in r.starts <==> open <= c < r.close && Splits(x.text, Mask(x), open, c)
  {
    var t, vis, jumps := x.text, Mask(x), JumpTable(x);
    JumpsConsistent(x);
    ArgsExact(t, vis, jumps, open, open, 1);
    ScanArgsBounds(t, jumps, open, 1);
    var r := ScanArgs(t, jumps, open, 1);
    assert [] + r.starts == r.starts;
    forall c: nat ensures c + 1 in r.starts <==> open <= c < r.close && Splits(t, vis, open, c) {
      SplitsInExact(t, vis, open, r.close, c);
    }
  }

  // ---------------------------------------------------------------------------
  // Arguments

  /** A parameter of a call: the range of its text without the surrounding
      whitespace, absent when there is nothing else. */
  datatype Param = Param(contentRange: Option<Range>)

  /** The argument starts of a call: the first one at the offset after `(`,
      each later one after a separating comma, all in increasing order and
      not after the closing offset. */
  predicate LaidOut(starts: seq<nat>, close: nat) {
    && |starts| > 0
    && (forall a :: 0 <= a < |starts| ==> starts[a] <= close)
    && (forall a :: 0 <= a < |starts| - 1 ==> starts[a] < starts[a + 1])
  }

  /** Where argument j ends: at the comma before the next argument, or at the
      closing offset for the last one. */
  function ArgEnd(starts: seq<nat>, close: nat, j: nat): (e: nat)
    requires LaidOut(starts, close) && j < |starts|
    ensures starts[j] <= e <= close
  {
    if j + 1 < |starts| then
      assert starts[j] < starts[j + 1];
      starts[j + 1] - 1
    else close
  }

  /** `getContentRange`: `^\s*(.*?)\s*$` with the `s` flag always matches;
      its group is the slice between the leading and the trailing whitespace,
      and a group that is empty gives no range. */
  function ContentRange(t: string, base: nat, a: nat, b: nat): (r: Option<Range>)
    requires a <= b <= |t|
  {
    var piece := t[a..b];
    var lead := LeadingSpaces(piece);
    if lead == |piece| then None
    else Some(Range(base + a + lead, base + b - TrailingSpaces(piece)))
  }

  /** The content range of an argument holds exactly its trimmed text, and is
      absent exactly when the argument is blank. */
  lemma {:induction false} ContentIsTrim(s: string, base: nat, t: string, a: nat, b: nat)
    requires base + |t| <= |s| && s[base..base + |t|] == t
    requires a <= b <= |t|
    ensures var r := ContentRange(t, base, a, b);
            && (r.None? <==> Trim(t[a..b]) == "")
            && (r.Some? ==> base + a <= r.value.start < r.value.end <= base + b
                            && s[r.value.start..r.value.end] == Trim(t[a..b]))
  {
    var piece := t[a..b];
    var lead := LeadingSpaces(piece);
    if lead < |piece| {
      TrimmedInDocument(s, base, t, a, b);
    }
  }

  lemma {:induction false} TrimmedInDocument(s: string, base: nat, t: string, a: nat, b: nat)
    requires base + |t| <= |s| && s[base..base + |t|] == t
    requires a <= b <= |t| && LeadingSpaces(t[a..b]) < b - a
    ensures LeadingSpaces(t[a..b]) < b - a - TrailingSpaces(t[a..b])
    ensures s[base + a + LeadingSpaces(t[a..b])..base + b - TrailingSpaces(t[a..b])] == Trim(t[a..b])
  {
    var piece := t[a..b];
    TrimBounds(piece);
    TrimmedShift(s, base, t, a, b, piece, LeadingSpaces(piece), |piece| - TrailingSpaces(piece));
  }

  lemma {:induction false} TrimmedShift(s: string, base: nat, t: string, a: nat, b: nat, piece: string, lo: nat, hi: nat)
    requires base + |t| <= |s| && s[base..base + |t|] == t
    requires a <= b <= |t| && piece == t[a..b] && lo <= hi <= |piece|
    ensures s[base + a + lo..base + a + hi] == piece[lo..hi]
  {
    SliceShift(t, a, piece, lo, hi);
    SliceShift(s, base, t, a + lo, a + hi);
  }

  /** A piece that is not blank keeps a non-empty middle between its leading
      and trailing whitespace, and trimming gives that middle. */
  lemma {:induction false} TrimBounds(piece: string)
    requires LeadingSpaces(piece) < |piece|
    ensures LeadingSpaces(piece) < |piece| - TrailingSpaces(piece)
    ensures Trim(piece) == piece[LeadingSpaces(piece)..|piece| - TrailingSpaces(piece)]
  {
    assert !IsSpace(piece[LeadingSpaces(piece)]);
  }

  /** A slice of a text found at offset `base` of s is the same slice of s,
      shifted by `base`. */
  lemma {:induction false} SliceShift(s: string, base: nat, t: string, i: nat, j: nat)
    requires base + |t| <= |s| && s[base..base + |t|] == t
    requires i <= j <= |t|
    ensures s[base + i..base + j] == t[i..j]
  {
    forall q | 0 <= q < j - i
      ensures s[base + i..base + j][q] == t[i..j][q]
    {
      assert s[base + i + q] == s[base..base + |t|][i + q];
    }
  }

  /** The entries `addParam` sets, one per argument. */
  function ParamEntries(t: string, base: nat, starts: seq<nat>, close: nat): (es: seq<(Range, Param)>)
    requires LaidOut(starts, close) && close <= |t|
    ensures |es| == |starts|
  {
    seq(|starts|, j requires 0 <= j < |starts| =>
      var e := ArgEnd(starts, close, j);
      (Range(base + starts[j], base + e), Param(ContentRange(t, base, starts[j], e))))
  }

  /** The argument ranges tile the list from the offset after `(` to the
      closing offset: each is well formed, the first starts at `open`, each
      next one starts one past the end of the one before (that is, after the
      separating comma), and the last ends at `close`. */
  lemma {:induction false} ParamsTile(t: string, base: nat, starts: seq<nat>, close: nat)
    requires LaidOut(starts, close) && close <= |t|
    ensures var es := ParamEntries(t, base, starts, close);
            && es[0].0.start == base + starts[0]
            && es[|es| - 1].0.end == base + close
            && (forall j :: 0 <= j < |es| ==> ValidRange(es[j].0))
            && (forall j :: 0 <= j < |es| - 1 ==> es[j + 1].0.start == es[j].0.end + 1)
  {
  }

  // ---------------------------------------------------------------------------
  // Usages

  /** A call carries its argument list, from `(` to the closing offset, and
      its parameters; a reference carries neither. */
  datatype UsageKind = Call(paramList: Range, params: seq<Segment<Param>>) | Reference

  datatype CallableUsage = CallableUsage(name: CallableDefs.Ident, path: Option<CallableDefs.Ident>, kind: UsageKind)

  /** `document.positionAt`, which clamps an offset past the end to the end. */
  function PositionAt(s: string, offset: nat): (p: nat)
    ensures p <= |s| && (offset <= |s| ==> p == offset)
  {
    if offset <= |s| then offset else |s|
  }

  /** The argument starts and the scan of a call whose `(` ends at `open`. */
  function CallScan(x: ArgText, open: nat): ArgScan {
    ScanArgs(x.text, JumpTable(x), open, 1)
  }

  lemma {:induction false} CallScanLaidOut(x: ArgText, open: nat)
    requires open <= |x.text|
    ensures var r := CallScan(x, open);
            LaidOut([open] + r.starts, r.close) && open <= r.close <= |x.text|
  {
    var r := CallScan(x, open);
    ScanArgsBounds(x.text, JumpTable(x), open, 1);
    var all := [open] + r.starts;
    assert forall a :: 0 < a < |all| ==> all[a] == r.starts[a - 1];
    assert forall a :: 0 < a < |all| - 1 ==> all[a] < all[a + 1];
  }

  /** The entry pushed for one match of the text x of an inverted range of s:
      the match's range with the name, path and (for a call) the argument
      list and parameters, all shifted to document offsets. A call's range
      runs on to just after its closing offset. */
  function UsageOf(s: string, x: ArgText, m: UsageMatch): (e: (Range, CallableUsage))
    requires Fits(m, |x.text|) && x.base + |x.text| <= |s|
  {
    var base, t := x.base, x.text;
    var name := CallableDefs.Ident(t[m.nameStart..m.nameEnd], Range(base + m.nameStart, base + m.nameEnd));
    var path := match m.path
      case None => None
      case Some(pr) => Some(CallableDefs.Ident(t[pr.start..pr.end], Range(base + pr.start, base + pr.end)));
    if !m.isCall then (Range(base + m.start, base + m.end), CallableUsage(name, path, Reference))
    else
      var r := CallScan(x, m.end);
      CallScanLaidOut(x, m.end);
      var starts := [m.end] + r.starts;
      var params := SetAll(NewBuilder(), ParamEntries(t, base, starts, r.close)).roots;
      (Range(base + m.start, PositionAt(s, base + r.close + 1)),
       CallableUsage(name, path, Call(Range(base + m.end - 1, base + r.close), params)))
  }

  /** Whether a match is kept: its name does not start inside a comment or
      string. */
  predicate KeptMatch(m: UsageMatch, x: ArgText) {
    !HasAt(x.textSegs, x.base + m.nameStart, false)
  }

  /** The matches kept, in order. */
  function KeptMatches(ms: seq<UsageMatch>, x: ArgText): (ks: seq<UsageMatch>)
    ensures |ks| <= |ms|
    decreases |ms|
  {
    if |ms| == 0 then []
    else
      var rest := KeptMatches(ms[1..], x);
      if KeptMatch(ms[0], x) then [ms[0]] + rest else rest
  }

  /** Filtering keeps exactly the matches whose name is not in a comment or
      string. */
  lemma {:induction false} KeptMatchesMember(ms: seq<UsageMatch>, x: ArgText, m: UsageMatch)
    ensures m in KeptMatches(ms, x) <==> m in ms && KeptMatch(m, x)
    decreases |ms|
  {
    if |ms| > 0 {
      KeptMatchesMember(ms[1..], x, m);
      assert ms == [ms[0]] + ms[1..];
    }
  }

  /** Matches follow one another without overlapping and fit the text. */
  predicate InOrder(ms: seq<UsageMatch>, n: nat) {
    && (forall a :: 0 <= a < |ms| ==> Fits(ms[a], n))
    && (forall a, b :: 0 <= a < b < |ms| ==> ms[a].end <= ms[b].start)
  }

  lemma {:induction false} KeptMatchesInOrder(ms: seq<UsageMatch>, x: ArgText, n: nat)
    requires InOrder(ms, n)
    ensures InOrder(KeptMatches(ms, x), n)
    decreases |ms|
  {
    if |ms| > 0 {
      var rest := KeptMatches(ms[1..], x);
      KeptMatchesInOrder(ms[1..], x, n);
      if KeptMatch(ms[0], x) {
        forall b | 0 <= b < |rest| ensures ms[0].end <= rest[b].start {
          KeptMatchesMember(ms[1..], x, rest[b]);
          var j :| 0 <= j < |ms[1..]| && ms[1..][j] == rest[b];
          assert ms[j + 1] == rest[b];
        }
        var ks := [ms[0]] + rest;
        assert forall a :: 0 < a < |ks| ==> ks[a] == rest[a - 1];
      }
    }
  }

  lemma {:induction false} UsageMatchesInOrder(t: string)
    ensures InOrder(UsageMatches(t), |t|)
  {
    var ms := UsageMatches(t);
    forall a, b | 0 <= a < b < |ms| ensures ms[a].end <= ms[b].start {
      UsageMatchesOrdered(t, a, b);
    }
  }

  /** The text searched in one inverted range, with its document offset. */
  function GapText(s: string, textSegs: seq<Segment<TextKind>>, g: Range): (x: ArgText)
    ensures x.base + |x.text| <= |s|
  {
    ArgText(Includes.GetText(s, g), Includes.RangeBase(s, g), textSegs)
  }

  /** The entries of one inverted range, in the order they are pushed. */
  function GapUsages(s: string, textSegs: seq<Segment<TextKind>>, g: Range): (es: seq<(Range, CallableUsage)>)
  {
    var x := GapText(s, textSegs, g);
    var ks := KeptMatches(UsageMatches(x.text), x);
    UsageMatchesInOrder(x.text);
    KeptMatchesInOrder(UsageMatches(x.text), x, |x.text|);
    seq(|ks|, a requires 0 <= a < |ks| => UsageOf(s, x, ks[a]))
  }

  /** The lists one after another. */
  function Concat<T>(parts: seq<seq<T>>): (xs: seq<T>)
    decreases |parts|
  {
    if |parts| == 0 then [] else parts[0] + Concat(parts[1..])
  }

  /** The entries of all inverted ranges, one range after another. */
  function AllUsages(s: string, textSegs: seq<Segment<TextKind>>, gaps: seq<Range>): (es: seq<(Range, CallableUsage)>) {
    Concat(seq(|gaps|, i requires 0 <= i < |gaps| => GapUsages(s, textSegs, gaps[i])))
  }

  /** The linear builder once every entry has been pushed. */
  function PushedUsages(s: string, globals: seq<Range>, textSegs: seq<Segment<TextKind>>): LinearBuilder<CallableUsage> {
    PushAll(NewLinear(), AllUsages(s, textSegs, Inverted(globals, |s|)))
  }

  /** `parseCallableUsages`: every entry pushed into a linear builder, whose
      tree is returned by `toTree` with the source's `finalize`. */
  function ParseCallableUsages(s: string, globals: seq<Range>, textSegs: seq<Segment<TextKind>>): seq<Segment<CallableUsage>> {
    ToTreeAsWritten(PushedUsages(s, globals, textSegs))
  }

  /** `parseCallableUsages` with the corrected `finalize`. */
  function ParseCallableUsagesIntended(s: string, globals: seq<Range>, textSegs: seq<Segment<TextKind>>): seq<Segment<CallableUsage>> {
    ToTree(PushedUsages(s, globals, textSegs))
  }

  // ---------------------------------------------------------------------------
  // What the usages satisfy

  /** For a range inside the document, its text is the slice it names and
      starts at its start. */
  lemma {:induction false} GapTextAt(s: string, textSegs: seq<Segment<TextKind>>, g: Range)
    requires g.start <= g.end <= |s|
    ensures var x := GapText(s, textSegs, g);
            x.base == g.start && |x.text| == g.end - g.start && x.text == s[g.start..g.end]
  {
  }

  /** Each entry of an inverted range is a well-formed range starting inside
      that range, and the entries start in order. */
  lemma {:induction false} GapUsagesBounds(s: string, textSegs: seq<Segment<TextKind>>, g: Range)
    requires g.start <= g.end <= |s|
    ensures var es := GapUsages(s, textSegs, g);
            && (forall a :: 0 <= a < |es| ==> ValidRange(es[a].0) && g.start <= es[a].0.start < g.end)
            && StartsNonDecreasing(es)
  {
    var x := GapText(s, textSegs, g);
    GapTextAt(s, textSegs, g);
    var ks := KeptMatches(UsageMatches(x.text), x);
    UsageMatchesInOrder(x.text);
    KeptMatchesInOrder(UsageMatches(x.text), x, |x.text|);
    var es := GapUsages(s, textSegs, g);
    forall a | 0 <= a < |es| ensures ValidRange(es[a].0) && g.start <= es[a].0.start < g.end {
      UsageOfRange(s, x, ks[a]);
    }
    forall a, b | 0 <= a < b < |es| ensures es[a].0.start <= es[b].0.start {
      UsageOfRange(s, x, ks[a]);
      UsageOfRange(s, x, ks[b]);
    }
  }

  /** The entry of a match starts where the match starts and does not end
      before it. */
  lemma {:induction false} UsageOfRange(s: string, x: ArgText, m: UsageMatch)
    requires Fits(m, |x.text|) && x.base + |x.text| <= |s|
    ensures var e := UsageOf(s, x, m);
            e.0.start == x.base + m.start && ValidRange(e.0)
  {
    if m.isCall {
      CallScanLaidOut(x, m.end);
    }
  }

  /** Entries of one range each: well formed, in order of their starts, each
      starting inside its range. */
  predicate PartsInRanges<T>(parts: seq<seq<(Range, T)>>, gaps: seq<Range>)
    requires |parts| == |gaps|
  {
    forall i :: 0 <= i < |parts| ==>
      && StartsNonDecreasing(parts[i])
      && forall a :: 0 <= a < |parts[i]| ==> ValidRange(parts[i][a].0) && gaps[i].start <= parts[i][a].0.start < gaps[i].end
  }

  /** Concatenating the entries of sorted ranges keeps their starts in order. */
  lemma {:induction false} ConcatInOrder<T>(parts: seq<seq<(Range, T)>>, gaps: seq<Range>)
    requires |parts| == |gaps| && SortedRanges(gaps) && PartsInRanges(parts, gaps)
    ensures var es := Concat(parts);
            && (forall a :: 0 <= a < |es| ==> ValidRange(es[a].0) && gaps[0].start <= es[a].0.start)
            && StartsNonDecreasing(es)
    decreases |parts|
  {
    if |parts| > 0 {
      var head, rest := parts[0], Concat(parts[1..]);
      ConcatInOrder(parts[1..], gaps[1..]);
      var es := head + rest;
      assert forall a :: 0 <= a < |rest| ==> gaps[0].end <= rest[a].0.start by {
        if |gaps| > 1 {
          assert gaps[0].end <= gaps[1].start;
        }
      }
      forall a, b | 0 <= a < b < |es| ensures es[a].0.start <= es[b].0.start {
        if b < |head| {
        } else if a >= |head| {
          assert es[a] == rest[a - |head|] && es[b] == rest[b - |head|];
        } else {
          assert es[b] == rest[b - |head|];
        }
      }
      forall a | 0 <= a < |es| ensures ValidRange(es[a].0) && gaps[0].start <= es[a].0.start {
        if a >= |head| {
          assert es[a] == rest[a - |head|];
        }
      }
    }
  }

  /** Each element of the concatenation is an element of one of the lists. */
  lemma {:induction false} ConcatFrom<T>(parts: seq<seq<T>>, a: nat) returns (i: nat, j: nat)
    requires a < |Concat(parts)|
    ensures i < |parts| && j < |parts[i]| && Concat(parts)[a] == parts[i][j]
    decreases |parts|
  {
    if a < |parts[0]| {
      i, j := 0, a;
    } else {
      var i', j' := ConcatFrom(parts[1..], a - |parts[0]|);
      i, j := i' + 1, j';
    }
  }

  /** The entries of all inverted ranges are well formed and start in order. */
  lemma {:induction false} AllUsagesBounds(s: string, textSegs: seq<Segment<TextKind>>, gaps: seq<Range>)
    requires SortedRanges(gaps) && WithinEof(gaps, |s|)
    ensures var es := AllUsages(s, textSegs, gaps);
            && (forall a :: 0 <= a < |es| ==> ValidRange(es[a].0))
            && StartsNonDecreasing(es)
  {
    var parts := seq(|gaps|, i requires 0 <= i < |gaps| => GapUsages(s, textSegs, gaps[i]));
    forall i | 0 <= i < |gaps|
      ensures && StartsNonDecreasing(parts[i])
              && forall a :: 0 <= a < |parts[i]| ==> ValidRange(parts[i][a].0) && gaps[i].start <= parts[i][a].0.start < gaps[i].end
    {
      GapUsagesBounds(s, textSegs, gaps[i]);
    }
    ConcatInOrder(parts, gaps);
  }

  /** With the corrected `finalize` the usage tree is properly nested: every
      call's children (the usages in its arguments) lie inside it. */
  lemma {:induction false} UsagesNested(s: string, globals: seq<Range>, textSegs: seq<Segment<TextKind>>)
    requires SortedRanges(globals) && WithinEof(globals, |s|)
    ensures AllNested(ParseCallableUsagesIntended(s, globals, textSegs))
  {
    var gaps := Inverted(globals, |s|);
    InvertedSorted(globals, |s|);
    AllUsagesBounds(s, textSegs, gaps);
    LinearTreeNested(AllUsages(s, textSegs, gaps));
  }

  /** Every entry comes from a kept match in one of the inverted ranges. */
  lemma {:induction false} AllUsagesFrom(s: string, textSegs: seq<Segment<TextKind>>, gaps: seq<Range>, a: nat)
      returns (gi: nat, m: UsageMatch)
    requires a < |AllUsages(s, textSegs, gaps)|
    ensures gi < |gaps|
    ensures var x := GapText(s, textSegs, gaps[gi]);
            && m in KeptMatches(UsageMatches(x.text), x)
            && Fits(m, |x.text|)
            && AllUsages(s, textSegs, gaps)[a] == UsageOf(s, x, m)
  {
    var parts := seq(|gaps|, i requires 0 <= i < |gaps| => GapUsages(s, textSegs, gaps[i]));
    var j;
    gi, j := ConcatFrom(parts, a);
    m := GapUsageFrom(s, textSegs, gaps[gi], j);
  }

  lemma {:induction false} GapUsageFrom(s: string, textSegs: seq<Segment<TextKind>>, g: Range, j: nat) returns (m: UsageMatch)
    requires j < |GapUsages(s, textSegs, g)|
    ensures var x := GapText(s, textSegs, g);
            && m in KeptMatches(UsageMatches(x.text), x)
            && Fits(m, |x.text|)
            && GapUsages(s, textSegs, g)[j] == UsageOf(s, x, m)
  {
    var x := GapText(s, textSegs, g);
    var ks := KeptMatches(UsageMatches(x.text), x);
    UsageMatchesInOrder(x.text);
    KeptMatchesInOrder(UsageMatches(x.text), x, |x.text|);
    m := ks[j];
  }

  /** A kept match is the pattern's match at its own start, and its name
      does not start in a comment or string. */
  lemma {:induction false} KeptIsMatch(t: string, x: ArgText, m: UsageMatch)
    requires m in KeptMatches(UsageMatches(t), x)
    ensures m.start < |t| && UsageAt(t, m.start) == Some(m) && KeptMatch(m, x)
  {
    var ms := UsageMatches(t);
    KeptMatchesMember(ms, x, m);
    var c :| 0 <= c < |ms| && ms[c] == m;
    UsageMatchesFound(t, c);
  }

  /** The name of a match is an identifier: a word-character run starting
      with a letter or `_`. */
  lemma {:induction false} MatchNameIsIdentifier(t: string, m: UsageMatch)
    requires m.start < |t| && UsageAt(t, m.start) == Some(m)
    ensures m.nameStart < m.nameEnd <= |t| && CallableDefs.IsIdentifier(t[m.nameStart..m.nameEnd])
  {
    UsageAtSound(t, m.start);
    ShapeIsIdentifier(t, m);
  }

  /** A kept match names an identifier outside the comments and strings. */
  lemma {:induction false} KeptNameIsIdentifier(t: string, x: ArgText, m: UsageMatch)
    requires m in KeptMatches(UsageMatches(t), x)
    ensures m.nameStart < m.nameEnd <= |t| && CallableDefs.IsIdentifier(t[m.nameStart..m.nameEnd])
    ensures KeptMatch(m, x)
  {
    KeptIsMatch(t, x, m);
    MatchNameIsIdentifier(t, m);
  }

  lemma {:induction false} ShapeIsIdentifier(t: string, m: UsageMatch)
    requires Fits(m, |t|) && NameShape(t, m)
    ensures CallableDefs.IsIdentifier(t[m.nameStart..m.nameEnd])
  {
    var n := t[m.nameStart..m.nameEnd];
    assert forall k :: 0 <= k < |n| ==> n[k] == t[m.nameStart + k];
  }

  /** Every usage names an identifier that is the document's text at the
      name's range, starting outside every global segment (inside a function
      body or between definitions) and outside every comment and string. */
  lemma {:induction false} UsageNamesOutside(s: string, globals: seq<Range>, textSegs: seq<Segment<TextKind>>, a: nat)
    requires SortedRanges(globals) && WithinEof(globals, |s|) && Sorted(textSegs)
    requires a < |AllUsages(s, textSegs, Inverted(globals, |s|))|
    ensures var n := AllUsages(s, textSegs, Inverted(globals, |s|))[a].1.name;
            && n.range.start < n.range.end <= |s|
            && n.name == s[n.range.start..n.range.end]
            && CallableDefs.IsIdentifier(n.name)
            && !Covered(globals, n.range.start)
            && !AnyMatches(textSegs, n.range.start, false)
  {
    var gaps := Inverted(globals, |s|);
    var gi, m := AllUsagesFrom(s, textSegs, gaps, a);
    var x := GapText(s, textSegs, gaps[gi]);
    UsageOfName(s, x, m);
    KeptNameOutside(s, globals, textSegs, gi, m);
  }

  /** The name of a kept match of one of the gaps, as a usage carries it. */
  function NameOf(x: ArgText, m: UsageMatch): CallableDefs.Ident
    requires Fits(m, |x.text|)
  {
    CallableDefs.Ident(x.text[m.nameStart..m.nameEnd], Range(x.base + m.nameStart, x.base + m.nameEnd))
  }

  /** An identifier found in the text of a range is the document's text at
      the name's range. */
  lemma {:induction false} KeptNameText(s: string, textSegs: seq<Segment<TextKind>>, g: Range, m: UsageMatch)
    requires g.start <= g.end <= |s|
    requires var x := GapText(s, textSegs, g);
             Fits(m, |x.text|) && CallableDefs.IsIdentifier(x.text[m.nameStart..m.nameEnd])
    ensures var n := NameOf(GapText(s, textSegs, g), m);
            && g.start <= n.range.start < n.range.end <= g.end
            && n.name == s[n.range.start..n.range.end]
            && CallableDefs.IsIdentifier(n.name)
  {
    var x := GapText(s, textSegs, g);
    GapTextAt(s, textSegs, g);
    NameInDocument(s, g, x.text, m.nameStart, m.nameEnd);
  }

  /** The name of a kept match starts outside every global segment and
      outside every comment and string. */
  lemma {:induction false} KeptNameOutside(s: string, globals: seq<Range>, textSegs: seq<Segment<TextKind>>, gi: nat, m: UsageMatch)
    requires SortedRanges(globals) && WithinEof(globals, |s|) && Sorted(textSegs)
    requires gi < |Inverted(globals, |s|)|
    requires var x := GapText(s, textSegs, Inverted(globals, |s|)[gi]);
             m in KeptMatches(UsageMatches(x.text), x) && Fits(m, |x.text|)
    ensures var n := NameOf(GapText(s, textSegs, Inverted(globals, |s|)[gi]), m);
            && n.range.start < n.range.end <= |s|
            && n.name == s[n.range.start..n.range.end]
            && CallableDefs.IsIdentifier(n.name)
            && !Covered(globals, n.range.start)
            && !AnyMatches(textSegs, n.range.start, false)
  {
    var gaps := Inverted(globals, |s|);
    InvertedSorted(globals, |s|);
    var g := gaps[gi];
    var x := GapText(s, textSegs, g);
    KeptNameIsIdentifier(x.text, x, m);
    KeptNameText(s, textSegs, g, m);
    OutsideGlobals(globals, |s|, gi, g.start + m.nameStart);
  }

  lemma {:induction false} UsageOfName(s: string, x: ArgText, m: UsageMatch)
    requires Fits(m, |x.text|) && x.base + |x.text| <= |s|
    ensures UsageOf(s, x, m).1.name == NameOf(x, m)
  {
  }

  /** A name found in the text of a range is the document's text at the
      shifted offsets, inside the range. */
  lemma {:induction false} NameInDocument(s: string, g: Range, t: string, ns: nat, ne: nat)
    requires g.start <= g.end <= |s| && t == s[g.start..g.end]
    requires ns < ne <= |t|
    ensures g.start <= g.start + ns < g.start + ne <= g.end <= |s|
    ensures t[ns..ne] == s[g.start + ns..g.start + ne]
  {
    SliceShift(s, g.start, t, ns, ne);
  }

  /** A position inside one of the gaps lies in none of the ranges. */
  lemma {:induction false} OutsideGlobals(globals: seq<Range>, eof: nat, gi: nat, p: nat)
    requires SortedRanges(globals) && WithinEof(globals, eof)
    requires gi < |Inverted(globals, eof)|
    requires Inverted(globals, eof)[gi].start <= p < Inverted(globals, eof)[gi].end
    ensures !Covered(globals, p)
  {
    InvertedSorted(globals, eof);
    assert Covered(Inverted(globals, eof), p);
    InvertedTiles(globals, eof, p);
  }

  /** A call's entry: its range runs from the match's start to just after
      the closing offset (clamped to the document), its argument list from
      `(` to the closing offset, and its parameters are the argument entries,
      one per recorded start. */
  lemma {:induction false} CallUsageShape(s: string, x: ArgText, m: UsageMatch)
    requires Fits(m, |x.text|) && x.base + |x.text| <= |s| && m.isCall
    ensures var r := CallScan(x, m.end);
            LaidOut([m.end] + r.starts, r.close) && r.close <= |x.text|
    ensures var r := CallScan(x, m.end);
            var e := UsageOf(s, x, m);
            && e.0 == Range(x.base + m.start, PositionAt(s, x.base + r.close + 1))
            && e.1.kind == Call(Range(x.base + m.end - 1, x.base + r.close),
                                Leaves(ParamEntries(x.text, x.base, [m.end] + r.starts, r.close)))
  {
    var r := CallScan(x, m.end);
    CallScanLaidOut(x, m.end);
    var es := ParamEntries(x.text, x.base, [m.end] + r.starts, r.close);
    SetAllRoots(NewBuilder(), es);
    assert [] + Leaves(es) == Leaves(es);
  }

  /** A reference carries no argument list and no parameters, and its range
      ends with its name. */
  lemma {:induction false} ReferenceUsageShape(s: string, x: ArgText, m: UsageMatch)
    requires m.start < |x.text| && UsageAt(x.text, m.start) == Some(m)
    requires x.base + |x.text| <= |s| && !m.isCall
    ensures UsageOf(s, x, m).0 == Range(x.base + m.start, x.base + m.nameEnd)
    ensures UsageOf(s, x, m).1.kind == Reference
  {
    UsageAtSound(x.text, m.start);
  }

  /** Nothing is missed in a range: where the pattern matches outside every
      reported match and its name is outside the comments and strings, the
      usage built from that match is among the range's entries. */
  lemma {:induction false} GapUsagesComplete(s: string, textSegs: seq<Segment<TextKind>>, g: Range, p: nat)
    requires var x := GapText(s, textSegs, g);
             && p < |x.text| && UsageAt(x.text, p).Some?
             && KeptMatch(UsageAt(x.text, p).value, x)
             && forall a :: 0 <= a < |UsageMatches(x.text)| ==>
                  !(UsageMatches(x.text)[a].start < p < UsageMatches(x.text)[a].end)
    ensures var x := GapText(s, textSegs, g);
            UsageOf(s, x, UsageAt(x.text, p).value) in GapUsages(s, textSegs, g)
  {
    var x := GapText(s, textSegs, g);
    var ms := UsageMatches(x.text);
    var m := UsageAt(x.text, p).value;
    var c := UsageMatchesComplete(x.text, p);
    KeptMatchesMember(ms, x, m);
    var ks := KeptMatches(ms, x);
    var j :| 0 <= j < |ks| && ks[j] == m;
    assert GapUsages(s, textSegs, g)[j] == UsageOf(s, x, m);
  }

  /** The source's usage tree is the intended one whenever at most one usage
      is still open after the last push, that is, unless the document ends
      inside nested calls that no later usage closed. */
  lemma {:induction false} UsagesAsWrittenWhenFlat(s: string, globals: seq<Range>, textSegs: seq<Segment<TextKind>>)
    requires |PushedUsages(s, globals, textSegs).ends| <= 1
    ensures ParseCallableUsages(s, globals, textSegs) == ParseCallableUsagesIntended(s, globals, textSegs)
  {
    FinalizeAgreesWhenFlat(PushedUsages(s, globals, textSegs));
  }

  /** When the usages of a document are a call and, inside its arguments,
      a second call (as in `f() { a(b(x)); }`), the source's tree swaps
      their ends: the root runs from the outer call's start to the inner
      call's end and carries the inner usage, and its child carries the
      outer usage and sticks out of it. */
  lemma {:induction false} NestedCallsAsWritten(s: string, globals: seq<Range>, textSegs: seq<Segment<TextKind>>,
                                               outer: Range, a: CallableUsage, inner: Range, b: CallableUsage)
    requires AllUsages(s, textSegs, Inverted(globals, |s|)) == [(outer, a), (inner, b)]
    requires inner.end <= outer.end
    ensures ParseCallableUsages(s, globals, textSegs)
            == [Segment(Range(outer.start, inner.end), b, [Segment(Range(inner.start, outer.end), a, [])])]
  {
    TwoNestedAsWritten(outer, a, inner, b);
  }
}
