/** `parseCallableDefs`: at most one function definition per global segment,
    recognised by the head `name(params)` that ends the segment just before
    its `{`, together with its parameters, the occurrences of each parameter
    in the body and the `ScriptDoc` comment of the segment. */
module CallableDefs {
  import opened Wrappers
  import opened Chars
  import opened Util
  import opened Segments
  import opened SegmentBuilders
  import opened TextSegments
  import opened Includes
  import opened DocComments

  datatype Ident = Ident(name: string, range: Range)
  datatype ParamDef = ParamDef(name: string, range: Range, doc: Option<ParamDoc>)
  /** The body: from the end of the definition's global segment to the start
      of the next one, and where each parameter occurs in it, by index. */
  datatype Body = Body(range: Range, params: seq<Segment<nat>>)
  datatype CallableDef = CallableDef(
    ident: Ident,
    params: seq<ParamDef>,
    description: Option<seq<string>>,
    example: Option<seq<string>>,
    receiver: Option<string>,
    body: Body)

  predicate IsIdentifier(s: string) {
    |s| > 0 && IsIdentStart(s[0]) && forall k :: 0 <= k < |s| ==> IsWord(s[k])
  }

  // ---------------------------------------------------------------------------
  // The head `\b([A-Za-z_][\w]*)\b\s*\(([^)]*?)\)\s*$`

  /** Where the parts of a head lie: the name is [start, nameEnd), `(` is at
      open and `)` at close. */
  datatype Head = Head(start: nat, nameEnd: nat, open: nat, close: nat)

  /** The head pattern at offset p. The name runs to the end of the word, so
      the `\b` after it holds; `[^)]*?` stops at the first `)`, which must be
      followed by nothing but whitespace, as `$` without the `m` flag is the
      end of the text. */
  function HeadAt(t: string, p: nat): (r: Option<Head>)
    requires p <= |t|
    ensures r.Some? ==>
              var h := r.value;
              h.start == p < h.nameEnd <= h.open < h.close < |t|
  {
    if p == |t| || !IsIdentStart(t[p]) || (p > 0 && IsWord(t[p - 1])) then None
    else
      var e := NameEnd(t, p + 1);
      var o := SpaceEnd(t, e);
      if o == |t| || t[o] != '(' then None
      else
        match IndexOfChar(t, ')', o + 1)
        case None => None
        case Some(c) =>
          if SpaceEnd(t, c + 1) < |t| then None
          else Some(Head(p, e, o, c))
  }

  /** The end of the word from offset i: `WordEnd`, computed without stating
      its properties, which `NameEndIsWordEnd` supplies where needed. */
  function NameEnd(t: string, i: nat): (j: nat)
    requires i <= |t|
    ensures i <= j <= |t|
    decreases |t| - i
  {
    if i == |t| || !IsWord(t[i]) then i else NameEnd(t, i + 1)
  }

  lemma {:induction false} NameEndIsWordEnd(t: string, i: nat)
    requires i <= |t|
    ensures NameEnd(t, i) == WordEnd(t, i)
    decreases |t| - i
  {
    if i < |t| && IsWord(t[i]) {
      NameEndIsWordEnd(t, i + 1);
    }
  }

  /** What a head is: an identifier standing at a word boundary, whitespace,
      `(`, text without `)`, `)` and only whitespace up to the end. */
  lemma {:induction false} HeadAtExact(t: string, p: nat)
    requires p <= |t|
    ensures var r := HeadAt(t, p);
            r.Some? ==>
              var h := r.value;
              && (p == 0 || !IsWord(t[p - 1]))
              && IsIdentifier(t[p..h.nameEnd])
              && (h.nameEnd == |t| || !IsWord(t[h.nameEnd]))
              && (forall k :: h.nameEnd <= k < h.open ==> IsSpace(t[k]))
              && t[h.open] == '(' && t[h.close] == ')'
              && (forall k :: h.open < k < h.close ==> t[k] != ')')
              && (forall k :: h.close < k < |t| ==> IsSpace(t[k]))
  {
    var r := HeadAt(t, p);
    if r.Some? {
      var h := r.value;
      NameEndIsWordEnd(t, p + 1);
      var name := t[p..h.nameEnd];
      assert forall k :: 0 <= k < |name| ==> name[k] == t[p + k];
    }
  }

  /** The leftmost head from offset p on. */
  function FirstHead(t: string, p: nat): (r: Option<Head>)
    requires p <= |t|
    ensures r.Some? ==> p <= r.value.start < |t| && HeadAt(t, r.value.start) == r
    decreases |t| - p
  {
    var h := HeadAt(t, p);
    if h.Some? then h
    else if p == |t| then None
    else FirstHead(t, p + 1)
  }

  /** The head found is the leftmost one, and none is found only when the
      pattern matches nowhere: no head starts at an offset the search passed. */
  lemma {:induction false} FirstHeadLeftmost(t: string, p: nat, q: nat)
    requires p <= q <= |t|
    requires FirstHead(t, p).None? || q < FirstHead(t, p).value.start
    ensures HeadAt(t, q).None?
    decreases q - p
  {
    if p < q {
      assert FirstHead(t, p) == FirstHead(t, p + 1);
      FirstHeadLeftmost(t, p + 1, q);
    }
  }

  // ---------------------------------------------------------------------------
  // Parameters `\b([A-Za-z_][\w]*)\b\s*(?:,|$)`

  /** One parameter match: the name [start, nameEnd) and where the match ends,
      after the comma if there is one. */
  datatype ParamMatch = ParamMatch(start: nat, nameEnd: nat, end: nat)

  function ParamAt(u: string, k: nat): (r: Option<ParamMatch>)
    requires k <= |u|
    ensures r.Some? ==> var m := r.value; m.start == k < m.nameEnd <= m.end <= |u|
  {
    if k == |u| || !IsIdentStart(u[k]) || (k > 0 && IsWord(u[k - 1])) then None
    else
      var e := WordEnd(u, k + 1);
      var f := SpaceEnd(u, e);
      if f == |u| then Some(ParamMatch(k, e, f))
      else if u[f] == ',' then Some(ParamMatch(k, e, f + 1))
      else None
  }

  /** What a parameter match is: an identifier at a word boundary, whitespace,
      and then a comma or the end of the text. */
  lemma {:induction false} ParamAtExact(u: string, k: nat)
    requires k <= |u| && ParamAt(u, k).Some?
    ensures var m := ParamAt(u, k).value;
            && (k == 0 || !IsWord(u[k - 1]))
            && IsIdentifier(u[k..m.nameEnd])
            && (m.nameEnd == |u| || !IsWord(u[m.nameEnd]))
            && (forall q :: m.nameEnd <= q < SpaceEnd(u, m.nameEnd) ==> IsSpace(u[q]))
            && (m.end == |u| || (u[m.end - 1] == ',' && m.end == SpaceEnd(u, m.nameEnd) + 1))
  {
    var m := ParamAt(u, k).value;
    var name := u[k..m.nameEnd];
    assert forall q :: 0 <= q < |name| ==> name[q] == u[k + q];
  }

  /** The parameter pattern's match at every offset of u. */
  function ParamTable(u: string): (pt: seq<Option<ParamMatch>>)
    ensures |pt| == |u|
    ensures forall k :: 0 <= k < |u| ==> pt[k] == ParamAt(u, k)
  {
    seq(|u|, k requires 0 <= k < |u| => ParamAt(u, k))
  }

  /** Each recorded match starts where it is recorded and ends inside the
      text, after its start. */
  predicate ParamsResumable(pt: seq<Option<ParamMatch>>) {
    forall k :: 0 <= k < |pt| && pt[k].Some? ==>
      pt[k].value.start == k < pt[k].value.nameEnd <= pt[k].value.end <= |pt|
  }

  lemma {:induction false} ParamTableResumable(u: string)
    ensures ParamsResumable(ParamTable(u))
  {
    var pt := ParamTable(u);
    forall k | 0 <= k < |pt| && pt[k].Some?
      ensures pt[k].value.start == k < pt[k].value.nameEnd <= pt[k].value.end <= |pt|
    {
      assert pt[k] == ParamAt(u, k);
    }
  }

  /** `matchAll` over a table of parameter matches from offset k. */
  function ScanParams(pt: seq<Option<ParamMatch>>, k: nat): (ms: seq<ParamMatch>)
    requires ParamsResumable(pt) && k <= |pt|
    ensures forall a :: 0 <= a < |ms| ==> k <= ms[a].start < ms[a].nameEnd <= ms[a].end <= |pt|
    decreases |pt| - k
  {
    if k == |pt| then []
    else
      match pt[k]
      case None => ScanParams(pt, k + 1)
      case Some(m) =>
        var rest := ScanParams(pt, m.end);
        var ms := [m] + rest;
        assert ms[1..] == rest;
        ms
  }

  /** `matchAll` of the parameter pattern from offset k. */
  function ParamsFrom(u: string, k: nat): (ms: seq<ParamMatch>)
    requires k <= |u|
    ensures forall a :: 0 <= a < |ms| ==> k <= ms[a].start < ms[a].nameEnd <= ms[a].end <= |u|
  {
    ParamTableResumable(u);
    ScanParams(ParamTable(u), k)
  }

  lemma {:induction false} ScanParamsFound(pt: seq<Option<ParamMatch>>, k: nat, a: nat)
    requires ParamsResumable(pt) && k <= |pt| && a < |ScanParams(pt, k)|
    ensures var m := ScanParams(pt, k)[a];
            m.start < |pt| && pt[m.start] == Some(m)
    decreases |pt| - k
  {
    if pt[k].None? {
      ScanParamsFound(pt, k + 1, a);
    } else if a > 0 {
      var rest := ScanParams(pt, pt[k].value.end);
      assert ScanParams(pt, k) == [pt[k].value] + rest;
      assert ScanParams(pt, k)[a] == rest[a - 1];
      ScanParamsFound(pt, pt[k].value.end, a - 1);
    }
  }

  lemma {:induction false} ScanParamsOrdered(pt: seq<Option<ParamMatch>>, k: nat, a: nat, b: nat)
    requires ParamsResumable(pt) && k <= |pt| && a < b < |ScanParams(pt, k)|
    ensures ScanParams(pt, k)[a].end <= ScanParams(pt, k)[b].start
    decreases |pt| - k
  {
    if pt[k].None? {
      ScanParamsOrdered(pt, k + 1, a, b);
    } else {
      var rest := ScanParams(pt, pt[k].value.end);
      assert ScanParams(pt, k) == [pt[k].value] + rest;
      assert ScanParams(pt, k)[b] == rest[b - 1];
      if a > 0 {
        assert ScanParams(pt, k)[a] == rest[a - 1];
        ScanParamsOrdered(pt, pt[k].value.end, a - 1, b - 1);
      }
    }
  }

  /** Every parameter found is a match of the pattern where it starts, so its
      name is an identifier. */
  lemma {:induction false} ParamsMatch(u: string, k: nat, a: nat)
    requires k <= |u| && a < |ParamsFrom(u, k)|
    ensures var m := ParamsFrom(u, k)[a];
            ParamAt(u, m.start) == Some(m) && IsIdentifier(u[m.start..m.nameEnd])
  {
    ParamTableResumable(u);
    ScanParamsFound(ParamTable(u), k, a);
    ParamAtExact(u, ParamsFrom(u, k)[a].start);
  }

  /** The parameters found do not overlap and come in order. */
  lemma {:induction false} ParamsOrdered(u: string, k: nat, a: nat, b: nat)
    requires k <= |u| && a < b < |ParamsFrom(u, k)|
    ensures ParamsFrom(u, k)[a].end <= ParamsFrom(u, k)[b].start
  {
    ParamTableResumable(u);
    ScanParamsOrdered(ParamTable(u), k, a, b);
  }

  /** No parameter match of ms covers offset p. */
  predicate ParamsUncovered(ms: seq<ParamMatch>, p: nat) {
    forall a :: 0 <= a < |ms| ==> !(ms[a].start <= p < ms[a].end)
  }

  lemma {:induction false} ParamsUncoveredTail(m: ParamMatch, rest: seq<ParamMatch>, p: nat)
    requires ParamsUncovered([m] + rest, p)
    ensures !(m.start <= p < m.end) && ParamsUncovered(rest, p)
  {
    var ms := [m] + rest;
    assert ms[0] == m;
    forall a | 0 <= a < |rest| ensures !(rest[a].start <= p < rest[a].end) {
      assert ms[a + 1] == rest[a];
    }
  }

  lemma {:induction false} ScanParamsComplete(pt: seq<Option<ParamMatch>>, k: nat, p: nat)
    requires ParamsResumable(pt) && k <= p < |pt|
    requires ParamsUncovered(ScanParams(pt, k), p)
    ensures pt[p].None?
    decreases |pt| - k
  {
    if pt[k].None? {
      if p > k {
        ScanParamsComplete(pt, k + 1, p);
      }
    } else {
      var rest := ScanParams(pt, pt[k].value.end);
      assert ScanParams(pt, k) == [pt[k].value] + rest;
      ParamsUncoveredTail(pt[k].value, rest, p);
      ScanParamsComplete(pt, pt[k].value.end, p);
    }
  }

  /** No parameter is missed: at an offset from k on that no parameter found
      covers, the parameter pattern does not match. */
  lemma {:induction false} ParamsComplete(u: string, k: nat, p: nat)
    requires k <= p < |u|
    requires ParamsUncovered(ParamsFrom(u, k), p)
    ensures ParamAt(u, p).None?
  {
    ParamTableResumable(u);
    ScanParamsComplete(ParamTable(u), k, p);
  }

  // ---------------------------------------------------------------------------
  // Parameter occurrences `\b(?<!\.)name(?!\s*\()\b`

  /** The name occurs as a whole word at k, not after a `.` and not followed
      by whitespace and `(`. */
  predicate OccursAt(b: string, k: nat, name: string)
    requires k <= |b|
  {
    && IsBoundary(b, k)
    && (k == 0 || b[k - 1] != '.')
    && StartsAt(b, k, name)
    && !CallFollows(b, k + |name|)
    && IsBoundary(b, k + |name|)
  }

  /** The lookahead `\s*\(`: whitespace and then an opening parenthesis. */
  predicate CallFollows(b: string, e: nat)
    decreases |b| - e
  {
    e < |b| && (b[e] == '(' || (IsSpace(b[e]) && CallFollows(b, e + 1)))
  }

  /** Whether the name occurs at each offset of b, end included. */
  function OccurrenceTable(b: string, name: string): (occ: seq<bool>)
    ensures |occ| == |b| + 1
    ensures forall k :: 0 <= k <= |b| ==> (occ[k] <==> OccursAt(b, k, name))
  {
    seq(|b| + 1, k requires 0 <= k <= |b| => OccursAt(b, k, name))
  }

  /** How far the search moves after a match: its length, or one character
      after an empty match. */
  function Advance(name: string): (n: nat)
    ensures n >= 1
  {
    if |name| == 0 then 1 else |name|
  }

  /** `matchAll` over a table of matches from offset k: the offsets of the
      matches. The search resumes `adv` characters after each match. */
  function ScanOccurrences(occ: seq<bool>, k: nat, adv: nat): (os: seq<nat>)
    requires k < |occ| && adv >= 1
    ensures forall a :: 0 <= a < |os| ==> k <= os[a] < |occ|
    decreases |occ| - k
  {
    if occ[k] then
      if k + adv >= |occ| then [k]
      else
        var rest := ScanOccurrences(occ, k + adv, adv);
        var os := [k] + rest;
        assert os[1..] == rest;
        os
    else if k == |occ| - 1 then []
    else ScanOccurrences(occ, k + 1, adv)
  }

  /** `matchAll` of the occurrence pattern from offset k: the offsets of the
      matches. The search resumes after each match, and one character further
      after an empty one. */
  function OccurrencesFrom(b: string, k: nat, name: string): (os: seq<nat>)
    requires k <= |b|
    ensures forall a :: 0 <= a < |os| ==> k <= os[a] <= |b|
  {
    ScanOccurrences(OccurrenceTable(b, name), k, Advance(name))
  }

  /** One segment per offset, each covering the name there. */
  function SegmentsAt(base: nat, offsets: seq<nat>, name: string, x: nat): (here: seq<Segment<nat>>)
    ensures |here| == |offsets|
    ensures forall a :: 0 <= a < |here| ==>
              here[a] == Segment(Range(base + offsets[a], base + offsets[a] + |name|), x, [])
  {
    seq(|offsets|, a requires 0 <= a < |offsets| => Segment(Range(base + offsets[a], base + offsets[a] + |name|), x, []))
  }

  /** The parameter segments of one parameter: its occurrences outside
      comments and strings. */
  function SegmentsOf(b: string, base: nat, name: string, x: nat, textSegs: seq<Segment<TextKind>>): (here: seq<Segment<nat>>)
    ensures forall a :: 0 <= a < |here| ==> here[a].value == x && |here[a].children| == 0
  {
    var os := OccurrencesFrom(b, 0, name);
    SegmentsAt(base, KeptOccurrences(os, InText(os, base, textSegs)), name, x)
  }

  /** Occurrences of each parameter outside comments and strings, as segments
      valued with the parameter's index, parameter after parameter. */
  function ParamSegments(b: string, base: nat, names: seq<string>, from: nat, textSegs: seq<Segment<TextKind>>): (segs: seq<Segment<nat>>)
    requires from <= |names|
    ensures forall a :: 0 <= a < |segs| ==> from <= segs[a].value < |names| && |segs[a].children| == 0
    decreases |names| - from
  {
    if from == |names| then []
    else
      var here := SegmentsOf(b, base, names[from], from, textSegs);
      here + ParamSegments(b, base, names, from + 1, textSegs)
  }

  /** For each occurrence, whether its document offset lies in a text
      segment. */
  function InText(os: seq<nat>, base: nat, textSegs: seq<Segment<TextKind>>): (flags: seq<bool>)
    ensures |flags| == |os|
    ensures forall c :: 0 <= c < |os| ==> flags[c] == HasAt(textSegs, base + os[c], false)
  {
    seq(|os|, c requires 0 <= c < |os| => HasAt(textSegs, base + os[c], false))
  }

  /** The occurrences not flagged as lying in a text segment. */
  function KeptOccurrences(os: seq<nat>, inText: seq<bool>): (ks: seq<nat>)
    requires |inText| == |os|
    ensures |ks| <= |os|
  {
    if |os| == 0 then []
    else
      var rest := KeptOccurrences(os[1..], inText[1..]);
      if inText[0] then rest else [os[0]] + rest
  }

  // ---------------------------------------------------------------------------
  // One definition per global segment

  /** The block comments lying within a range, in document order. */
  function CommentsIn(textSegs: seq<Segment<TextKind>>, r: Range): (cs: seq<Segment<TextKind>>)
    ensures forall a :: 0 <= a < |cs| ==>
              cs[a] in textSegs && cs[a].value == CommentBlock
              && r.start <= cs[a].range.start && cs[a].range.end <= r.end
  {
    if |textSegs| == 0 then []
    else
      var c := textSegs[0];
      var rest := CommentsIn(textSegs[1..], r);
      if c.value == CommentBlock && r.start <= c.range.start && c.range.end <= r.end then [c] + rest
      else rest
  }

  /** Where the body of the definition in global segment i ends: at the start
      of the next global segment, or at the end of the document. */
  function BodyEnd(s: string, globals: seq<Range>, i: nat): nat
    requires i < |globals|
  {
    if i + 1 < |globals| then globals[i + 1].start else |s|
  }

  /** A parameter's name after renaming: the doc comment's name at the same
      index when it gives one. */
  function ParamName(doc: Option<DocComment>, j: nat, name: string): (r: string)
    ensures doc.None? || doc.value.paramRenames.None? || j >= |doc.value.paramRenames.value| ==> r == name
    ensures doc.Some? && doc.value.paramRenames.Some? && j < |doc.value.paramRenames.value| ==>
              r == doc.value.paramRenames.value[j]
  {
    if doc.Some? && doc.value.paramRenames.Some? && j < |doc.value.paramRenames.value| then
      doc.value.paramRenames.value[j]
    else name
  }

  function ParamDocOf(doc: Option<DocComment>, name: string): Option<ParamDoc> {
    if doc.Some? && doc.value.params.Some? && name in doc.value.params.value then
      Some(doc.value.params.value[name])
    else None
  }

  /** The definition in global segment i, if its head matches and its name is
      not inside a comment or string. */
  /** The parameters of a head, read from the text between its parentheses,
      which starts at document offset `pbase`. */
  function ParamDefs(u: string, pbase: nat): (ps: seq<ParamDef>)
    ensures |ps| == |ParamsFrom(u, 0)|
    ensures forall a :: 0 <= a < |ps| ==>
              var m := ParamsFrom(u, 0)[a];
              ps[a] == ParamDef(u[m.start..m.nameEnd], Range(pbase + m.start, pbase + m.nameEnd), None)
  {
    var pms := ParamsFrom(u, 0);
    seq(|pms|, a requires 0 <= a < |pms| =>
      ParamDef(u[pms[a].start..pms[a].nameEnd], Range(pbase + pms[a].start, pbase + pms[a].nameEnd), None))
  }

  function NamesOf(ps: seq<ParamDef>): (names: seq<string>)
    ensures |names| == |ps| && forall a :: 0 <= a < |ps| ==> names[a] == ps[a].name
  {
    seq(|ps|, a requires 0 <= a < |ps| => ps[a].name)
  }

  /** The doc comment of a global segment: the last block comment within it,
      read as a `ScriptDoc` block. */
  function DocOf(s: string, textSegs: seq<Segment<TextKind>>, g: Range): Option<DocComment> {
    var comments := CommentsIn(textSegs, g);
    if |comments| == 0 then None else ParseDocComment(GetText(s, comments[|comments| - 1].range))
  }

  /** Each parameter takes the doc comment's name at its index, if there is
      one, and the documentation of its (new) name; its range stays. */
  function Renamed(ps: seq<ParamDef>, doc: Option<DocComment>): (rs: seq<ParamDef>)
    ensures |rs| == |ps|
    ensures forall a :: 0 <= a < |ps| ==>
              && rs[a].name == ParamName(doc, a, ps[a].name)
              && rs[a].range == ps[a].range
              && rs[a].doc == ParamDocOf(doc, rs[a].name)
  {
    seq(|ps|, a requires 0 <= a < |ps| =>
      var n := ParamName(doc, a, ps[a].name);
      ParamDef(n, ps[a].range, ParamDocOf(doc, n)))
  }

  /** The body of the definition in global segment i and where its
      parameters occur in it. */
  function BodyOf(s: string, globals: seq<Range>, textSegs: seq<Segment<TextKind>>, i: nat, ps: seq<ParamDef>): (b: Body)
    requires i < |globals|
    ensures b.range == Range(globals[i].end, BodyEnd(s, globals, i))
  {
    var bodyRange := Range(globals[i].end, BodyEnd(s, globals, i));
    Body(bodyRange, ParamSegments(GetText(s, bodyRange), RangeBase(s, bodyRange), NamesOf(ps), 0, textSegs))
  }

  /** The definition in global segment i, if its head matches and its name is
      not inside a comment or string. */
  function DefIn(s: string, globals: seq<Range>, textSegs: seq<Segment<TextKind>>, i: nat): (r: Option<CallableDef>)
    requires i < |globals|
    ensures r.Some? ==>
              var g := globals[i];
              var t := GetText(s, g);
              var base := RangeBase(s, g);
              && FirstHead(t, 0).Some?
              && r.value.ident.range.start == base + FirstHead(t, 0).value.start
              && !HasAt(textSegs, r.value.ident.range.start, false)
              && r.value.body.range == Range(g.end, BodyEnd(s, globals, i))
    ensures FirstHead(GetText(s, globals[i]), 0).Some? &&
            !HasAt(textSegs, RangeBase(s, globals[i]) + FirstHead(GetText(s, globals[i]), 0).value.start, false)
            ==> r.Some?
  {
    var g := globals[i];
    var t := GetText(s, g);
    var base := RangeBase(s, g);
    match FirstHead(t, 0)
    case None => None
    case Some(h) =>
      var offset := base + h.start;
      if HasAt(textSegs, offset, false) then None
      else
        var name := t[h.start..h.nameEnd];
        var params := ParamDefs(t[h.open + 1..h.close], base + h.open + 1);
        var doc := DocOf(s, textSegs, g);
        Some(CallableDef(
          Ident(name, Range(offset, offset + |name|)),
          Renamed(params, doc),
          if doc.Some? then doc.value.description else None,
          if doc.Some? then doc.value.example else None,
          if doc.Some? then doc.value.receiver else None,
          BodyOf(s, globals, textSegs, i, params)))
  }

  /** The definition, if any, of each global segment. */
  function AllDefs(s: string, globals: seq<Range>, textSegs: seq<Segment<TextKind>>): (ds: seq<Option<CallableDef>>)
    ensures |ds| == |globals| && forall i :: 0 <= i < |globals| ==> ds[i] == DefIn(s, globals, textSegs, i)
  {
    seq(|globals|, i requires 0 <= i < |globals| => DefIn(s, globals, textSegs, i))
  }

  /** The definitions found, in order, each with its range from the name to
      the end of its body. */
  function DefEntries(ds: seq<Option<CallableDef>>): (es: seq<(Range, CallableDef)>)
    ensures |es| <= |ds|
    ensures forall a :: 0 <= a < |es| ==>
              es[a].0 == Range(es[a].1.ident.range.start, es[a].1.body.range.end)
    decreases |ds|
  {
    if |ds| == 0 then []
    else
      var rest := DefEntries(ds[1..]);
      match ds[0]
      case None => rest
      case Some(d) => [(Range(d.ident.range.start, d.body.range.end), d)] + rest
  }

  /** `parseCallableDefs`: the definitions stored one after another. */
  function ParseCallableDefs(s: string, globals: seq<Range>, textSegs: seq<Segment<TextKind>>): (defs: seq<Segment<CallableDef>>)
    ensures defs == Leaves(DefEntries(AllDefs(s, globals, textSegs)))
  {
    var es := DefEntries(AllDefs(s, globals, textSegs));
    SetAllRoots(NewBuilder(), es);
    assert [] + Leaves(es) == Leaves(es);
    SetAll(NewBuilder(), es).roots
  }
}
