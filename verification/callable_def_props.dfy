/** Properties of `parseCallableDefs`: the parameter scanner finds exactly
    the occurrences of each parameter outside comments and strings, and the
    definitions come out sorted inside the document. */
module CallableDefProps {
  import opened Wrappers
  import opened Chars
  import opened Segments
  import opened TextSegments
  import opened Includes
  import opened CallableDefs

  /** The lookahead holds exactly when the first character after the
      whitespace run is `(`. */
  lemma {:induction false} CallFollowsAfterSpaces(b: string, e: nat)
    requires e <= |b|
    ensures CallFollows(b, e) <==> SpaceEnd(b, e) < |b| && b[SpaceEnd(b, e)] == '('
    decreases |b| - e
  {
    if e < |b| && IsSpace(b[e]) {
      CallFollowsAfterSpaces(b, e + 1);
      assert SpaceEnd(b, e) == SpaceEnd(b, e + 1);
    }
  }

  /** Every offset the scan finds is marked in the table. */
  lemma {:induction false} ScanFound(occ: seq<bool>, k: nat, adv: nat, a: nat)
    requires k < |occ| && adv >= 1 && a < |ScanOccurrences(occ, k, adv)|
    ensures occ[ScanOccurrences(occ, k, adv)[a]]
    decreases |occ| - k
  {
    var os := ScanOccurrences(occ, k, adv);
    if occ[k] {
      if a > 0 {
        var rest := ScanOccurrences(occ, k + adv, adv);
        assert os == [k] + rest;
        assert os[a] == rest[a - 1];
        ScanFound(occ, k + adv, adv, a - 1);
      }
    } else {
      ScanFound(occ, k + 1, adv, a);
    }
  }

  /** The offsets found increase. */
  lemma {:induction false} ScanOrdered(occ: seq<bool>, k: nat, adv: nat, a: nat, c: nat)
    requires k < |occ| && adv >= 1 && a < c < |ScanOccurrences(occ, k, adv)|
    ensures ScanOccurrences(occ, k, adv)[a] < ScanOccurrences(occ, k, adv)[c]
    decreases |occ| - k
  {
    var os := ScanOccurrences(occ, k, adv);
    if occ[k] {
      var rest := ScanOccurrences(occ, k + adv, adv);
      assert os == [k] + rest;
      assert os[c] == rest[c - 1];
      if a > 0 {
        assert os[a] == rest[a - 1];
        ScanOrdered(occ, k + adv, adv, a - 1, c - 1);
      }
    } else {
      ScanOrdered(occ, k + 1, adv, a, c);
    }
  }

  /** Marked offsets lie at least `adv` apart. */
  predicate Spaced(occ: seq<bool>, adv: nat) {
    forall k, j :: 0 <= k < j < |occ| && j < k + adv && occ[k] ==> !occ[j]
  }

  /** When marks lie `adv` apart, the scan finds every mark from k on, at
      some index c. */
  lemma {:induction false} ScanComplete(occ: seq<bool>, k: nat, adv: nat, j: nat) returns (c: nat)
    requires adv >= 1 && Spaced(occ, adv)
    requires k <= j < |occ| && occ[j]
    ensures c < |ScanOccurrences(occ, k, adv)| && ScanOccurrences(occ, k, adv)[c] == j
    decreases |occ| - k
  {
    var os := ScanOccurrences(occ, k, adv);
    if j == k {
      c := 0;
    } else if occ[k] {
      assert j >= k + adv;
      var rest := ScanOccurrences(occ, k + adv, adv);
      assert os == [k] + rest;
      var c' := ScanComplete(occ, k + adv, adv, j);
      c := c' + 1;
      assert os[c] == rest[c'];
    } else {
      c := ScanComplete(occ, k + 1, adv, j);
    }
  }

  /** Every offset found is an occurrence. */
  lemma {:induction false} OccurrencesMatch(b: string, k: nat, name: string, a: nat)
    requires k <= |b| && a < |OccurrencesFrom(b, k, name)|
    ensures OccursAt(b, OccurrencesFrom(b, k, name)[a], name)
  {
    ScanFound(OccurrenceTable(b, name), k, Advance(name), a);
  }

  /** The occurrences come in increasing order. */
  lemma {:induction false} OccurrencesOrdered(b: string, k: nat, name: string, a: nat, c: nat)
    requires k <= |b| && a < c < |OccurrencesFrom(b, k, name)|
    ensures OccurrencesFrom(b, k, name)[a] < OccurrencesFrom(b, k, name)[c]
  {
    ScanOrdered(OccurrenceTable(b, name), k, Advance(name), a, c);
  }

  /** Two occurrences of an identifier never overlap: inside a word there is
      no word boundary. */
  lemma {:induction false} NoOverlap(b: string, k: nat, j: nat, name: string)
    requires IsIdentifier(name)
    requires k < j < k + |name| && j <= |b|
    requires StartsAt(b, k, name)
    ensures !OccursAt(b, j, name)
  {
    assert b[j - 1] == name[j - 1 - k] && b[j] == name[j - k];
  }

  lemma {:induction false} OccurrencesSpaced(b: string, name: string)
    requires IsIdentifier(name)
    ensures Spaced(OccurrenceTable(b, name), Advance(name))
  {
    var occ := OccurrenceTable(b, name);
    forall k, j | 0 <= k < j < |occ| && j < k + Advance(name) && occ[k]
      ensures !occ[j]
    {
      NoOverlap(b, k, j, name);
    }
  }

  /** The search misses no occurrence of an identifier: it is found at some
      index c. */
  lemma {:induction false} OccurrencesComplete(b: string, k: nat, name: string, j: nat) returns (c: nat)
    requires IsIdentifier(name)
    requires k <= j <= |b| && OccursAt(b, j, name)
    ensures c < |OccurrencesFrom(b, k, name)| && OccurrencesFrom(b, k, name)[c] == j
  {
    OccurrencesSpaced(b, name);
    c := ScanComplete(OccurrenceTable(b, name), k, Advance(name), j);
  }

  /** What is kept is an unflagged occurrence. */
  lemma {:induction false} KeptSound(os: seq<nat>, inText: seq<bool>, a: nat) returns (c: nat)
    requires |inText| == |os| && a < |KeptOccurrences(os, inText)|
    ensures c < |os| && os[c] == KeptOccurrences(os, inText)[a] && !inText[c]
    decreases |os|
  {
    if inText[0] {
      c := KeptSound(os[1..], inText[1..], a);
      c := c + 1;
    } else if a > 0 {
      c := KeptSound(os[1..], inText[1..], a - 1);
      c := c + 1;
    } else {
      c := 0;
    }
  }

  /** Every unflagged occurrence is kept. */
  lemma {:induction false} KeptComplete(os: seq<nat>, inText: seq<bool>, c: nat) returns (a: nat)
    requires |inText| == |os| && c < |os| && !inText[c]
    ensures a < |KeptOccurrences(os, inText)| && KeptOccurrences(os, inText)[a] == os[c]
    decreases |os|
  {
    if c == 0 {
      a := 0;
    } else {
      a := KeptComplete(os[1..], inText[1..], c - 1);
      if !inText[0] {
        a := a + 1;
      }
    }
  }

  /** The text of a well-formed range inside the document is its slice, and
      starts at the range's start. */
  lemma {:induction false} TextOfValidRange(s: string, g: Range)
    requires g.start <= g.end <= |s|
    ensures GetText(s, g) == s[g.start..g.end] && RangeBase(s, g) == g.start
  {
  }

  /** A definition's name lies within its global segment. */
  lemma {:induction false} DefInSegment(s: string, globals: seq<Range>, textSegs: seq<Segment<TextKind>>, i: nat)
    requires i < |globals| && globals[i].start <= globals[i].end <= |s|
    ensures var d := DefIn(s, globals, textSegs, i);
            d.Some? ==> && globals[i].start <= d.value.ident.range.start < globals[i].end
                        && d.value.body.range == Range(globals[i].end, BodyEnd(s, globals, i))
  {
    TextOfValidRange(s, globals[i]);
  }

  function EntryRanges(es: seq<(Range, CallableDef)>): (rs: seq<Range>)
    ensures |rs| == |es| && forall a :: 0 <= a < |es| ==> rs[a] == es[a].0
  {
    if |es| == 0 then [] else [es[0].0] + EntryRanges(es[1..])
  }

  /** Each definition lies in its slot: its name and body inside the slot,
      its body ending where the slot ends. */
  predicate InSlots(ds: seq<Option<CallableDef>>, slots: seq<Range>) {
    && |ds| == |slots|
    && forall i :: 0 <= i < |ds| && ds[i].Some? ==>
         slots[i].start <= ds[i].value.ident.range.start <= ds[i].value.body.range.end == slots[i].end
  }

  lemma {:induction false} InSlotsTail(ds: seq<Option<CallableDef>>, slots: seq<Range>, eof: nat)
    requires SortedRanges(slots) && WithinEof(slots, eof) && InSlots(ds, slots) && |ds| > 0
    ensures SortedRanges(slots[1..]) && WithinEof(slots[1..], eof) && InSlots(ds[1..], slots[1..])
  {
    assert forall i :: 0 <= i < |ds| - 1 ==> ds[1..][i] == ds[i + 1] && slots[1..][i] == slots[i + 1];
  }

  lemma {:induction false} EntryRangesCons(ds: seq<Option<CallableDef>>)
    requires |ds| > 0
    ensures EntryRanges(DefEntries(ds)) ==
              (if ds[0].Some? then [Range(ds[0].value.ident.range.start, ds[0].value.body.range.end)] else [])
              + EntryRanges(DefEntries(ds[1..]))
  {
  }

  /** Definitions lying in sorted slots are sorted, and start no earlier than
      the first slot. */
  lemma {:induction false} InSlotsSorted(ds: seq<Option<CallableDef>>, slots: seq<Range>, eof: nat)
    requires SortedRanges(slots) && WithinEof(slots, eof)
    requires InSlots(ds, slots)
    ensures var rs := EntryRanges(DefEntries(ds));
            && SortedRanges(rs)
            && WithinEof(rs, eof)
            && (|ds| > 0 ==> forall a :: 0 <= a < |rs| ==> slots[0].start <= rs[a].start)
    decreases |ds|
  {
    if |ds| > 0 {
      InSlotsTail(ds, slots, eof);
      InSlotsSorted(ds[1..], slots[1..], eof);
      var rest := EntryRanges(DefEntries(ds[1..]));
      RestAfterFirst(slots, rest);
      EntryRangesCons(ds);
      if ds[0].Some? {
        var r := Range(ds[0].value.ident.range.start, ds[0].value.body.range.end);
        ConsSorted(r, rest, slots[0].start, eof);
      }
    }
  }

  /** What lies in the later slots starts after the first slot ends. */
  lemma {:induction false} RestAfterFirst(slots: seq<Range>, rest: seq<Range>)
    requires SortedRanges(slots) && |slots| > 0
    requires |slots| > 1 ==> forall a :: 0 <= a < |rest| ==> slots[1..][0].start <= rest[a].start
    requires |slots| == 1 ==> |rest| == 0
    ensures forall a :: 0 <= a < |rest| ==> slots[0].end <= rest[a].start
  {
    if |slots| > 1 {
      assert slots[1..][0] == slots[1];
      assert slots[0].end <= slots[1].start;
    }
  }

  /** A valid range ending before a sorted list starts keeps it sorted. */
  lemma {:induction false} ConsSorted(r: Range, rest: seq<Range>, lo: nat, eof: nat)
    requires lo <= r.start <= r.end <= eof
    requires SortedRanges(rest) && WithinEof(rest, eof)
    requires forall a :: 0 <= a < |rest| ==> r.end <= rest[a].start
    ensures SortedRanges([r] + rest) && WithinEof([r] + rest, eof)
    ensures forall a :: 0 <= a < |rest| + 1 ==> lo <= ([r] + rest)[a].start
  {
    SortedConcat([r], rest);
    assert forall a :: 1 <= a < |rest| + 1 ==> ([r] + rest)[a] == rest[a - 1];
  }

  /** The slot of global segment i: from its start to the end of the body. */
  function Slots(s: string, globals: seq<Range>): (slots: seq<Range>)
    ensures |slots| == |globals|
    ensures forall i :: 0 <= i < |globals| ==> slots[i] == Range(globals[i].start, BodyEnd(s, globals, i))
  {
    seq(|globals|, i requires 0 <= i < |globals| => Range(globals[i].start, BodyEnd(s, globals, i)))
  }

  lemma {:induction false} SlotsSorted(s: string, globals: seq<Range>)
    requires SortedRanges(globals) && WithinEof(globals, |s|)
    ensures SortedRanges(Slots(s, globals)) && WithinEof(Slots(s, globals), |s|)
  {
    var slots := Slots(s, globals);
    forall i | 0 <= i < |slots|
      ensures ValidRange(slots[i]) && slots[i].end <= |s|
    {
      SlotBounds(s, globals, i);
    }
    forall i, j | 0 <= i < j < |slots|
      ensures slots[i].end <= slots[j].start
    {
      SlotBefore(s, globals, i, j);
    }
  }

  lemma {:induction false} SlotBounds(s: string, globals: seq<Range>, i: nat)
    requires SortedRanges(globals) && WithinEof(globals, |s|) && i < |globals|
    ensures globals[i].start <= globals[i].end <= BodyEnd(s, globals, i) <= |s|
  {
    assert ValidRange(globals[i]);
    if i + 1 < |globals| {
      assert globals[i].end <= globals[i + 1].start;
      assert ValidRange(globals[i + 1]);
    }
  }

  lemma {:induction false} SlotBefore(s: string, globals: seq<Range>, i: nat, j: nat)
    requires SortedRanges(globals) && i < j < |globals|
    ensures BodyEnd(s, globals, i) <= globals[j].start
  {
    if i + 1 < j {
      assert ValidRange(globals[i + 1]);
      assert globals[i + 1].end <= globals[j].start;
    }
  }

  /** `parseCallableDefs` gives a sorted list of definitions inside the
      document, at most one per global segment. */
  lemma {:induction false} CallableDefsSorted(s: string, globals: seq<Range>, textSegs: seq<Segment<TextKind>>)
    requires SortedRanges(globals) && WithinEof(globals, |s|)
    ensures var defs := ParseCallableDefs(s, globals, textSegs);
            && |defs| <= |globals|
            && Sorted(defs)
            && WithinEof(RangesOf(defs), |s|)
  {
    var ds := AllDefs(s, globals, textSegs);
    var slots := Slots(s, globals);
    SlotsSorted(s, globals);
    forall i | 0 <= i < |ds| && ds[i].Some?
      ensures slots[i].start <= ds[i].value.ident.range.start <= ds[i].value.body.range.end == slots[i].end
    {
      DefInSegment(s, globals, textSegs, i);
    }
    InSlotsSorted(ds, slots, |s|);
    var es := DefEntries(ds);
    var defs := ParseCallableDefs(s, globals, textSegs);
    assert RangesOf(defs) == EntryRanges(es);
  }

  /** The segment covers an occurrence of the name outside comments and
      strings. */
  predicate SegmentOk(b: string, base: nat, name: string, textSegs: seq<Segment<TextKind>>, r: Range) {
    && base <= r.start <= base + |b|
    && OccursAt(b, r.start - base, name)
    && !HasAt(textSegs, r.start, false)
    && r.end == r.start + |name|
  }

  /** Every parameter segment is an occurrence of the parameter it names,
      outside comments and strings. */
  lemma {:induction false} SegmentsOfSound(b: string, base: nat, name: string, x: nat, textSegs: seq<Segment<TextKind>>, a: nat)
    requires a < |SegmentsOf(b, base, name, x, textSegs)|
    ensures SegmentOk(b, base, name, textSegs, SegmentsOf(b, base, name, x, textSegs)[a].range)
  {
    SegmentsOfOccur(b, base, name, x, textSegs, a);
    SegmentsOfOutside(b, base, name, x, textSegs, a);
  }

  /** A parameter segment covers the name at one of the occurrences, and
      that occurrence is not flagged as inside a text segment. */
  lemma {:induction false} SegmentsOfOffset(b: string, base: nat, name: string, x: nat, textSegs: seq<Segment<TextKind>>, a: nat)
    returns (c: nat)
    requires a < |SegmentsOf(b, base, name, x, textSegs)|
    ensures var os := OccurrencesFrom(b, 0, name);
            && c < |os|
            && SegmentsOf(b, base, name, x, textSegs)[a].range == Range(base + os[c], base + os[c] + |name|)
            && !InText(os, base, textSegs)[c]
  {
    var os := OccurrencesFrom(b, 0, name);
    var inText := InText(os, base, textSegs);
    var kept := KeptOccurrences(os, inText);
    assert SegmentsOf(b, base, name, x, textSegs)[a].range == Range(base + kept[a], base + kept[a] + |name|);
    c := KeptSound(os, inText, a);
  }

  lemma {:induction false} SegmentsOfOccur(b: string, base: nat, name: string, x: nat, textSegs: seq<Segment<TextKind>>, a: nat)
    requires a < |SegmentsOf(b, base, name, x, textSegs)|
    ensures var r := SegmentsOf(b, base, name, x, textSegs)[a].range;
            && base <= r.start <= base + |b|
            && r.end == r.start + |name|
            && OccursAt(b, r.start - base, name)
  {
    var c := SegmentsOfOffset(b, base, name, x, textSegs, a);
    var k := OccurrencesFrom(b, 0, name)[c];
    OccurrencesMatch(b, 0, name, c);
    assert SegmentsOf(b, base, name, x, textSegs)[a].range.start - base == k;
  }

  lemma {:induction false} SegmentsOfOutside(b: string, base: nat, name: string, x: nat, textSegs: seq<Segment<TextKind>>, a: nat)
    requires a < |SegmentsOf(b, base, name, x, textSegs)|
    ensures !HasAt(textSegs, SegmentsOf(b, base, name, x, textSegs)[a].range.start, false)
  {
    var c := SegmentsOfOffset(b, base, name, x, textSegs, a);
  }

  /** Every occurrence of an identifier parameter outside comments and
      strings has a segment. */
  lemma {:induction false} SegmentsOfComplete(b: string, base: nat, name: string, x: nat, textSegs: seq<Segment<TextKind>>, j: nat)
    returns (a: nat)
    requires IsIdentifier(name) && j <= |b| && OccursAt(b, j, name) && !HasAt(textSegs, base + j, false)
    ensures var here := SegmentsOf(b, base, name, x, textSegs);
            a < |here| && here[a].range.start == base + j
  {
    var os := OccurrencesFrom(b, 0, name);
    var inText := InText(os, base, textSegs);
    var c := OccurrencesComplete(b, 0, name, j);
    a := KeptComplete(os, inText, c);
    var kept := KeptOccurrences(os, inText);
    assert SegmentsOf(b, base, name, x, textSegs)[a].range.start == base + j;
  }

  /** Every parameter segment is an occurrence of the parameter it names,
      outside comments and strings. */
  lemma {:induction false} ParamSegmentsSound(b: string, base: nat, names: seq<string>, from: nat,
                                              textSegs: seq<Segment<TextKind>>, a: nat)
    requires from <= |names| && a < |ParamSegments(b, base, names, from, textSegs)|
    ensures var sg := ParamSegments(b, base, names, from, textSegs)[a];
            SegmentOk(b, base, names[sg.value], textSegs, sg.range)
    decreases |names| - from
  {
    var here := SegmentsOf(b, base, names[from], from, textSegs);
    var rest := ParamSegments(b, base, names, from + 1, textSegs);
    var segs := ParamSegments(b, base, names, from, textSegs);
    assert segs == here + rest;
    if a < |here| {
      SegmentsOfSound(b, base, names[from], from, textSegs, a);
      assert segs[a] == here[a] && here[a].value == from;
    } else {
      ParamSegmentsSound(b, base, names, from + 1, textSegs, a - |here|);
      assert segs[a] == rest[a - |here|];
    }
  }

  /** Every occurrence of a parameter outside comments and strings has a
      segment naming that parameter. */
  lemma {:induction false} ParamSegmentsComplete(b: string, base: nat, names: seq<string>, from: nat,
                                                 textSegs: seq<Segment<TextKind>>, x: nat, j: nat)
    returns (a: nat)
    requires from <= x < |names| && IsIdentifier(names[x])
    requires j <= |b| && OccursAt(b, j, names[x]) && !HasAt(textSegs, base + j, false)
    ensures var segs := ParamSegments(b, base, names, from, textSegs);
            a < |segs| && segs[a].value == x && segs[a].range.start == base + j
    decreases |names| - from
  {
    var here := SegmentsOf(b, base, names[from], from, textSegs);
    var rest := ParamSegments(b, base, names, from + 1, textSegs);
    var segs := ParamSegments(b, base, names, from, textSegs);
    assert segs == here + rest;
    if from == x {
      a := SegmentsOfComplete(b, base, names[x], x, textSegs, j);
      assert segs[a] == here[a];
    } else {
      var a' := ParamSegmentsComplete(b, base, names, from + 1, textSegs, x, j);
      a := |here| + a';
      assert segs[a] == rest[a'];
    }
  }
}
