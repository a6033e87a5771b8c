/** `parseDocComment`: the `ScriptDoc` block of a comment, a list of
    `"key: value"` entries between `/// ScriptDocBegin` and `/// ScriptDocEnd`
    markers, read into the description, example, receiver and parameter
    documentation of a callable. */
module DocComments {
  import opened Wrappers
  import opened Chars

  datatype ParamDoc = ParamDoc(description: seq<string>, optional: bool)

  /** The fields a doc comment can set; each one stays `None` until an entry
      sets it. Parameter documentation is keyed by parameter name. */
  datatype DocComment = DocComment(
    description: Option<seq<string>>,
    example: Option<seq<string>>,
    receiver: Option<string>,
    paramRenames: Option<seq<string>>,
    params: Option<map<string, ParamDoc>>)

  const EmptyDoc: DocComment := DocComment(None, None, None, None, None)

  // ---------------------------------------------------------------------------
  // The markers

  /** `///\s*word\b` at offset p: the offset just past `word`. Whitespace is
      taken greedily; giving some back cannot help, as `word` does not start
      with whitespace. */
  function MarkerAt(t: string, p: nat, word: string): (r: Option<nat>)
    requires p <= |t|
    ensures r.Some? ==> p + 3 + |word| <= r.value <= |t|
  {
    if !StartsAt(t, p, "///") then None
    else
      var w := SpaceEnd(t, p + 3);
      if StartsAt(t, w, word) && IsBoundary(t, w + |word|) then Some(w + |word|) else None
  }

  /** What a marker is: `///`, whitespace, the word, and a word boundary; and
      the marker is there whenever the word and boundary follow the longest
      run of whitespace after `///`. */
  lemma {:induction false} MarkerAtExact(t: string, p: nat, word: string)
    requires p <= |t|
    ensures var r := MarkerAt(t, p, word);
            r.Some? ==>
              && StartsAt(t, p, "///")
              && (forall k :: p + 3 <= k < r.value - |word| ==> IsSpace(t[k]))
              && StartsAt(t, r.value - |word|, word)
              && IsBoundary(t, r.value)
    ensures StartsAt(t, p, "///") ==>
              var w := SpaceEnd(t, p + 3);
              (MarkerAt(t, p, word).Some? <==> StartsAt(t, w, word) && IsBoundary(t, w + |word|))
  {
  }

  /** Whether the marker `word` starts at each offset of t, end included. */
  function MarkerTable(t: string, word: string): (mt: seq<Option<nat>>)
    ensures |mt| == |t| + 1
    ensures forall p :: 0 <= p <= |t| ==> mt[p] == MarkerAt(t, p, word)
  {
    seq(|t| + 1, p requires 0 <= p <= |t| => MarkerAt(t, p, word))
  }

  /** The last offset in [lo, hi) where the table records a marker. */
  function LastMarkerBelow(mt: seq<Option<nat>>, lo: nat, hi: nat): (r: Option<nat>)
    requires lo <= hi <= |mt|
    ensures r.Some? ==> lo <= r.value < hi && mt[r.value].Some?
    ensures r.Some? ==> forall q :: r.value < q < hi ==> mt[q].None?
    ensures r.None? ==> forall q :: lo <= q < hi ==> mt[q].None?
    decreases hi - lo
  {
    if hi == lo then None
    else if mt[hi - 1].Some? then Some(hi - 1)
    else LastMarkerBelow(mt, lo, hi - 1)
  }

  /** The end marker that closes a begin marker ending at e: the greedy `(.*)`
      with the `s` flag stretches to the last end marker from e on. */
  function CloseFrom(t: string, e: nat): Option<nat>
    requires e <= |t|
  {
    LastMarkerBelow(MarkerTable(t, "ScriptDocEnd"), e, |t| + 1)
  }

  /** The closing marker is the last end marker from e on, and there is one
      exactly when some end marker starts at or after e. */
  lemma {:induction false} CloseFromExact(t: string, e: nat)
    requires e <= |t|
    ensures var r := CloseFrom(t, e);
            && (r.Some? ==> e <= r.value <= |t| && MarkerAt(t, r.value, "ScriptDocEnd").Some?)
            && (r.Some? ==> forall q :: r.value < q <= |t| ==> MarkerAt(t, q, "ScriptDocEnd").None?)
            && (r.None? ==> forall q :: e <= q <= |t| ==> MarkerAt(t, q, "ScriptDocEnd").None?)
  {
    var mt := MarkerTable(t, "ScriptDocEnd");
    var r := CloseFrom(t, e);
    if r.Some? {
      forall q | r.value < q <= |t| ensures MarkerAt(t, q, "ScriptDocEnd").None? {
        assert mt[q].None?;
      }
    } else {
      forall q | e <= q <= |t| ensures MarkerAt(t, q, "ScriptDocEnd").None? {
        assert mt[q].None?;
      }
    }
  }

  /** A match of the marker pattern can start at p: a begin marker there and an
      end marker somewhere after it. */
  predicate Opens(t: string, p: nat)
    requires p <= |t|
  {
    MarkerAt(t, p, "ScriptDocBegin").Some? && CloseFrom(t, MarkerAt(t, p, "ScriptDocBegin").value).Some?
  }

  /** Whether a match can start at each offset of t, end included. */
  function OpensTable(t: string): (op: seq<bool>)
    ensures |op| == |t| + 1
    ensures forall a :: 0 <= a <= |t| ==> (op[a] <==> Opens(t, a))
  {
    seq(|t| + 1, a requires 0 <= a <= |t| => Opens(t, a))
  }

  /** The first offset from p on that the table marks. */
  function FirstMarked(op: seq<bool>, p: nat): (r: Option<nat>)
    requires p <= |op|
    ensures r.Some? ==> p <= r.value < |op| && op[r.value]
    ensures r.Some? ==> forall b :: p <= b < r.value ==> !op[b]
    ensures r.None? ==> forall a :: p <= a < |op| ==> !op[a]
    decreases |op| - p
  {
    if p == |op| then None
    else if op[p] then Some(p)
    else FirstMarked(op, p + 1)
  }

  /** The leftmost match from offset p: where it starts, and where the content
      between the markers starts and ends. */
  function DocMatchFrom(t: string, p: nat): (r: Option<(nat, nat, nat)>)
    requires p <= |t|
    ensures r.Some? ==>
              && p <= r.value.0 <= |t|
              && Opens(t, r.value.0)
              && MarkerAt(t, r.value.0, "ScriptDocBegin") == Some(r.value.1)
              && CloseFrom(t, r.value.1) == Some(r.value.2)
              && forall b :: p <= b < r.value.0 ==> !Opens(t, b)
    ensures r.None? <==> forall a :: p <= a <= |t| ==> !Opens(t, a)
  {
    var op := OpensTable(t);
    match FirstMarked(op, p)
    case None => None
    case Some(a) =>
      assert Opens(t, a);
      var e := MarkerAt(t, a, "ScriptDocBegin").value;
      Some((a, e, CloseFrom(t, e).value))
  }

  // ---------------------------------------------------------------------------
  // The entries

  /** Where the line containing offset i ends: JavaScript's `.` without the `s`
      flag stops there. */
  function LineStop(t: string, i: nat): (e: nat)
    requires i <= |t|
    ensures i <= e <= |t|
    ensures forall k :: i <= k < e ==> !IsLineTerminator(t[k])
    ensures e == |t| || IsLineTerminator(t[e])
    decreases |t| - i
  {
    if i == |t| || IsLineTerminator(t[i]) then i else LineStop(t, i + 1)
  }

  /** One `"key:value"` entry: the raw key and value and where the match
      starts and ends. */
  datatype Entry = Entry(start: nat, key: string, value: string, end: nat)

  /** The pattern `"(.*?):(.*)"` at offset k. The lazy key stops at the first
      `:` of the line, the greedy value at the last `"` of the line after it. */
  function EntryAt(t: string, k: nat): (r: Option<Entry>)
    requires k <= |t|
    ensures r.Some? ==>
              && r.value.start == k < |t|
              && k + 1 + |r.value.key| < r.value.end <= |t|
  {
    if k == |t| || t[k] != '"' then None
    else
      var stop := LineStop(t, k + 1);
      match IndexOfChar(t, ':', k + 1)
      case None => None
      case Some(colon) =>
        if colon >= stop then None
        else
          match LastIndexOf(t[colon + 1..stop], '"')
          case None => None
          case Some(j) =>
            var close := colon + 1 + j;
            Some(Entry(k, t[k + 1..colon], t[colon + 1..close], close + 1))
  }

  /** What an entry is: a `"`, the key up to the first `:` of the line, the
      value up to the last `"` of the line, nothing crossing a line end. */
  lemma {:induction false} EntryAtSound(t: string, k: nat)
    requires k <= |t| && EntryAt(t, k).Some?
    ensures var r := EntryAt(t, k).value;
            var colon := k + 1 + |r.key|;
            var close := r.end - 1;
            && t[k] == '"'
            && colon < close
            && r.key == t[k + 1..colon]
            && t[colon] == ':'
            && r.value == t[colon + 1..close]
            && t[close] == '"'
            && (forall q :: k + 1 <= q < close ==> !IsLineTerminator(t[q]))
            && (forall q :: k + 1 <= q < colon ==> t[q] != ':')
            && (forall q :: close < q < LineStop(t, k + 1) ==> t[q] != '"')
  {
    EntryKeySound(t, k);
    EntryValueSound(t, k);
  }

  lemma {:induction false} EntryKeySound(t: string, k: nat)
    requires k <= |t| && EntryAt(t, k).Some?
    ensures var r := EntryAt(t, k).value;
            var colon := k + 1 + |r.key|;
            && t[k] == '"'
            && colon < r.end - 1
            && r.key == t[k + 1..colon]
            && t[colon] == ':'
            && (forall q :: k + 1 <= q < colon ==> t[q] != ':')
  {
  }

  lemma {:induction false} EntryValueSound(t: string, k: nat)
    requires k <= |t| && EntryAt(t, k).Some?
    ensures var r := EntryAt(t, k).value;
            var colon := k + 1 + |r.key|;
            var close := r.end - 1;
            && colon < close
            && r.value == t[colon + 1..close]
            && t[close] == '"'
            && (forall q :: k + 1 <= q < close ==> !IsLineTerminator(t[q]))
            && (forall q :: close < q < LineStop(t, k + 1) ==> t[q] != '"')
  {
    var stop := LineStop(t, k + 1);
    var colon := IndexOfChar(t, ':', k + 1).value;
    var tail := t[colon + 1..stop];
    var j := LastIndexOf(tail, '"').value;
    assert forall q :: colon < q < stop ==> t[q] == tail[q - colon - 1];
  }

  /** When a `"` opens no entry, no `:` on its line has a `"` after it. */
  lemma {:induction false} EntryAtNone(t: string, k: nat)
    requires k < |t| && t[k] == '"' && EntryAt(t, k).None?
    ensures forall c :: k + 1 <= c < LineStop(t, k + 1) && t[c] == ':' ==>
              forall q :: c < q < LineStop(t, k + 1) ==> t[q] != '"'
  {
    var stop := LineStop(t, k + 1);
    var colon := IndexOfChar(t, ':', k + 1);
    if colon.Some? && colon.value < stop {
      var tail := t[colon.value + 1..stop];
      assert forall q :: colon.value < q < stop ==> t[q] == tail[q - colon.value - 1];
    }
  }

  /** The entry pattern's match at every offset of t. */
  function EntryTable(t: string): (at: seq<Option<Entry>>)
    ensures |at| == |t|
    ensures forall k :: 0 <= k < |t| ==> at[k] == EntryAt(t, k)
  {
    seq(|t|, k requires 0 <= k < |t| => EntryAt(t, k))
  }

  /** Each recorded match starts where it is recorded and ends inside the
      text, after its start. */
  predicate Resumable(at: seq<Option<Entry>>) {
    forall k :: 0 <= k < |at| && at[k].Some? ==> at[k].value.start == k < at[k].value.end <= |at|
  }

  lemma {:induction false} TableResumable(t: string)
    ensures Resumable(EntryTable(t))
  {
    var at := EntryTable(t);
    forall k | 0 <= k < |at| && at[k].Some?
      ensures at[k].value.start == k < at[k].value.end <= |at|
    {
      assert at[k] == EntryAt(t, k);
    }
  }

  /** `matchAll` over a table of matches from offset k: after a match the
      search resumes at its end, otherwise one offset further. */
  function Scan(at: seq<Option<Entry>>, k: nat): (es: seq<Entry>)
    requires Resumable(at) && k <= |at|
    ensures forall a :: 0 <= a < |es| ==> k <= es[a].start < es[a].end <= |at|
    decreases |at| - k
  {
    if k == |at| then []
    else
      match at[k]
      case None => Scan(at, k + 1)
      case Some(e) =>
        var rest := Scan(at, e.end);
        var es := [e] + rest;
        assert es[1..] == rest;
        es
  }

  /** `matchAll` of the entry pattern from offset k. */
  function EntriesFrom(t: string, k: nat): seq<Entry>
    requires k <= |t|
  {
    TableResumable(t);
    Scan(EntryTable(t), k)
  }

  /** Every match found is a match recorded where it starts. */
  lemma {:induction false} ScanMatch(at: seq<Option<Entry>>, k: nat, a: nat)
    requires Resumable(at) && k <= |at| && a < |Scan(at, k)|
    ensures var e := Scan(at, k)[a];
            e.start < |at| && at[e.start] == Some(e)
    decreases |at| - k
  {
    if at[k].None? {
      ScanMatch(at, k + 1, a);
    } else {
      var rest := Scan(at, at[k].value.end);
      assert Scan(at, k) == [at[k].value] + rest;
      if a > 0 {
        assert Scan(at, k)[a] == rest[a - 1];
        ScanMatch(at, at[k].value.end, a - 1);
      }
    }
  }

  /** The matches found do not overlap and come in order. */
  lemma {:induction false} ScanOrdered(at: seq<Option<Entry>>, k: nat, a: nat, b: nat)
    requires Resumable(at) && k <= |at| && a < b < |Scan(at, k)|
    ensures Scan(at, k)[a].end <= Scan(at, k)[b].start
    decreases |at| - k
  {
    if at[k].None? {
      ScanOrdered(at, k + 1, a, b);
    } else {
      var rest := Scan(at, at[k].value.end);
      assert Scan(at, k) == [at[k].value] + rest;
      assert Scan(at, k)[b] == rest[b - 1];
      if a > 0 {
        assert Scan(at, k)[a] == rest[a - 1];
        ScanOrdered(at, at[k].value.end, a - 1, b - 1);
      }
    }
  }

  /** No entry of es covers offset p. */
  predicate Uncovered(es: seq<Entry>, p: nat) {
    forall a :: 0 <= a < |es| ==> !(es[a].start <= p < es[a].end)
  }

  lemma {:induction false} UncoveredTail(e: Entry, rest: seq<Entry>, p: nat)
    requires Uncovered([e] + rest, p)
    ensures !(e.start <= p < e.end) && Uncovered(rest, p)
  {
    var es := [e] + rest;
    assert es[0] == e;
    forall a | 0 <= a < |rest| ensures !(rest[a].start <= p < rest[a].end) {
      assert es[a + 1] == rest[a];
    }
  }

  /** The scan misses nothing: at an offset from k on that no match covers,
      none is recorded. */
  lemma {:induction false} ScanComplete(at: seq<Option<Entry>>, k: nat, p: nat)
    requires Resumable(at) && k <= p < |at|
    requires Uncovered(Scan(at, k), p)
    ensures at[p].None?
    decreases |at| - k
  {
    if at[k].None? {
      if p > k {
        ScanComplete(at, k + 1, p);
      }
    } else {
      var rest := Scan(at, at[k].value.end);
      assert Scan(at, k) == [at[k].value] + rest;
      UncoveredTail(at[k].value, rest, p);
      ScanComplete(at, at[k].value.end, p);
    }
  }

  /** Every entry found is a match of the entry pattern where it starts. */
  lemma {:induction false} EntriesMatch(t: string, k: nat, a: nat)
    requires k <= |t| && a < |EntriesFrom(t, k)|
    ensures var e := EntriesFrom(t, k)[a];
            e.start < |t| && EntryAt(t, e.start) == Some(e)
  {
    TableResumable(t);
    ScanMatch(EntryTable(t), k, a);
  }

  /** The entries found do not overlap and come in order. */
  lemma {:induction false} EntriesOrdered(t: string, k: nat, a: nat, b: nat)
    requires k <= |t| && a < b < |EntriesFrom(t, k)|
    ensures EntriesFrom(t, k)[a].end <= EntriesFrom(t, k)[b].start
  {
    TableResumable(t);
    ScanOrdered(EntryTable(t), k, a, b);
  }

  /** No entry is missed: at an offset from k on that no entry covers, the
      pattern does not match. */
  lemma {:induction false} EntriesComplete(t: string, k: nat, p: nat)
    requires k <= p < |t|
    requires Uncovered(EntriesFrom(t, k), p)
    ensures EntryAt(t, p).None?
  {
    TableResumable(t);
    ScanComplete(EntryTable(t), k, p);
  }

  // ---------------------------------------------------------------------------
  // Entry values

  /** `value.match(/\((.*?)\)/)`: the text between the first `(` and the first
      `)` after it. An entry value holds no line terminator, so the lazy group
      only stops at a `)`. */
  function ParamsText(v: string): (r: Option<string>)
    ensures r.Some? <==> exists a, b :: 0 <= a < b < |v| && v[a] == '(' && v[b] == ')'
    ensures r.Some? ==> ')' !in r.value
  {
    match IndexOfChar(v, '(', 0)
    case None => None
    case Some(a) =>
      match IndexOfChar(v, ')', a + 1)
      case None => None
      case Some(b) =>
        var r := v[a + 1..b];
        assert forall q :: 0 <= q < |r| ==> r[q] == v[a + 1 + q];
        Some(r)
  }

  /** One parameter of a `name` entry: `<\s*(.*)\s*>` takes what lies between
      the first `<` (and the whitespace after it) and the last `>`; otherwise
      the trimmed text. */
  function Rename(part: string): (r: string)
    ensures (forall q :: 0 <= q < |part| ==> part[q] != '<') ==> r == Trim(part)
  {
    match IndexOfChar(part, '<', 0)
    case None => Trim(part)
    case Some(a) =>
      match LastIndexOf(part, '>')
      case None => Trim(part)
      case Some(b) =>
        if b < a then Trim(part)
        else
          var w := SpaceEnd(part, a + 1);
          part[w..b]
  }

  /** `paramsText.split(",").map(...)`: one rename per comma-separated part. */
  function Renames(paramsText: string): (rs: seq<string>)
    ensures var parts := Split(paramsText, ',');
            |rs| == |parts| && forall k :: 0 <= k < |rs| ==> rs[k] == Rename(parts[k])
  {
    var parts := Split(paramsText, ',');
    seq(|parts|, k requires 0 <= k < |parts| => Rename(parts[k]))
  }

  /** A `>` at offset b followed by whitespace and a `:`. */
  predicate ClosesArg(v: string, b: nat) {
    b < |v| && v[b] == '>' && SpaceEnd(v, b + 1) < |v| && v[SpaceEnd(v, b + 1)] == ':'
  }

  /** The first `>` from offset i on that is followed by whitespace and a `:`:
      where the lazy `<(.*?)>\s*:` can stop. */
  function ArgClose(v: string, i: nat): (r: Option<nat>)
    requires i <= |v|
    ensures r.Some? ==> i <= r.value && ClosesArg(v, r.value)
    ensures r.Some? ==> forall b :: i <= b < r.value ==> !ClosesArg(v, b)
    ensures r.None? ==> forall b :: i <= b < |v| ==> !ClosesArg(v, b)
    decreases |v| - i
  {
    if i == |v| then None
    else if ClosesArg(v, i) then Some(i)
    else ArgClose(v, i + 1)
  }

  /** The description an argument entry gives when the `>` at b closes its
      name: the text after the `:` that follows the `>` and its whitespace,
      trimmed. */
  function ArgDescription(v: string, b: nat): string
    requires ClosesArg(v, b)
  {
    Trim(v[SpaceEnd(v, b + 1) + 1..])
  }

  /** `value.match(/<(.*?)>\s*:(.*)$/)` for an argument entry: the trimmed name
      between the first `<` and the first fitting `>`, and the trimmed text
      after the `:`. The value comes from one line, so `.` matches every
      character of it and `$` is its end. */
  function ArgParts(v: string): (r: Option<(string, string)>)
    ensures (forall q :: 0 <= q < |v| ==> v[q] != '<') ==> r.None?
  {
    match IndexOfChar(v, '<', 0)
    case None => None
    case Some(a) =>
      match ArgClose(v, a + 1)
      case None => None
      case Some(b) => Some((Trim(v[a + 1..b]), ArgDescription(v, b)))
  }

  /** What the argument pattern finds: it matches exactly when a `<` comes
      before a `>` followed by whitespace and a `:`; the name is then taken
      from after the first `<` to the first such `>` after it, and the
      description from after the `:` to the end. */
  lemma {:induction false} ArgPartsExact(v: string)
    ensures ArgParts(v).Some? <==> exists a, b :: 0 <= a < b < |v| && v[a] == '<' && ClosesArg(v, b)
    ensures ArgParts(v).Some? ==>
              exists a, b ::
                && 0 <= a < b < |v| && v[a] == '<' && ClosesArg(v, b)
                && (forall q :: 0 <= q < a ==> v[q] != '<')
                && (forall q :: a < q < b ==> !ClosesArg(v, q))
                && ArgParts(v).value == (Trim(v[a + 1..b]), ArgDescription(v, b))
  {
    var ia := IndexOfChar(v, '<', 0);
    if ia.Some? && ArgClose(v, ia.value + 1).Some? {
      ArgPartsAt(v, ia.value, ArgClose(v, ia.value + 1).value);
    } else {
      ArgPartsNone(v);
    }
  }

  lemma {:induction false} ArgPartsNone(v: string)
    requires IndexOfChar(v, '<', 0).None? || ArgClose(v, IndexOfChar(v, '<', 0).value + 1).None?
    ensures ArgParts(v).None?
    ensures forall a, b :: 0 <= a < b < |v| && v[a] == '<' ==> !ClosesArg(v, b)
  {
    var ia := IndexOfChar(v, '<', 0);
    if ia.Some? {
      forall a, b | 0 <= a < b < |v| && v[a] == '<'
        ensures !ClosesArg(v, b)
      {
        assert ia.value <= a;
      }
    }
  }

  lemma {:induction false} ArgPartsAt(v: string, a: nat, b: nat)
    requires IndexOfChar(v, '<', 0) == Some(a) && ArgClose(v, a + 1) == Some(b)
    ensures 0 <= a < b < |v| && v[a] == '<' && ClosesArg(v, b)
    ensures (forall q :: 0 <= q < a ==> v[q] != '<') && (forall q :: a < q < b ==> !ClosesArg(v, q))
    ensures ArgParts(v) == Some((Trim(v[a + 1..b]), ArgDescription(v, b)))
  {
  }

  /** Offsets a and b hold the first `<` and the last `>` of a part, in that
      order, and the whitespace after the `<` stops at or before the `>`. */
  predicate RenameBrackets(part: string, a: nat, b: nat) {
    && a < b < |part| && part[a] == '<' && part[b] == '>'
    && (forall q :: 0 <= q < a ==> part[q] != '<')
    && (forall q :: b < q < |part| ==> part[q] != '>')
    && SpaceEnd(part, a + 1) <= b
  }

  /** What `<\s*(.*)\s*>` takes from a part of a `name` entry: when some `<`
      comes before some `>`, the text from after the first `<` and the
      whitespace following it up to the last `>`; otherwise the part trimmed.
      The part comes from one line, so `.` matches every character of it. */
  lemma {:induction false} RenameExact(part: string)
    ensures (exists a, b :: 0 <= a < b < |part| && part[a] == '<' && part[b] == '>') ==>
              exists a: nat, b: nat :: RenameBrackets(part, a, b) && Rename(part) == part[SpaceEnd(part, a + 1)..b]
    ensures (forall a, b :: 0 <= a < b < |part| && part[a] == '<' ==> part[b] != '>') ==>
              Rename(part) == Trim(part)
  {
    if exists a, b :: 0 <= a < b < |part| && part[a] == '<' && part[b] == '>' {
      var a0, b0 :| 0 <= a0 < b0 < |part| && part[a0] == '<' && part[b0] == '>';
      RenameAt(part, a0, b0);
    } else {
      RenameNone(part);
    }
  }

  /** Given one `<` before one `>`, the first `<` and the last `>` bracket the
      rename. */
  lemma RenameAt(part: string, a0: nat, b0: nat)
    requires a0 < b0 < |part| && part[a0] == '<' && part[b0] == '>'
    ensures exists a: nat, b: nat :: RenameBrackets(part, a, b) && Rename(part) == part[SpaceEnd(part, a + 1)..b]
  {
    var a := IndexOfChar(part, '<', 0).value;
    var b := LastIndexOf(part, '>').value;
    assert a <= a0 by {
      if a0 < a { assert false; }
    }
    assert b0 <= b by {
      if b < b0 { assert false; }
    }
    assert RenameBrackets(part, a, b) by {
      assert !IsSpace(part[b]);
    }
    RenameSlice(part, a, b);
  }

  /** Between the first `<` and a later last `>`, the rename is the slice after
      the whitespace that follows the `<`. */
  lemma RenameSlice(part: string, a: nat, b: nat)
    requires IndexOfChar(part, '<', 0) == Some(a) && LastIndexOf(part, '>') == Some(b) && a < b
    ensures Rename(part) == part[SpaceEnd(part, a + 1)..b]
  {
  }

  /** With no `<` before a `>`, the rename is the trimmed part. */
  lemma RenameNone(part: string)
    requires forall a, b :: 0 <= a < b < |part| && part[a] == '<' ==> part[b] != '>'
    ensures Rename(part) == Trim(part)
  {
    match IndexOfChar(part, '<', 0)
    case None =>
    case Some(a) =>
      match LastIndexOf(part, '>')
      case None =>
      case Some(b) =>
        assert b < a;
  }

  // ---------------------------------------------------------------------------
  // Reading the entries into a doc comment

  /** An entry as the loop reads it: the key lower-cased and trimmed, the
      value trimmed, and what the value says when read as a `name` signature
      or as an argument description. */
  datatype Field = Field(key: string, value: string, renames: Option<seq<string>>, arg: Option<(string, ParamDoc)>)

  /** The argument documentation a key and value give, if the key is an
      argument key and the value has the `<name> : description` shape. */
  function ArgOf(key: string, value: string): (r: Option<(string, ParamDoc)>)
    ensures r.Some? ==> key == "mandatoryarg" || key == "optionalarg"
    ensures r.Some? ==> (r.value.1.optional <==> key == "optionalarg")
    ensures (key == "mandatoryarg" || key == "optionalarg") && ArgParts(value).Some? ==> r.Some?
  {
    if key == "mandatoryarg" || key == "optionalarg" then
      match ArgParts(value)
      case None => None
      case Some((name, description)) => Some((name, ParamDoc([description], key == "optionalarg")))
    else None
  }

  function FieldOf(e: Entry): (f: Field)
    ensures f.value == "" <==> IsBlank(e.value)
  {
    var key := Trim(ToLower(e.key));
    var value := Trim(e.value);
    var renames := match ParamsText(value) case None => None case Some(pt) => Some(Renames(pt));
    Field(key, value, renames, ArgOf(key, value))
  }

  function Fields(es: seq<Entry>): (fs: seq<Field>)
    ensures |fs| == |es| && forall a :: 0 <= a < |es| ==> fs[a] == FieldOf(es[a])
  {
    seq(|es|, a requires 0 <= a < |es| => FieldOf(es[a]))
  }

  function ParamsOrEmpty(d: DocComment): map<string, ParamDoc> {
    if d.params.Some? then d.params.value else map[]
  }

  /** One loop iteration: an empty value changes nothing, and neither does an
      unknown key or a value without the shape its key asks for. */
  function ApplyField(d: DocComment, f: Field): (r: DocComment)
    ensures f.value == "" ==> r == d
    ensures r.paramRenames == d.paramRenames || f.key == "name"
  {
    if f.value == "" then d
    else if f.key == "summary" then d.(description := Some([f.value]))
    else if f.key == "example" then d.(example := Some([f.value]))
    else if f.key == "callon" then d.(receiver := Some(f.value))
    else if f.key == "name" then
      if f.renames.Some? then d.(paramRenames := f.renames) else d
    else if (f.key == "mandatoryarg" || f.key == "optionalarg") && f.arg.Some? then
      d.(params := Some(ParamsOrEmpty(d)[f.arg.value.0 := f.arg.value.1]))
    else d
  }

  function ApplyAll(d: DocComment, fs: seq<Field>): DocComment
    decreases |fs|
  {
    if |fs| == 0 then d else ApplyAll(ApplyField(d, fs[0]), fs[1..])
  }

  /** The documentation read from the match that starts at offset a: the
      entries between its begin marker and the last end marker after it,
      applied in order to an empty doc comment. */
  function DocOf(t: string, a: nat): DocComment
    requires a <= |t| && Opens(t, a)
  {
    var e := MarkerAt(t, a, "ScriptDocBegin").value;
    var q := CloseFrom(t, e).value;
    ApplyAll(EmptyDoc, Fields(EntriesFrom(t[e..q], 0)))
  }

  /** At most one offset opens a match with none opening before it. */
  lemma {:induction false} LeftmostUnique(t: string, m: nat)
    requires m <= |t| && Opens(t, m) && forall b: nat :: b < m ==> !Opens(t, b)
    ensures forall a: nat :: a <= |t| && Opens(t, a) && (forall b: nat :: b < a ==> !Opens(t, b)) ==> a == m
  {
  }

  /** `parseDocComment`: no doc comment without both markers; otherwise the
      documentation of the leftmost match. */
  function ParseDocComment(t: string): (r: Option<DocComment>)
    ensures r.None? <==> forall a: nat :: a <= |t| ==> !Opens(t, a)
    ensures r.Some? ==>
              forall a: nat :: a <= |t| && Opens(t, a) && (forall b: nat :: b < a ==> !Opens(t, b)) ==>
                r.value == DocOf(t, a)
  {
    match DocMatchFrom(t, 0)
    case None => None
    case Some((m, _, _)) =>
      LeftmostUnique(t, m);
      Some(DocOf(t, m))
  }

  // ---------------------------------------------------------------------------
  // What the entries mean: for each field, the last entry that sets it wins

  /** Whether a field sets the field named by `key`. */
  predicate Sets(f: Field, key: string) {
    f.key == key && f.value != ""
  }

  /** The value of the last field with the given key and a non-empty value. */
  function LastValue(fs: seq<Field>, key: string): (r: Option<string>)
    decreases |fs|
  {
    var n := |fs| - 1;
    if |fs| == 0 then None
    else if Sets(fs[n], key) then Some(fs[n].value)
    else LastValue(fs[..n], key)
  }

  /** There is a last value exactly when some field sets the key, and then it
      is the value of a field after which none sets it. */
  lemma {:induction false} LastValueIsLast(fs: seq<Field>, key: string)
    ensures LastValue(fs, key).None? <==> forall a :: 0 <= a < |fs| ==> !Sets(fs[a], key)
    ensures LastValue(fs, key).Some? ==>
              exists a :: 0 <= a < |fs| && Sets(fs[a], key) && fs[a].value == LastValue(fs, key).value
                && forall b :: a < b < |fs| ==> !Sets(fs[b], key)
    decreases |fs|
  {
    if |fs| > 0 {
      var n := |fs| - 1;
      if !Sets(fs[n], key) {
        LastValueIsLast(fs[..n], key);
        assert forall a :: 0 <= a < n ==> fs[..n][a] == fs[a];
        if LastValue(fs, key).Some? {
          var a :| 0 <= a < n && Sets(fs[..n][a], key) && fs[..n][a].value == LastValue(fs, key).value
                  && forall b :: a < b < n ==> !Sets(fs[..n][b], key);
          assert forall b :: a < b < |fs| ==> !Sets(fs[b], key);
        }
      }
    }
  }

  lemma {:induction false} ApplyAllSnoc(d: DocComment, fs: seq<Field>, f: Field)
    ensures ApplyAll(d, fs + [f]) == ApplyField(ApplyAll(d, fs), f)
    decreases |fs|
  {
    if |fs| > 0 {
      assert (fs + [f])[1..] == fs[1..] + [f];
      ApplyAllSnoc(ApplyField(d, fs[0]), fs[1..], f);
    }
  }

  /** One field sets the summary, example or receiver exactly when it has
      that key and a value; nothing else changes them. */
  lemma {:induction false} ApplyFieldScalars(d: DocComment, f: Field)
    ensures var r := ApplyField(d, f);
            && r.description == (if Sets(f, "summary") then Some([f.value]) else d.description)
            && r.example == (if Sets(f, "example") then Some([f.value]) else d.example)
            && r.receiver == (if Sets(f, "callon") then Some(f.value) else d.receiver)
  {
  }

  /** The summary, example and receiver fields hold the value of the last
      entry that sets them, and keep their old value when none does. */
  lemma {:induction false} ScalarFieldsLastWins(d: DocComment, fs: seq<Field>)
    ensures var r := ApplyAll(d, fs);
            && r.description == (if LastValue(fs, "summary").Some? then Some([LastValue(fs, "summary").value]) else d.description)
            && r.example == (if LastValue(fs, "example").Some? then Some([LastValue(fs, "example").value]) else d.example)
            && r.receiver == (if LastValue(fs, "callon").Some? then LastValue(fs, "callon") else d.receiver)
    decreases |fs|
  {
    if |fs| > 0 {
      var n := |fs| - 1;
      var init := fs[..n];
      var f := fs[n];
      assert fs == init + [f];
      ApplyAllSnoc(d, init, f);
      ScalarFieldsLastWins(d, init);
      ApplyFieldScalars(ApplyAll(d, init), f);
      assert LastValue(fs, "summary") == if Sets(f, "summary") then Some(f.value) else LastValue(init, "summary");
      assert LastValue(fs, "example") == if Sets(f, "example") then Some(f.value) else LastValue(init, "example");
      assert LastValue(fs, "callon") == if Sets(f, "callon") then Some(f.value) else LastValue(init, "callon");
    }
  }

  /** Whether a field documents the argument `name`. */
  predicate Documents(f: Field, name: string) {
    && f.value != ""
    && (f.key == "mandatoryarg" || f.key == "optionalarg")
    && f.arg.Some? && f.arg.value.0 == name
  }

  /** The documentation of the last field documenting the argument `name`. */
  function LastArg(fs: seq<Field>, name: string): (r: Option<ParamDoc>)
    decreases |fs|
  {
    var n := |fs| - 1;
    if |fs| == 0 then None
    else if Documents(fs[n], name) then Some(fs[n].arg.value.1)
    else LastArg(fs[..n], name)
  }

  /** One field changes the documentation of `name` only when it documents
      `name`, and then replaces it. */
  lemma {:induction false} ApplyFieldParams(d: DocComment, f: Field, name: string)
    ensures var r := ApplyField(d, f);
            && (Documents(f, name) ==> r.params.Some? && name in r.params.value && r.params.value[name] == f.arg.value.1)
            && (!Documents(f, name) ==> (name in ParamsOrEmpty(r) <==> name in ParamsOrEmpty(d)))
            && (!Documents(f, name) && name in ParamsOrEmpty(d) ==> ParamsOrEmpty(r)[name] == ParamsOrEmpty(d)[name])
  {
  }

  /** A parameter's documentation comes from the last argument entry naming
      it, `optionalarg` making it optional and `mandatoryarg` not; with no such
      entry it is what it was before. */
  lemma {:induction false} ParamsLastWins(d: DocComment, fs: seq<Field>, name: string)
    ensures var r := ApplyAll(d, fs);
            && (LastArg(fs, name).Some? ==>
                  r.params.Some? && name in r.params.value && r.params.value[name] == LastArg(fs, name).value)
            && (LastArg(fs, name).None? ==> (name in ParamsOrEmpty(r) <==> name in ParamsOrEmpty(d)))
            && (LastArg(fs, name).None? && name in ParamsOrEmpty(d) ==>
                  ParamsOrEmpty(r)[name] == ParamsOrEmpty(d)[name])
    decreases |fs|
  {
    if |fs| > 0 {
      var n := |fs| - 1;
      var init := fs[..n];
      var f := fs[n];
      assert fs == init + [f];
      ApplyAllSnoc(d, init, f);
      ParamsLastWins(d, init, name);
      ApplyFieldParams(ApplyAll(d, init), f, name);
      assert LastArg(fs, name) == if Documents(f, name) then Some(f.arg.value.1) else LastArg(init, name);
    }
  }

  /** Whether a field replaces the parameter renames: a `name` entry with a
      value whose parenthesised parameter list was found. */
  predicate RenamesFrom(f: Field) {
    f.value != "" && f.key == "name" && f.renames.Some?
  }

  /** The renames of the last field that replaces them. */
  function LastRenames(fs: seq<Field>): (r: Option<seq<string>>)
    decreases |fs|
  {
    var n := |fs| - 1;
    if |fs| == 0 then None
    else if RenamesFrom(fs[n]) then fs[n].renames
    else LastRenames(fs[..n])
  }

  /** The parameter renames are those of the last `name` entry that has a
      value and a parameter list, and stay what they were when none has. */
  lemma {:induction false} RenamesLastWins(d: DocComment, fs: seq<Field>)
    ensures ApplyAll(d, fs).paramRenames == (if LastRenames(fs).Some? then LastRenames(fs) else d.paramRenames)
    decreases |fs|
  {
    if |fs| > 0 {
      var n := |fs| - 1;
      var init := fs[..n];
      var f := fs[n];
      assert fs == init + [f];
      ApplyAllSnoc(d, init, f);
      RenamesLastWins(d, init);
    }
  }

  /** An argument documented by a field is optional exactly when its key is
      `optionalarg`. */
  lemma {:induction false} ArgOptional(e: Entry)
    ensures var f := FieldOf(e);
            f.arg.Some? ==> (f.arg.value.1.optional <==> f.key == "optionalarg")
  {
  }
}
