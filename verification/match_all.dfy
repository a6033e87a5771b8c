/** `String.prototype.matchAll` with a global regular expression, reduced to
    positions: given, for every offset of the text, the end of the pattern's
    match starting there (if any), the scan takes the leftmost match, resumes
    at its end, and repeats. */
module MatchAll {
  import opened Wrappers

  /** Every match is non-empty, so the scan always moves forward. */
  predicate Resumable(ends: seq<Option<nat>>) {
    forall p :: 0 <= p < |ends| && ends[p].Some? ==> p < ends[p].value
  }

  /** The offsets at which the successive matches start, scanning from k. */
  function Scan(ends: seq<Option<nat>>, k: nat): (ps: seq<nat>)
    requires Resumable(ends)
    decreases |ends| - k
  {
    if k >= |ends| then []
    else if ends[k].Some? then [k] + Scan(ends, ends[k].value)
    else Scan(ends, k + 1)
  }

  /** Each reported offset is at or after k and the pattern matches there. */
  lemma {:induction false} ScanFound(ends: seq<Option<nat>>, k: nat, a: nat)
    requires Resumable(ends)
    requires a < |Scan(ends, k)|
    ensures var p := Scan(ends, k)[a];
            k <= p < |ends| && ends[p].Some?
    decreases |ends| - k
  {
    if ends[k].Some? {
      if a > 0 {
        ScanFound(ends, ends[k].value, a - 1);
      }
    } else {
      ScanFound(ends, k + 1, a);
    }
  }

  /** Matches do not overlap: a later match starts at or after the end of
      an earlier one. */
  lemma {:induction false} ScanOrdered(ends: seq<Option<nat>>, k: nat, a: nat, b: nat)
    requires Resumable(ends)
    requires a < b < |Scan(ends, k)|
    ensures ScanFoundEnd(ends, k, a) <= Scan(ends, k)[b]
    decreases |ends| - k
  {
    ScanFound(ends, k, a);
    if ends[k].Some? {
      var e := ends[k].value;
      ScanFound(ends, e, b - 1);
      if a > 0 {
        ScanOrdered(ends, e, a - 1, b - 1);
      }
    } else {
      ScanOrdered(ends, k + 1, a, b);
    }
  }

  /** The end of the a-th match of the scan from k. */
  function ScanFoundEnd(ends: seq<Option<nat>>, k: nat, a: nat): nat
    requires Resumable(ends)
    requires a < |Scan(ends, k)|
  {
    ScanFound(ends, k, a);
    ends[Scan(ends, k)[a]].value
  }

  /** Offset p lies strictly inside none of the matches ps. */
  predicate Uncovered(ends: seq<Option<nat>>, ps: seq<nat>, p: nat) {
    forall a :: 0 <= a < |ps| && ps[a] < |ends| && ends[ps[a]].Some? ==>
      !(ps[a] < p < ends[ps[a]].value)
  }

  /** The scan misses nothing: every offset at or after k where the pattern
      matches and which lies inside no reported match is itself reported. */
  lemma {:induction false} ScanComplete(ends: seq<Option<nat>>, k: nat, p: nat) returns (c: nat)
    requires Resumable(ends)
    requires k <= p < |ends| && ends[p].Some?
    requires Uncovered(ends, Scan(ends, k), p)
    ensures c < |Scan(ends, k)| && Scan(ends, k)[c] == p
    decreases |ends| - k
  {
    var ps := Scan(ends, k);
    if k == p {
      c := 0;
    } else if ends[k].Some? {
      var e := ends[k].value;
      var rest := Scan(ends, e);
      assert ps == [k] + rest;
      assert ps[0] == k;
      assert e <= p;
      assert Uncovered(ends, rest, p) by {
        forall a | 0 <= a < |rest| && rest[a] < |ends| && ends[rest[a]].Some?
          ensures !(rest[a] < p < ends[rest[a]].value)
        {
          assert ps[a + 1] == rest[a];
        }
      }
      var c' := ScanComplete(ends, e, p);
      c := c' + 1;
    } else {
      c := ScanComplete(ends, k + 1, p);
    }
  }
}
