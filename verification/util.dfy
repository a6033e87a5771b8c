/** String helpers of the extension: regular-expression escaping and file
    extension removal. */
module Util {
  import opened Wrappers
  import opened Chars

  /** The characters `escapeRegExp` prefixes with a backslash: `.*+?^${}()|[]\`. */
  predicate IsRegExpSpecial(c: char) {
    c in ".*+?^${}()|[]\\"
  }

  function CountSpecial(s: string): nat {
    if |s| == 0 then 0
    else (if IsRegExpSpecial(s[0]) then 1 else 0) + CountSpecial(s[1..])
  }

  /** `escapeRegExp`: every special character gets a backslash in front of it,
      every other character is copied. */
  function EscapeRegExp(s: string): (r: string)
    ensures |r| == |s| + CountSpecial(s)
    ensures |s| > 0 && IsRegExpSpecial(s[0]) ==> r[..2] == ['\\', s[0]]
    ensures |s| > 0 && !IsRegExpSpecial(s[0]) ==> r[0] == s[0]
  {
    if |s| == 0 then ""
    else if IsRegExpSpecial(s[0]) then ['\\', s[0]] + EscapeRegExp(s[1..])
    else [s[0]] + EscapeRegExp(s[1..])
  }

  /** Where the image of `s[i]` starts in the escaped text: after the
      characters before it and one backslash per special one among them. */
  function EscapedOffset(s: string, i: nat): nat
    requires i <= |s|
  {
    i + CountSpecial(s[..i])
  }

  /** Character by character, the escaped text is a backslash followed by the
      character for each special character, and the character alone for every
      other, in the order of the input. With the length, this fixes every
      character of the result. */
  lemma {:induction false} EscapeAt(s: string, i: nat)
    requires i < |s|
    ensures var r := EscapeRegExp(s);
            var o := EscapedOffset(s, i);
            && (IsRegExpSpecial(s[i]) ==> o + 1 < |r| && r[o] == '\\' && r[o + 1] == s[i])
            && (!IsRegExpSpecial(s[i]) ==> o < |r| && r[o] == s[i])
    decreases i
  {
    var head: string := if IsRegExpSpecial(s[0]) then ['\\', s[0]] else [s[0]];
    var rest := EscapeRegExp(s[1..]);
    assert EscapeRegExp(s) == head + rest;
    if i > 0 {
      EscapeAt(s[1..], i - 1);
      assert s[..i][1..] == s[1..][..i - 1];
      assert EscapedOffset(s, i) == |head| + EscapedOffset(s[1..], i - 1);
      assert s[1..][i - 1] == s[i];
    }
  }

  /** The inverse of escaping: a backslash makes the next character literal. */
  function Unescape(s: string): string
    decreases |s|
  {
    if |s| == 0 then ""
    else if s[0] == '\\' && |s| >= 2 then [s[1]] + Unescape(s[2..])
    else [s[0]] + Unescape(s[1..])
  }

  /** Escaping loses nothing: unescaping the escaped text gives the input back. */
  lemma {:induction false} UnescapeEscape(s: string)
    ensures Unescape(EscapeRegExp(s)) == s
    decreases |s|
  {
    if |s| > 0 {
      UnescapeEscape(s[1..]);
      var e := EscapeRegExp(s[1..]);
      if IsRegExpSpecial(s[0]) {
        assert (['\\', s[0]] + e)[2..] == e;
      } else {
        assert ([s[0]] + e)[1..] == e;
        assert s[0] != '\\';
      }
      assert s == [s[0]] + s[1..];
    }
  }

  /** An identifier contains no special character, so escaping leaves it as is;
      this is why a parameter name can be searched for literally. */
  lemma {:induction false} EscapeIdentifier(s: string)
    requires forall k :: 0 <= k < |s| ==> IsWord(s[k])
    ensures EscapeRegExp(s) == s
    decreases |s|
  {
    if |s| > 0 {
      EscapeIdentifier(s[1..]);
      assert s == [s[0]] + s[1..];
    }
  }

  /** `removeFileExtension`: everything before the last `.`, or the whole name
      when there is none. */
  function RemoveFileExtension(filename: string): (r: string)
    ensures '.' !in filename ==> r == filename
    ensures '.' in filename ==> |r| < |filename|
    ensures '.' in filename ==>
              && filename[..|r|] == r
              && filename[|r|] == '.'
              && '.' !in filename[|r| + 1..]
  {
    match LastIndexOf(filename, '.')
    case None => filename
    case Some(i) =>
      var tail := filename[i + 1..];
      assert forall k :: 0 <= k < |tail| ==> tail[k] == filename[i + 1 + k];
      filename[..i]
  }
}
