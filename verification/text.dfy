/**
  The string operations the table relies on: JavaScript's `String.prototype.trim`,
  `toLowerCase` (restricted to ASCII letters), `includes`, and the `String(value)`
  coercion of the numeric id and the boolean selection flag.
 */
module Text {

  /**
    The characters `trim` removes: the WhiteSpace and LineTerminator code points
    of ECMAScript (tab, line feed, vertical tab, form feed, carriage return, space,
    no-break space, the other space separators, the line and paragraph separators
    and the byte-order mark).
   */
  predicate IsJsWhitespace(c: char) {
    var n := c as int;
    n == 0x09 || n == 0x0A || n == 0x0B || n == 0x0C || n == 0x0D ||
    n == 0x20 || n == 0xA0 || n == 0x1680 || (0x2000 <= n <= 0x200A) ||
    n == 0x2028 || n == 0x2029 || n == 0x202F || n == 0x205F || n == 0x3000 ||
    n == 0xFEFF
  }

  /** `s` with its longest whitespace prefix removed. */
  function TrimStart(s: string): (r: string)
    ensures |r| <= |s| && r == s[|s| - |r|..]
    ensures forall i :: 0 <= i < |s| - |r| ==> IsJsWhitespace(s[i])
    ensures |r| > 0 ==> !IsJsWhitespace(r[0])
    decreases |s|
  {
    if |s| > 0 && IsJsWhitespace(s[0]) then TrimStart(s[1..]) else s
  }

  /** `s` with its longest whitespace suffix removed. */
  function TrimEnd(s: string): (r: string)
    ensures |r| <= |s| && r == s[..|r|]
    ensures forall i :: |r| <= i < |s| ==> IsJsWhitespace(s[i])
    ensures |r| > 0 ==> !IsJsWhitespace(r[|r| - 1])
    decreases |s|
  {
    if |s| > 0 && IsJsWhitespace(s[|s| - 1]) then TrimEnd(s[..|s| - 1]) else s
  }

  /**
    `r` is the slice of `s` starting at `lo`, and everything of `s` outside that
    slice is whitespace.
   */
  ghost predicate SliceWithinWhitespace(s: string, r: string, lo: int) {
    0 <= lo <= |s| - |r| && r == s[lo..lo + |r|]
    && (forall i :: 0 <= i < lo ==> IsJsWhitespace(s[i]))
    && (forall i :: lo + |r| <= i < |s| ==> IsJsWhitespace(s[i]))
  }

  /**
    `s.trim()`: the contiguous middle of `s` left after removing whitespace at both
    ends; it neither starts nor ends with whitespace.
   */
  function Trim(s: string): (r: string)
    ensures |r| <= |s|
    ensures |r| > 0 ==> !IsJsWhitespace(r[0]) && !IsJsWhitespace(r[|r| - 1])
    ensures exists lo :: SliceWithinWhitespace(s, r, lo)
  {
    var t := TrimStart(s);
    var r := TrimEnd(t);
    TrimSlice(s, t, r);
    r
  }

  /** The bookkeeping behind `Trim`: composing the two one-sided trims. */
  lemma TrimSlice(s: string, t: string, r: string)
    requires |t| <= |s| && t == s[|s| - |t|..]
    requires forall i :: 0 <= i < |s| - |t| ==> IsJsWhitespace(s[i])
    requires |t| > 0 ==> !IsJsWhitespace(t[0])
    requires |r| <= |t| && r == t[..|r|]
    requires forall i :: |r| <= i < |t| ==> IsJsWhitespace(t[i])
    ensures |r| > 0 ==> !IsJsWhitespace(r[0])
    ensures SliceWithinWhitespace(s, r, |s| - |t|)
  {
    var lo := |s| - |t|;
    assert t == s[lo..];
    assert r == t[..|r|];
    forall i | 0 <= i < |r|
      ensures r[i] == s[lo + i]
    {
      assert r[i] == t[i];
    }
    assert r == s[lo..lo + |r|];
    if |r| > 0 {
      assert r[0] == t[0];
    }
    forall i | lo + |r| <= i < |s|
      ensures IsJsWhitespace(s[i])
    {
      assert s[i] == t[i - lo];
    }
  }

  /** Trimming an already trimmed string changes nothing. */
  lemma TrimIdempotent(s: string)
    ensures Trim(Trim(s)) == Trim(s)
  {
  }

  /** `toLowerCase` on one character, for the ASCII letters A-Z. */
  function LowerChar(c: char): char {
    if 'A' <= c <= 'Z' then (c as int + 32) as char else c
  }

  /** `s.toLowerCase()`, restricted to ASCII letters. */
  function Lower(s: string): (r: string)
    ensures |r| == |s|
    ensures forall i :: 0 <= i < |s| ==> r[i] == LowerChar(s[i])
  {
    seq(|s|, i requires 0 <= i < |s| => LowerChar(s[i]))
  }

  /** Lower-casing leaves no upper-case ASCII letter and keeps every other character. */
  lemma LowerCharMeaning(c: char)
    ensures !('A' <= LowerChar(c) <= 'Z')
    ensures !('A' <= c <= 'Z') ==> LowerChar(c) == c
    ensures 'A' <= c <= 'Z' ==> LowerChar(c) as int == c as int + 32
  {
  }

  /** Lower-casing is idempotent. */
  lemma LowerIdempotent(s: string)
    ensures Lower(Lower(s)) == Lower(s)
  {
  }

  /** `needle` occurs in `hay` starting at index `i`. */
  ghost predicate OccursAt(hay: string, needle: string, i: int) {
    0 <= i && i + |needle| <= |hay| && hay[i..i + |needle|] == needle
  }

  /** `hay.includes(needle)`: some position of `hay` starts an occurrence of `needle`. */
  function Includes(hay: string, needle: string): (r: bool)
    ensures r <==> exists i :: OccursAt(hay, needle, i)
    decreases |hay|
  {
    if |needle| > |hay| then false
    else if hay[..|needle|] == needle then (assert OccursAt(hay, needle, 0); true)
    else
      var r := Includes(hay[1..], needle);
      assert forall i :: OccursAt(hay[1..], needle, i) <==> OccursAt(hay, needle, i + 1) by {
        forall i ensures OccursAt(hay[1..], needle, i) <==> OccursAt(hay, needle, i + 1) {
          if 0 <= i && i + |needle| <= |hay[1..]| {
            assert hay[1..][i..i + |needle|] == hay[i + 1..i + 1 + |needle|];
          }
        }
      }
      assert !OccursAt(hay, needle, 0);
      assert forall i :: OccursAt(hay, needle, i) ==> OccursAt(hay[1..], needle, i - 1);
      r
  }

  /** The empty string is included in every string. */
  lemma IncludesEmpty(hay: string)
    ensures Includes(hay, "")
  {
  }

  /** A string lacking the first character of `needle` does not include it. */
  lemma NotIncludesMissingChar(hay: string, needle: string)
    requires |needle| > 0 && needle[0] !in hay
    ensures !Includes(hay, needle)
  {
  }

  /** The value of a decimal digit character. */
  function DigitValue(c: char): nat
    requires '0' <= c <= '9'
  {
    c as int - '0' as int
  }

  /** The number a string of decimal digits denotes. */
  function DecimalValue(s: string): nat
    requires forall i :: 0 <= i < |s| ==> '0' <= s[i] <= '9'
  {
    if |s| == 0 then 0 else DecimalValue(s[..|s| - 1]) * 10 + DigitValue(s[|s| - 1])
  }

  /**
    `String(n)` for a non-negative integer: its shortest decimal rendering, which
    reads back as `n`.
   */
  function NatToString(n: nat): (r: string)
    ensures |r| >= 1
    ensures forall i :: 0 <= i < |r| ==> '0' <= r[i] <= '9'
    ensures r[0] == '0' ==> n == 0 && |r| == 1
    ensures DecimalValue(r) == n
  {
    var d := ['0' + (n % 10) as char];
    if n < 10 then d
    else
      var prefix := NatToString(n / 10);
      var r := prefix + d;
      assert r[..|r| - 1] == prefix;
      r
  }

  /** `String(b)` for a boolean. */
  function BoolToString(b: bool): (r: string)
    ensures r == "true" <==> b
    ensures r == "false" <==> !b
  {
    if b then "true" else "false"
  }
}
