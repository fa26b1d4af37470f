/**
 * Character classes and the whitespace strip used on the manual entry path.
 * Python's `\d` and `str.strip()` work on Unicode; this model restricts both to
 * ASCII. For `\d` that loses nothing, because the OCR whitelist only produces ASCII
 * digits and `-`. For `strip()`, which runs on typed input, it is a simplification:
 * non-ASCII Unicode whitespace is not removed.
 */
module Ascii {

  predicate IsDigit(c: char) {
    '0' <= c <= '9'
  }

  /** The ASCII characters for which Python's `str.isspace()` holds:
      space, \t \n \v \f \r (9..13) and the separators 0x1C..0x1F. */
  predicate IsSpace(c: char) {
    c == ' ' || 9 <= c as int <= 13 || 28 <= c as int <= 31
  }

  function DigitChar(n: int): (c: char)
    requires 0 <= n <= 9
    ensures IsDigit(c)
  {
    ('0' as int + n) as char
  }

  function DigitValue(c: char): (n: int)
    requires IsDigit(c)
    ensures 0 <= n <= 9
  {
    c as int - '0' as int
  }

  /** Reading back the character written for a digit gives the digit. */
  lemma DigitCharInverse(n: int)
    requires 0 <= n <= 9
    ensures DigitValue(DigitChar(n)) == n
  {
  }

  /** Writing the value of a digit character gives the character back. */
  lemma DigitValueInverse(c: char)
    requires IsDigit(c)
    ensures DigitChar(DigitValue(c)) == c
  {
  }

  /** `s.lstrip()`: drops the leading whitespace. */
  function StripLeft(s: string): (r: string)
    ensures |r| <= |s| && r == s[|s| - |r|..]
    ensures forall k :: 0 <= k < |s| - |r| ==> IsSpace(s[k])
    ensures r == [] || !IsSpace(r[0])
  {
    if s != [] && IsSpace(s[0]) then StripLeft(s[1..]) else s
  }

  /** `s.rstrip()`: drops the trailing whitespace. */
  function StripRight(s: string): (r: string)
    ensures |r| <= |s| && r == s[..|r|]
    ensures forall k :: |r| <= k < |s| ==> IsSpace(s[k])
    ensures r == [] || !IsSpace(r[|r| - 1])
  {
    if s != [] && IsSpace(s[|s| - 1]) then StripRight(s[..|s| - 1]) else s
  }

  /** `s.strip()` */
  function Strip(s: string): (r: string)
    ensures |r| <= |s|
    ensures r == [] || (!IsSpace(r[0]) && !IsSpace(r[|r| - 1]))
  {
    StripRight(StripLeft(s))
  }

  /** The number of whitespace characters `strip` removes at the front. */
  function LeadingSpaces(s: string): (n: nat)
  {
    |s| - |StripLeft(s)|
  }

  /** What `strip` promises: the result is the piece of the input that starts after the
      leading whitespace, everything cut off on either side is whitespace, and neither end
      of the result is whitespace. */
  lemma StripSpec(s: string)
    ensures LeadingSpaces(s) + |Strip(s)| <= |s|
    ensures Strip(s) == s[LeadingSpaces(s)..LeadingSpaces(s) + |Strip(s)|]
    ensures forall k :: 0 <= k < LeadingSpaces(s) ==> IsSpace(s[k])
    ensures forall k :: LeadingSpaces(s) + |Strip(s)| <= k < |s| ==> IsSpace(s[k])
    ensures Strip(s) == [] || (!IsSpace(Strip(s)[0]) && !IsSpace(Strip(s)[|Strip(s)| - 1]))
  {
    var l := StripLeft(s);
    var r := StripRight(l);
    var i := |s| - |l|;
    assert r == l[..|r|];
    assert l == s[i..];
    assert r == s[i..i + |r|];
    forall k | i + |r| <= k < |s| ensures IsSpace(s[k]) {
      assert s[k] == l[k - i];
    }
    if r != [] {
      assert r[0] == l[0];
    }
  }

  /** Stripping is idempotent: a stripped string has nothing left to strip. */
  lemma StripIdempotent(s: string)
    ensures Strip(Strip(s)) == Strip(s)
  {
    var r := Strip(s);
    StripSpec(s);
    assert StripLeft(r) == r;
    assert StripRight(r) == r;
  }
}
