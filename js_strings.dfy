/**
 * The JavaScript string operations the route handlers rely on:
 * `String.prototype.trim`, `toLowerCase`, `padStart` and the decimal
 * rendering of integral numbers by `String(n)`.
 */
module JsStrings {

  import opened Options

  /** The WhiteSpace and LineTerminator code points of ECMAScript: exactly
      the set that the regular-expression class `\s` matches and that
      `String.prototype.trim` removes. */
  predicate IsWhiteSpace(c: char) {
    c == '\t' || c == '\n' || c == '\U{B}' || c == '\U{C}' || c == '\r' || c == ' '
    || c == '\U{A0}' || c == '\U{1680}' || ('\U{2000}' <= c <= '\U{200A}')
    || c == '\U{2028}' || c == '\U{2029}' || c == '\U{202F}' || c == '\U{205F}'
    || c == '\U{3000}' || c == '\U{FEFF}'
  }

  ghost predicate AllWhiteSpace(s: string) {
    forall k :: 0 <= k < |s| ==> IsWhiteSpace(s[k])
  }

  /** Neither the first nor the last character is white space. */
  predicate NoOuterWhiteSpace(s: string) {
    s == [] || (!IsWhiteSpace(s[0]) && !IsWhiteSpace(s[|s| - 1]))
  }

  /** Drops the leading white space. */
  function TrimStart(s: string): (r: string)
    ensures |r| <= |s| && r == s[|s| - |r|..]
    ensures AllWhiteSpace(s[..|s| - |r|])
    ensures r == [] || !IsWhiteSpace(r[0])
  {
    if s != [] && IsWhiteSpace(s[0]) then
      var r := TrimStart(s[1..]);
      assert s[..|s| - |r|] == [s[0]] + s[1..][..|s| - 1 - |r|];
      r
    else s
  }

  /** Drops the trailing white space. */
  function TrimEnd(s: string): (r: string)
    ensures |r| <= |s| && r == s[..|r|]
    ensures AllWhiteSpace(s[|r|..])
    ensures r == [] || !IsWhiteSpace(r[|r| - 1])
  {
    if s != [] && IsWhiteSpace(s[|s| - 1]) then
      var r := TrimEnd(s[..|s| - 1]);
      assert s[|r|..] == s[..|s| - 1][|r|..] + [s[|s| - 1]];
      r
    else s
  }

  /** `r` is the slice of `s` starting at `i`, and everything of `s` before
      and after it is white space. */
  ghost predicate SliceAmidWhiteSpace(s: string, r: string, i: int) {
    0 <= i <= |s| - |r| && r == s[i..i + |r|] && AllWhiteSpace(s[..i]) && AllWhiteSpace(s[i + |r|..])
  }

  /** `String.prototype.trim`: the result is the part of `s` left once the
      white space on both ends is removed. */
  function Trim(s: string): (r: string)
    ensures NoOuterWhiteSpace(r)
    ensures exists i :: SliceAmidWhiteSpace(s, r, i)
  {
    var t := TrimStart(s);
    var r := TrimEnd(t);
    TrimmedSlice(s, t, r);
    r
  }

  /** Cutting white space off the front of `s` and then off the back leaves
      a slice of `s` that starts where the first cut ended. */
  lemma TrimmedSlice(s: string, t: string, r: string)
    requires |t| <= |s| && t == s[|s| - |t|..] && AllWhiteSpace(s[..|s| - |t|])
    requires t == [] || !IsWhiteSpace(t[0])
    requires |r| <= |t| && r == t[..|r|] && AllWhiteSpace(t[|r|..])
    ensures r == [] || !IsWhiteSpace(r[0])
    ensures SliceAmidWhiteSpace(s, r, |s| - |t|)
  {
    var i := |s| - |t|;
    assert s[i + |r|..] == t[|r|..];
  }

  /** A string is left unchanged by `trim` exactly when it has no white space
      on either end; in particular `trim` is idempotent. */
  lemma TrimFixedPoint(s: string)
    ensures Trim(s) == s <==> NoOuterWhiteSpace(s)
    ensures Trim(Trim(s)) == Trim(s)
  {
  }

  /** `trim` yields the empty string exactly for strings made only of white
      space (the empty string included). */
  lemma TrimEmptyIffAllWhiteSpace(s: string)
    ensures Trim(s) == [] <==> AllWhiteSpace(s)
  {
    var r := Trim(s);
    var i :| SliceAmidWhiteSpace(s, r, i);
    if r == [] {
      forall k | 0 <= k < |s| ensures IsWhiteSpace(s[k]) {
        if k < i { assert s[..i][k] == s[k]; } else { assert s[i..][k - i] == s[k]; }
      }
    }
  }

  /** A concatenation starting and ending without white space has none on either end. */
  lemma NoOuterWhiteSpaceConcat(a: string, b: string)
    requires a != [] && b != [] && !IsWhiteSpace(a[0]) && !IsWhiteSpace(b[|b| - 1])
    ensures NoOuterWhiteSpace(a + b)
  {
    assert (a + b)[0] == a[0] && (a + b)[|a + b| - 1] == b[|b| - 1];
  }

  predicate IsUpper(c: char) { 'A' <= c <= 'Z' }

  /** The lower-case letter of an ASCII capital; every other character is kept. */
  function LowerChar(c: char): char {
    if IsUpper(c) then (c as int + 32) as char else c
  }

  predicate IsLowerCase(s: string) {
    forall k :: 0 <= k < |s| ==> !IsUpper(s[k])
  }

  /** Two characters that are equal, or the capital and small form of one letter. */
  predicate SameLetter(c: char, d: char) {
    c == d || (IsUpper(c) && d as int == c as int + 32) || (IsUpper(d) && c as int == d as int + 32)
  }

  /** Two strings that differ at most in the case of their letters. */
  ghost predicate EqualIgnoringCase(a: string, b: string) {
    |a| == |b| && forall k :: 0 <= k < |a| ==> SameLetter(a[k], b[k])
  }

  /** `String.prototype.toLowerCase`, on the ASCII letters: the same string
      up to letter case, with no capital left. */
  function Lower(s: string): (r: string)
    ensures |r| == |s| && IsLowerCase(r) && EqualIgnoringCase(s, r)
  {
    seq(|s|, k requires 0 <= k < |s| => LowerChar(s[k]))
  }

  /** `toLowerCase` yields a lower-case string of the same length, and
      lowering twice is lowering once. */
  lemma LowerIsLowerCase(s: string)
    ensures |Lower(s)| == |s| && IsLowerCase(Lower(s))
    ensures Lower(Lower(s)) == Lower(s)
    ensures IsLowerCase(s) ==> Lower(s) == s
  {
  }

  /** Two strings have the same lower-case form exactly when they differ
      only in the case of their letters. */
  lemma LowerEqualIffEqualIgnoringCase(a: string, b: string)
    ensures Lower(a) == Lower(b) <==> EqualIgnoringCase(a, b)
  {
    if Lower(a) == Lower(b) {
      forall k | 0 <= k < |a| ensures SameLetter(a[k], b[k]) {
        assert Lower(a)[k] == Lower(b)[k];
      }
    }
  }

  predicate IsDigit(c: char) { '0' <= c <= '9' }

  ghost predicate AllDigits(s: string) {
    forall k :: 0 <= k < |s| ==> IsDigit(s[k])
  }

  function DigitChar(d: nat): (c: char)
    requires d < 10
    ensures IsDigit(c)
  {
    ('0' as int + d) as char
  }

  function DigitValue(c: char): (d: nat)
    requires IsDigit(c)
    ensures d < 10 && DigitChar(d) == c
  {
    c as int - '0' as int
  }

  /** The decimal digits of `n` without leading zeros, as `String(n)` writes
      a non-negative integer. */
  function NatToDecimal(n: nat): (r: string)
    ensures |r| >= 1 && AllDigits(r)
    ensures r[0] == '0' ==> n == 0
  {
    if n < 10 then [DigitChar(n)] else NatToDecimal(n / 10) + [DigitChar(n % 10)]
  }

  /** The value of a string of decimal digits. */
  function DecimalValue(s: string): nat
    requires AllDigits(s)
  {
    if s == [] then 0 else DecimalValue(s[..|s| - 1]) * 10 + DigitValue(s[|s| - 1])
  }

  /** Reading back the digits `NatToDecimal` writes gives the number again. */
  lemma {:induction false} DecimalRoundTrip(n: nat)
    ensures DecimalValue(NatToDecimal(n)) == n
  {
    if n >= 10 {
      DecimalRoundTrip(n / 10);
      var r := NatToDecimal(n);
      assert r[..|r| - 1] == NatToDecimal(n / 10);
    }
  }

  /** A number below 100 takes at most two digits; one from 1000 to 9999 takes four. */
  lemma DecimalLength(n: nat)
    ensures n < 10 ==> |NatToDecimal(n)| == 1
    ensures 10 <= n < 100 ==> |NatToDecimal(n)| == 2
    ensures 1000 <= n < 10000 ==> |NatToDecimal(n)| == 4
  {
    if n >= 10 {
      DecimalLength(n / 10);
      if n >= 1000 {
        DecimalLength(n / 100);
        DecimalLength(n / 1000);
      }
    }
  }

  /** `String(n)` for an integral number (a minus sign before the digits of
      a negative one). */
  function NumberToString(n: int): (r: string)
    ensures |r| >= 1 && IsDigit(r[|r| - 1]) && (IsDigit(r[0]) || r[0] == '-')
  {
    if n < 0 then "-" + NatToDecimal(-n) else NatToDecimal(n)
  }

  /** Reads an optionally signed decimal integer; the partner of `NumberToString`. */
  function ParseInteger(s: string): Option<int> {
    if |s| > 1 && s[0] == '-' && AllDigitsFrom(s, 1) then Some(0 - DecimalValue(s[1..]) as int)
    else if |s| >= 1 && AllDigitsFrom(s, 0) then Some(DecimalValue(s))
    else None
  }

  predicate AllDigitsFrom(s: string, i: nat)
    ensures AllDigitsFrom(s, i) ==> i <= |s| && AllDigits(s[i..])
  {
    i <= |s| && forall k | i <= k < |s| :: IsDigit(s[k])
  }

  /** `ParseInteger` on a minus sign followed by digits. */
  lemma ParseNegative(d: string)
    requires |d| >= 1 && AllDigits(d)
    ensures ParseInteger("-" + d) == Some(0 - DecimalValue(d) as int)
  {
    var s := "-" + d;
    assert s[1..] == d;
    assert AllDigitsFrom(s, 1) by {
      forall k | 1 <= k < |s| ensures IsDigit(s[k]) { assert s[k] == d[k - 1]; }
    }
  }

  /** `ParseInteger` on a string of digits. */
  lemma ParseDigits(d: string)
    requires |d| >= 1 && AllDigits(d)
    ensures ParseInteger(d) == Some(DecimalValue(d) as int)
  {
    assert d[0] != '-' && d[0..] == d;
    assert AllDigitsFrom(d, 0);
  }

  /** `ParseInteger` inverts `NumberToString` on every integer. */
  lemma NumberRoundTrip(n: int)
    ensures ParseInteger(NumberToString(n)) == Some(n)
  {
    if n < 0 {
      var d := NatToDecimal(-n);
      DecimalRoundTrip(-n);
      ParseNegative(d);
    } else {
      var d := NatToDecimal(n);
      DecimalRoundTrip(n);
      ParseDigits(d);
    }
  }

  /** `s.padStart(width, fill)` for a one-character fill string: `fill`
      repeated in front of `s` until the whole is `width` long. */
  function PadStart(s: string, width: nat, fill: char): (r: string)
    ensures |r| == if |s| >= width then |s| else width
    ensures forall k :: 0 <= k < |s| ==> r[|r| - |s| + k] == s[k]
    ensures forall k :: 0 <= k < |r| - |s| ==> r[k] == fill
  {
    if |s| >= width then s else seq(width - |s|, _ => fill) + s
  }
}
