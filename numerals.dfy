/**
 * Digit strings: the value of a run of digits in a radix, and the decimal
 * rendering of a natural number. These are what `parseInt` reads and what a
 * template literal writes when the employee-ID counter is bumped.
 */
module Numerals {

  /** An ASCII decimal digit: what `\d` matches in a regular expression. */
  predicate IsDigit(c: char) {
    '0' <= c <= '9'
  }

  /**
   * The value of a character as a digit in radices up to 36, letters of either
   * case standing for 10..35; 36 for a character that is a digit in no radix.
   */
  function DigitValue(c: char): (d: nat)
    ensures d <= 36
    ensures d < 10 <==> IsDigit(c)
  {
    if '0' <= c <= '9' then (c as int) - ('0' as int)
    else if 'a' <= c <= 'z' then (c as int) - ('a' as int) + 10
    else if 'A' <= c <= 'Z' then (c as int) - ('A' as int) + 10
    else 36
  }

  predicate IsRadixDigit(c: char, radix: nat) {
    DigitValue(c) < radix
  }

  predicate AllRadixDigits(s: string, radix: nat) {
    forall k :: 0 <= k < |s| ==> IsRadixDigit(s[k], radix)
  }

  /** A string of decimal digits: the digits of radix 10 are exactly `\d`. */
  predicate AllDigits(s: string) {
    AllRadixDigits(s, 10)
  }

  /** The value of a digit string in the given radix, most significant digit first. */
  function Value(s: string, radix: nat): nat
    requires AllRadixDigits(s, radix)
    decreases |s|
  {
    if s == [] then 0
    else Value(s[..|s| - 1], radix) * radix + DigitValue(s[|s| - 1])
  }

  function DigitChar(d: nat): (c: char)
    requires d < 10
    ensures IsDigit(c) && DigitValue(c) == d
  {
    (('0' as int) + d) as char
  }

  /** A decimal rendering without superfluous leading zeros. */
  predicate IsCanonical(s: string) {
    |s| > 0 && AllDigits(s) && (s[0] != '0' || |s| == 1)
  }

  /** The decimal rendering of `n`, as JavaScript writes a non-negative integer below 1e21. */
  function Format(n: nat): (r: string)
    ensures IsCanonical(r)
    decreases n
  {
    if n < 10 then [DigitChar(n)]
    else Format(n / 10) + [DigitChar(n % 10)]
  }

  /** Reading back a rendering gives the number rendered. */
  lemma {:induction false} ValueOfFormat(n: nat)
    ensures Value(Format(n), 10) == n
    decreases n
  {
    var s := Format(n);
    if n >= 10 {
      ValueOfFormat(n / 10);
      assert s[..|s| - 1] == Format(n / 10);
    }
  }

  /** A digit string has value zero exactly when every digit is `0`. */
  lemma {:induction false} ValueZeroIff(s: string)
    requires AllDigits(s)
    ensures Value(s, 10) == 0 <==> forall k :: 0 <= k < |s| ==> s[k] == '0'
    decreases |s|
  {
    if s != [] {
      var p := s[..|s| - 1];
      ValueZeroIff(p);
      assert forall k :: 0 <= k < |p| ==> p[k] == s[k];
    }
  }

  /** Rendering the value of a canonical digit string gives the string back. */
  lemma {:induction false} FormatOfValue(s: string)
    requires IsCanonical(s)
    ensures Format(Value(s, 10)) == s
    decreases |s|
  {
    if |s| > 1 {
      var p := s[..|s| - 1];
      assert p[0] == s[0];
      FormatOfValue(p);
      ValueZeroIff(p);
      var v := Value(s, 10);
      assert v == Value(p, 10) * 10 + DigitValue(s[|s| - 1]);
      assert Value(p, 10) != 0;
      assert v / 10 == Value(p, 10) && v % 10 == DigitValue(s[|s| - 1]);
      assert DigitChar(v % 10) == s[|s| - 1];
      assert s == p + [s[|s| - 1]];
    }
  }

  /** Leading zeros do not change the value of a digit string. */
  lemma {:induction false} ValueLeadingZero(s: string)
    requires AllDigits(s)
    ensures AllDigits("0" + s) && Value("0" + s, 10) == Value(s, 10)
    decreases |s|
  {
    assert AllDigits("0" + s);
    if s != [] {
      var p := s[..|s| - 1];
      ValueLeadingZero(p);
      assert ("0" + s)[..|s|] == "0" + p;
    }
  }

  /** Two different numbers never render the same way. */
  lemma FormatInjective(m: nat, n: nat)
    requires Format(m) == Format(n)
    ensures m == n
  {
    ValueOfFormat(m);
    ValueOfFormat(n);
  }

}
