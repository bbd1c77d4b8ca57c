/**
 * Decimal text of non-negative integers: `Number#toString()` as used for
 * article ids, and `parseInt` applied to a string of decimal digits.
 */
module Decimal {

  predicate IsDigit(c: char) {
    '0' <= c <= '9'
  }

  predicate IsDigits(s: string) {
    forall i :: 0 <= i < |s| ==> IsDigit(s[i])
  }

  /** Canonical decimal text: at least one digit, and no leading zero unless it is "0". */
  predicate IsCanonical(s: string) {
    IsDigits(s) && |s| >= 1 && (|s| == 1 || s[0] != '0')
  }

  function DigitChar(d: nat): (c: char)
    requires d < 10
    ensures IsDigit(c)
  {
    (48 + d) as char
  }

  function DigitValue(c: char): (d: nat)
    requires IsDigit(c)
    ensures d < 10 && DigitChar(d) == c
  {
    c as int - 48
  }

  function Pow10(k: nat): (p: nat)
    ensures p >= 1
  {
    if k == 0 then 1 else 10 * Pow10(k - 1)
  }

  /** `n.toString()` for an integer `n >= 0`. */
  function ToDecimal(n: nat): (s: string)
    ensures IsCanonical(s)
    ensures n > 0 ==> s[0] != '0'
  {
    if n < 10 then [DigitChar(n)] else ToDecimal(n / 10) + [DigitChar(n % 10)]
  }

  /** `parseInt(s)` for a non-empty string of decimal digits. */
  function Value(s: string): nat
    requires IsDigits(s)
  {
    if s == [] then 0 else Value(s[..|s| - 1]) * 10 + DigitValue(s[|s| - 1])
  }

  /** Parsing the printed number gives the number back. */
  lemma {:induction false} ValueOfToDecimal(n: nat)
    ensures Value(ToDecimal(n)) == n
  {
    if n >= 10 {
      ValueOfToDecimal(n / 10);
      var s := ToDecimal(n);
      assert s[..|s| - 1] == ToDecimal(n / 10);
    }
  }

  /** A canonical digit string of length k+1 denotes a number with k+1 digits. */
  lemma {:induction false} ValueBounds(s: string)
    requires IsCanonical(s)
    ensures |s| > 1 ==> Pow10(|s| - 1) <= Value(s)
    ensures Value(s) < Pow10(|s|)
    decreases |s|
  {
    if |s| > 1 {
      var p := s[..|s| - 1];
      assert p[0] == s[0];
      ValueBounds(p);
      if |p| == 1 {
        assert Value(p) == DigitValue(s[0]) >= 1;
      }
    }
  }

  /** Printing the parsed number gives the text back, so distinct ids denote distinct numbers. */
  lemma {:induction false} ToDecimalOfValue(s: string)
    requires IsCanonical(s)
    ensures ToDecimal(Value(s)) == s
    decreases |s|
  {
    if |s| > 1 {
      var p := s[..|s| - 1];
      assert p[0] == s[0];
      ValueBounds(p);
      if |p| == 1 {
        assert Value(p) == DigitValue(s[0]) >= 1;
      }
      ToDecimalOfValue(p);
      assert s == p + [s[|s| - 1]];
    }
  }

  /** A number with k+1 digits prints as k+1 characters. */
  lemma {:induction false} ToDecimalLength(n: nat, k: nat)
    requires Pow10(k) <= n < Pow10(k + 1)
    ensures |ToDecimal(n)| == k + 1
  {
    if k > 0 {
      ToDecimalLength(n / 10, k - 1);
    }
  }
}
