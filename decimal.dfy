/**
 * Decimal rendering of a natural number, as Rust's `format!("{port}")`
 * writes an unsigned integer: the shortest run of ASCII digits, most
 * significant first, with no sign, padding or leading zero.
 */
module Decimal {

  predicate IsDigit(c: char) {
    '0' <= c <= '9'
  }

  predicate IsDigits(s: string) {
    forall i :: 0 <= i < |s| ==> IsDigit(s[i])
  }

  /** A non-empty digit string with no leading zero, except the text "0" itself. */
  predicate IsCanonical(s: string) {
    |s| >= 1 && IsDigits(s) && (s[0] == '0' ==> |s| == 1)
  }

  function Pow10(k: nat): (p: nat)
    ensures p >= 1
  {
    if k == 0 then 1 else 10 * Pow10(k - 1)
  }

  function DigitValue(c: char): (d: nat)
    requires IsDigit(c)
    ensures d < 10
  {
    (c as int) - ('0' as int)
  }

  function DigitChar(d: nat): (c: char)
    requires d < 10
    ensures IsDigit(c) && DigitValue(c) == d
  {
    (('0' as int) + d) as char
  }

  /** The decimal text of `n`. */
  function NatToDecimal(n: nat): (s: string)
    ensures IsCanonical(s)
    ensures n < 10 <==> |s| == 1
  {
    if n < 10 then [DigitChar(n)] else NatToDecimal(n / 10) + [DigitChar(n % 10)]
  }

  /** The number a digit string denotes; the reference reading of decimal text. */
  function DecimalValue(s: string): nat
    requires IsDigits(s)
  {
    if |s| == 0 then 0 else 10 * DecimalValue(s[..|s| - 1]) + DigitValue(s[|s| - 1])
  }

  /** Reading the rendered text back gives the number that was rendered. */
  lemma {:induction false} DecimalRoundTrip(n: nat)
    ensures DecimalValue(NatToDecimal(n)) == n
  {
    var s := NatToDecimal(n);
    if n >= 10 {
      DecimalRoundTrip(n / 10);
      assert s[..|s| - 1] == NatToDecimal(n / 10);
    }
  }

  /** A digit string whose first digit is not zero denotes at least 10^(length-1). */
  lemma {:induction false} LeadingDigitLowerBound(s: string)
    requires IsDigits(s) && |s| >= 1 && s[0] != '0'
    ensures DecimalValue(s) >= Pow10(|s| - 1)
  {
    if |s| > 1 {
      var t := s[..|s| - 1];
      assert t[0] == s[0];
      LeadingDigitLowerBound(t);
    } else {
      assert DigitValue(s[0]) != 0;
    }
  }

  /**
   * The rendering is the only canonical text for its number: any digit
   * string without a leading zero is the rendering of the number it denotes.
   */
  lemma {:induction false} CanonicalIsRendering(s: string)
    requires IsCanonical(s)
    ensures s == NatToDecimal(DecimalValue(s))
  {
    var n := DecimalValue(s);
    if |s| == 1 {
      assert s == [s[0]];
      assert DigitChar(DigitValue(s[0])) == s[0];
    } else {
      var t := s[..|s| - 1];
      assert t[0] == s[0];
      LeadingDigitLowerBound(t);
      assert n / 10 == DecimalValue(t) && n % 10 == DigitValue(s[|s| - 1]);
      CanonicalIsRendering(t);
      assert DigitChar(DigitValue(s[|s| - 1])) == s[|s| - 1];
      assert s == t + [s[|s| - 1]];
    }
  }

  /** Two numbers with the same rendering are equal. */
  lemma RenderingInjective(m: nat, n: nat)
    requires NatToDecimal(m) == NatToDecimal(n)
    ensures m == n
  {
    DecimalRoundTrip(m);
    DecimalRoundTrip(n);
  }

  /** A number below 10^k takes at most k digits. */
  lemma {:induction false} RenderingLength(n: nat, k: nat)
    requires 1 <= k && n < Pow10(k)
    ensures |NatToDecimal(n)| <= k
  {
    if n >= 10 {
      assert Pow10(1) == 10;
      RenderingLength(n / 10, k - 1);
    }
  }
}
