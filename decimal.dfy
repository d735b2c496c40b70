/** Decimal text of integers: what `Number.prototype.toString()` yields for an
    integral number, and the reading of a digit string back into a number. */
module Decimal {

  predicate IsDigit(c: char) { '0' <= c <= '9' }

  predicate AllDigits(s: string) { forall k :: 0 <= k < |s| ==> IsDigit(s[k]) }

  function DigitChar(d: int): (c: char)
    requires 0 <= d < 10
    ensures IsDigit(c) && c as int - '0' as int == d
  {
    ('0' as int + d) as char
  }

  function DigitValue(c: char): (d: int)
    requires IsDigit(c)
    ensures 0 <= d < 10 && DigitChar(d) == c
  {
    c as int - '0' as int
  }

  /** The decimal text of `n`: a '-' sign before negatives, and no leading
      zero except for 0 itself. */
  function ToString(n: int): (r: string)
    decreases if n < 0 then 1 - n else n
    ensures |r| >= 1
    ensures n >= 0 <==> AllDigits(r)
    ensures n < 0 <==> r[0] == '-'
    ensures r[0] == '0' <==> n == 0
    ensures 0 <= n < 100 ==> |r| == if n < 10 then 1 else 2
  {
    if n < 0 then
      var r := "-" + ToString(-n);
      assert !IsDigit(r[0]);
      r
    else if n < 10 then [DigitChar(n)]
    else ToString(n / 10) + [DigitChar(n % 10)]
  }

  /** The number a string of decimal digits denotes (most significant first). */
  function DigitsValue(s: string): (v: nat)
    requires AllDigits(s)
  {
    if s == [] then 0 else 10 * DigitsValue(s[..|s| - 1]) + DigitValue(s[|s| - 1])
  }

  /** Reading the decimal text of a non-negative number gives the number back. */
  lemma {:induction false} ToStringRoundTrip(n: nat)
    ensures DigitsValue(ToString(n)) == n
  {
    if n >= 10 {
      var s := ToString(n / 10);
      ToStringRoundTrip(n / 10);
      assert ToString(n) == s + [DigitChar(n % 10)];
      assert (s + [DigitChar(n % 10)])[..|s|] == s;
    }
  }

  /** Leading zeros do not change the value of a digit string. */
  lemma {:induction false} LeadingZeroValue(s: string)
    requires AllDigits(s)
    ensures AllDigits("0" + s) && DigitsValue("0" + s) == DigitsValue(s)
  {
    if s != [] {
      var init := s[..|s| - 1];
      LeadingZeroValue(init);
      assert ("0" + s)[..|s|] == "0" + init;
    }
  }
}
