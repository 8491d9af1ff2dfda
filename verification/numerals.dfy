/** Decimal text of integers: Python's str(n) for an int, str.zfill, and the
    digit reading a date parser does. */
module Numerals {

  predicate IsDigit(c: char) {
    '0' <= c <= '9'
  }

  predicate AllDigits(s: string) {
    forall i :: 0 <= i < |s| ==> IsDigit(s[i])
  }

  predicate AllZeros(s: string) {
    forall i :: 0 <= i < |s| ==> s[i] == '0'
  }

  function DigitChar(d: nat): (c: char)
    requires d < 10
    ensures IsDigit(c)
  {
    ('0' as int + d) as char
  }

  function DigitValue(c: char): (d: nat)
    requires IsDigit(c)
    ensures d < 10
  {
    c as int - '0' as int
  }

  function Pow10(k: nat): (p: nat)
    ensures p >= 1
  {
    if k == 0 then 1 else 10 * Pow10(k - 1)
  }

  /** Decimal digits of n with no leading zero, as Python's str(n) for n >= 0. */
  function Digits(n: nat): (s: string)
    ensures |s| >= 1 && AllDigits(s)
    ensures |s| > 1 ==> s[0] != '0'
  {
    if n < 10 then [DigitChar(n)] else Digits(n / 10) + [DigitChar(n % 10)]
  }

  /** Python's str(i) for an int. */
  function IntText(i: int): string {
    if i < 0 then "-" + Digits(-i) else Digits(i)
  }

  /** The number a string of decimal digits denotes; the empty string reads as 0. */
  function ParseDigits(s: string): nat
    requires AllDigits(s)
  {
    if |s| == 0 then 0 else 10 * ParseDigits(s[..|s| - 1]) + DigitValue(s[|s| - 1])
  }

  function Zeros(k: nat): (z: string)
    ensures |z| == k && AllZeros(z) && AllDigits(z)
  {
    if k == 0 then "" else "0" + Zeros(k - 1)
  }

  /** Python's s.zfill(width): pad on the left with '0' up to width,
      keeping a leading sign in front of the padding. */
  function ZFill(s: string, width: nat): (r: string)
    ensures |r| == if |s| >= width then |s| else width
  {
    if |s| >= width then s
    else if |s| > 0 && (s[0] == '+' || s[0] == '-') then [s[0]] + Zeros(width - |s|) + s[1..]
    else Zeros(width - |s|) + s
  }

  /** Reading back the digits of n gives n. */
  lemma {:induction false} ParseDigitsOfDigits(n: nat)
    ensures ParseDigits(Digits(n)) == n
  {
    if n >= 10 {
      var s := Digits(n);
      assert s[..|s| - 1] == Digits(n / 10);
      ParseDigitsOfDigits(n / 10);
    }
  }

  lemma {:induction false} ParseZeros(z: string)
    requires AllZeros(z)
    ensures AllDigits(z) && ParseDigits(z) == 0
  {
    if |z| > 0 {
      ParseZeros(z[..|z| - 1]);
    }
  }

  /** Leading zeros do not change the number a digit string denotes. */
  lemma {:induction false} ParseIgnoresLeadingZeros(z: string, s: string)
    requires AllZeros(z) && AllDigits(s)
    ensures AllDigits(z + s) && ParseDigits(z + s) == ParseDigits(s)
  {
    if |s| == 0 {
      assert z + s == z;
      ParseZeros(z);
    } else {
      assert (z + s)[..|z + s| - 1] == z + s[..|s| - 1];
      ParseIgnoresLeadingZeros(z, s[..|s| - 1]);
    }
  }

  /** Zero-padding a digit string keeps it a digit string for the same number. */
  lemma ZFillKeepsValue(s: string, width: nat)
    requires AllDigits(s)
    ensures AllDigits(ZFill(s, width)) && ParseDigits(ZFill(s, width)) == ParseDigits(s)
  {
    if |s| < width {
      ParseIgnoresLeadingZeros(Zeros(width - |s|), s);
    }
  }

  /** str(i) starts with a minus sign exactly when i is negative, and the
      rest of it is a digit string that reads back as the magnitude of i. */
  lemma IntTextReads(i: int)
    ensures var s := IntText(i);
      && ((|s| > 0 && s[0] == '-') <==> i < 0)
      && (i >= 0 ==> AllDigits(s) && ParseDigits(s) == i)
      && (i < 0 ==> AllDigits(s[1..]) && ParseDigits(s[1..]) == -i)
  {
    if i < 0 {
      ParseDigitsOfDigits(-i);
      assert IntText(i)[1..] == Digits(-i);
    } else {
      ParseDigitsOfDigits(i);
    }
  }

  /** Digits(n) is at most k long exactly when n is below 10^k. */
  lemma {:induction false} DigitsLength(n: nat, k: nat)
    requires k >= 1
    ensures |Digits(n)| <= k <==> n < Pow10(k)
  {
    if n >= 10 {
      if k == 1 {
        assert |Digits(n)| == |Digits(n / 10)| + 1;
      } else {
        DigitsLength(n / 10, k - 1);
      }
    }
  }
}
