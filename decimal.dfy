/** Decimal text of integers, as Python's `str(int)` and the zero-padded `%Y`/`%m` fields print it. */
module Decimal {

  predicate IsDigit(c: char) {
    '0' <= c <= '9'
  }

  predicate AllDigits(s: string) {
    forall i :: 0 <= i < |s| ==> IsDigit(s[i])
  }

  function DigitChar(n: nat): (c: char)
    requires n < 10
    ensures IsDigit(c)
  {
    ('0' as int + n) as char
  }

  function DigitValue(c: char): (n: nat)
    requires IsDigit(c)
    ensures n < 10
  {
    c as int - '0' as int
  }

  /** `str(n)` for a non-negative integer: shortest decimal text, no sign. */
  function NatToString(n: nat): (s: string)
    ensures |s| >= 1 && AllDigits(s)
    ensures n >= 10 <==> |s| >= 2
    ensures |s| >= 2 ==> s[0] != '0'
  {
    if n < 10 then [DigitChar(n)]
    else NatToString(n / 10) + [DigitChar(n % 10)]
  }

  /** The number a string of decimal digits denotes (leading zeros allowed). */
  function DigitsValue(s: string): nat
    requires AllDigits(s)
  {
    if s == [] then 0
    else DigitsValue(s[..|s| - 1]) * 10 + DigitValue(s[|s| - 1])
  }

  /** Reading the printed text back gives the number. */
  lemma {:induction false} NatToStringRoundTrip(n: nat)
    ensures DigitsValue(NatToString(n)) == n
  {
    if n >= 10 {
      NatToStringRoundTrip(n / 10);
      var s := NatToString(n);
      assert s[..|s| - 1] == NatToString(n / 10);
    }
  }

  /** Distinct numbers print as distinct texts. */
  lemma NatToStringInjective(a: nat, b: nat)
    requires NatToString(a) == NatToString(b)
    ensures a == b
  {
    NatToStringRoundTrip(a);
    NatToStringRoundTrip(b);
  }

  /** `str(i)` for any integer: a leading `-` for negatives. */
  function IntToString(i: int): (s: string)
    ensures i >= 0 ==> s == NatToString(i)
    ensures i < 0 ==> s == "-" + NatToString(-i)
  {
    if i < 0 then "-" + NatToString(-i) else NatToString(i)
  }

  function Pow10(d: nat): (r: nat)
    ensures r >= 1
  {
    if d == 0 then 1 else 10 * Pow10(d - 1)
  }

  /** `n` printed in exactly `width` digits, zeros in front (`%04d`, `%02d`),
      for a number that fits. */
  function FixedDigits(n: nat, width: nat): (s: string)
    requires n < Pow10(width)
    ensures |s| == width && AllDigits(s)
  {
    if width == 0 then ""
    else FixedDigits(n / 10, width - 1) + [DigitChar(n % 10)]
  }

  /** Reading fixed-width digits back gives the number. */
  lemma {:induction false} FixedDigitsRoundTrip(n: nat, width: nat)
    requires n < Pow10(width)
    ensures DigitsValue(FixedDigits(n, width)) == n
  {
    if width > 0 {
      FixedDigitsRoundTrip(n / 10, width - 1);
      var s := FixedDigits(n, width);
      assert s[..|s| - 1] == FixedDigits(n / 10, width - 1);
    }
  }

  /** Every digit string is the fixed-width text of the number it denotes. */
  lemma {:induction false} DigitsFixedRoundTrip(t: string)
    requires AllDigits(t)
    ensures DigitsValue(t) < Pow10(|t|)
    ensures FixedDigits(DigitsValue(t), |t|) == t
  {
    if t != [] {
      var p, c := t[..|t| - 1], t[|t| - 1];
      assert AllDigits(p);
      DigitsFixedRoundTrip(p);
      var v := DigitsValue(t);
      assert v / 10 == DigitsValue(p) && v % 10 == DigitValue(c);
      assert DigitChar(DigitValue(c)) == c;
      assert t == p + [c];
    }
  }

  /** A number of at least `10^d` takes more than `d` digits. */
  lemma {:induction false} NatToStringLength(n: nat, d: nat)
    requires n >= Pow10(d)
    ensures |NatToString(n)| > d
  {
    if d > 0 {
      NatToStringLength(n / 10, d - 1);
    }
  }
}
