/** Decimal text of integers: Python's `str(i)` / `repr(i)` and the inverse used by
    `int(...)` when the JSON scanner reads an integer literal. */
module Decimal {

  predicate IsDigit(c: char) {
    '0' <= c <= '9'
  }

  predicate AllDigits(s: string) {
    forall i :: 0 <= i < |s| ==> IsDigit(s[i])
  }

  function DigitChar(d: nat): (c: char)
    requires d < 10
    ensures IsDigit(c) && DigitValue(c) == d
  {
    (('0' as int) + d) as char
  }

  function DigitValue(c: char): (d: nat)
    requires IsDigit(c)
    ensures d < 10
  {
    (c as int) - ('0' as int)
  }

  /** `str(n)` for a non-negative integer: at least one digit, and no leading zero
      unless the number is zero itself. */
  function NatRepr(n: nat): (s: string)
    ensures |s| >= 1 && AllDigits(s)
    ensures s[0] == '0' <==> n == 0
    ensures n < 10 <==> |s| == 1
    decreases n
  {
    if n < 10 then [DigitChar(n)] else NatRepr(n / 10) + [DigitChar(n % 10)]
  }

  /** The value of a run of decimal digits, most significant first. */
  function DigitsValue(s: string): nat
    requires AllDigits(s)
    decreases |s|
  {
    if s == [] then 0 else DigitsValue(s[..|s| - 1]) * 10 + DigitValue(s[|s| - 1])
  }

  /** Reading back the decimal text of `n` gives `n`. */
  lemma {:induction false} DigitsValueOfNatRepr(n: nat)
    ensures DigitsValue(NatRepr(n)) == n
    decreases n
  {
    var s := NatRepr(n);
    if n >= 10 {
      DigitsValueOfNatRepr(n / 10);
      assert s[..|s| - 1] == NatRepr(n / 10);
    }
  }

  /** Distinct numbers have distinct decimal texts. */
  lemma NatReprInjective(m: nat, n: nat)
    ensures NatRepr(m) == NatRepr(n) ==> m == n
  {
    DigitsValueOfNatRepr(m);
    DigitsValueOfNatRepr(n);
  }

  /** `repr(i)` for any Python int: a minus sign before the digits of a negative number. */
  function IntRepr(i: int): (s: string)
    ensures |s| >= 1
    ensures s[0] == '-' <==> i < 0
  {
    if i < 0 then "-" + NatRepr(-i) else NatRepr(i)
  }
}
