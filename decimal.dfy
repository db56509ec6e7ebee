/**
 * Decimal rendering of integers: Python's `str(n)` and the format `f"{n:02d}"`,
 * with the parsing function that inverts them.
 */
module Decimal {

  predicate IsDigit(c: char) {
    '0' <= c <= '9'
  }

  predicate AllDigits(s: string) {
    forall i :: 0 <= i < |s| ==> IsDigit(s[i])
  }

  function DigitChar(d: nat): (c: char)
    requires d < 10
    ensures IsDigit(c) && c as int - '0' as int == d
  {
    ('0' as int + d) as char
  }

  /** The value of a string of decimal digits (leading zeros allowed). */
  function DecimalValue(s: string): nat
    requires AllDigits(s)
  {
    if s == [] then 0
    else DecimalValue(s[..|s| - 1]) * 10 + (s[|s| - 1] as int - '0' as int)
  }

  /** `str(n)` for a natural number: its shortest decimal rendering. */
  function NatToDecimal(n: nat): (r: string)
    ensures 1 <= |r| && AllDigits(r)
    ensures DecimalValue(r) == n
    ensures |r| > 1 ==> r[0] != '0'
    decreases n
  {
    if n < 10 then [DigitChar(n)]
    else
      var prefix := NatToDecimal(n / 10);
      assert (prefix + [DigitChar(n % 10)])[..|prefix|] == prefix;
      prefix + [DigitChar(n % 10)]
  }

  /** `str(i)` for any integer: a minus sign before the magnitude when negative. */
  function IntToDecimal(i: int): string {
    if i < 0 then "-" + NatToDecimal(-i) else NatToDecimal(i)
  }

  /** `f"{n:02d}"`: the decimal rendering of `n`, left-padded with `0` to two digits. */
  function Pad2(n: nat): (r: string)
    ensures 2 <= |r| && AllDigits(r)
    ensures DecimalValue(r) == n
    ensures n < 10 ==> |r| == 2
    ensures n >= 10 ==> r == NatToDecimal(n)
  {
    if n < 10 then
      var r := "0" + NatToDecimal(n);
      assert r[..1] == "0";
      r
    else NatToDecimal(n)
  }

  /** Different numbers are padded to different strings. */
  lemma Pad2Injective(m: nat, n: nat)
    requires Pad2(m) == Pad2(n)
    ensures m == n
  {
    assert DecimalValue(Pad2(m)) == m;
  }

  /**
   * A run of digits followed by text that starts with a non-digit can be
   * split off in one way only.
   */
  lemma DigitPrefixUnique(a: string, x: string, b: string, y: string)
    requires AllDigits(a) && AllDigits(b)
    requires x != [] && !IsDigit(x[0]) && y != [] && !IsDigit(y[0])
    requires a + x == b + y
    ensures a == b && x == y
  {
    var s := a + x;
    assert forall i :: 0 <= i < |a| ==> IsDigit(s[i]);
    assert !IsDigit(s[|a|]);
    assert forall i :: 0 <= i < |b| ==> IsDigit(s[i]);
    assert !IsDigit(s[|b|]);
    assert |a| == |b|;
    assert a == s[..|a|] == b;
    assert x == s[|a|..] == y;
  }
}
