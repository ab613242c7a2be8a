/** Decimal text of numbers, as Python's `str` and `format` write it and `int` reads it. */
module Decimal {

  function DigitChar(d: nat): (c: char)
    requires d < 10
    ensures IsDigit(c) && DigitValue(c) == d
  {
    ('0' as int + d) as char
  }

  predicate IsDigit(c: char) {
    '0' <= c <= '9'
  }

  function DigitValue(c: char): nat
    requires IsDigit(c)
  {
    c as int - '0' as int
  }

  predicate AllDigits(s: string) {
    forall i :: 0 <= i < |s| ==> IsDigit(s[i])
  }

  /** The number a run of digits denotes. */
  function Value(s: string): nat
    requires AllDigits(s)
  {
    if s == "" then 0 else 10 * Value(s[..|s| - 1]) + DigitValue(s[|s| - 1])
  }

  function NatText(n: nat): (s: string)
    ensures |s| > 0 && AllDigits(s)
  {
    if n < 10 then [DigitChar(n)] else NatText(n / 10) + [DigitChar(n % 10)]
  }

  lemma {:induction false} NatTextValue(n: nat)
    ensures Value(NatText(n)) == n
  {
    if n < 10 {
      assert NatText(n)[..0] == "";
    } else {
      NatTextValue(n / 10);
      assert NatText(n)[..|NatText(n)| - 1] == NatText(n / 10);
    }
  }

  function IntText(n: int): string {
    if n < 0 then "-" + NatText(-n) else NatText(n)
  }

  lemma IntTextInjective(a: int, b: int)
    requires IntText(a) == IntText(b)
    ensures a == b
  {
    NatTextValue(if a < 0 then -a else a);
    NatTextValue(if b < 0 then -b else b);
    assert a < 0 ==> IntText(a)[0] == '-' && IntText(a)[1..] == NatText(-a);
    assert b < 0 ==> IntText(b)[0] == '-' && IntText(b)[1..] == NatText(-b);
  }

  /** Exactly `k` digits, with leading zeros. */
  function Padded(n: nat, k: nat): (s: string)
    ensures |s| == k && AllDigits(s)
  {
    if k == 0 then "" else Padded(n / 10, k - 1) + [DigitChar(n % 10)]
  }

  function Pow10(k: nat): nat {
    if k == 0 then 1 else 10 * Pow10(k - 1)
  }

  lemma {:induction false} PaddedValue(n: nat, k: nat)
    requires n < Pow10(k)
    ensures Value(Padded(n, k)) == n
  {
    if k > 0 {
      PaddedValue(n / 10, k - 1);
      assert Padded(n, k)[..k - 1] == Padded(n / 10, k - 1);
    }
  }

  /** A number of millionths with six decimals. */
  function Fixed6(micros: nat): string {
    NatText(micros / 1_000_000) + "." + Padded(micros % 1_000_000, 6)
  }

  lemma Fixed6Injective(a: nat, b: nat)
    requires Fixed6(a) == Fixed6(b)
    ensures a == b
  {
    var x, y := NatText(a / 1_000_000), NatText(b / 1_000_000);
    var p, q := Padded(a % 1_000_000, 6), Padded(b % 1_000_000, 6);
    assert |x| == |y|;
    assert x == Fixed6(a)[..|x|] && y == Fixed6(b)[..|y|];
    assert p == Fixed6(a)[|x| + 1..] && q == Fixed6(b)[|y| + 1..];
    NatTextValue(a / 1_000_000);
    NatTextValue(b / 1_000_000);
    assert Pow10(6) == 1_000_000;
    PaddedValue(a % 1_000_000, 6);
    PaddedValue(b % 1_000_000, 6);
  }

  /** The nearest integer, ties to even. */
  function RoundHalfEven(x: real): int {
    var low := x.Floor;
    var part := x - low as real;
    if part < 0.5 || (part == 0.5 && low % 2 == 0) then low else low + 1
  }

  /** Nothing is nearer, and of two that are equally near it is the even one. */
  lemma RoundsToNearest(x: real)
    ensures -0.5 <= RoundHalfEven(x) as real - x <= 0.5
    ensures RoundHalfEven(x) as real - x == 0.5 || x - RoundHalfEven(x) as real == 0.5 ==> RoundHalfEven(x) % 2 == 0
  {
  }

  /** Six decimals read back as the number of millionths. */
  lemma Fixed6Reads(micros: nat) returns (whole: string, part: string)
    ensures AllDigits(whole) && AllDigits(part) && |part| == 6 && Fixed6(micros) == whole + "." + part
    ensures Value(whole) * 1_000_000 + Value(part) == micros
  {
    whole, part := NatText(micros / 1_000_000), Padded(micros % 1_000_000, 6);
    NatTextValue(micros / 1_000_000);
    assert Pow10(6) == 1_000_000;
    PaddedValue(micros % 1_000_000, 6);
  }
}
