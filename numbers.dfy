/**
 * The numbers the extractor reads and prints: the text a capture group
 * `(\d+(?:\.\d+)?)` returns, its value (what `float(...)` computes, taken
 * exactly), Python's `round()` and the decimal printing of an integer.
 */
module Numbers {

  /** The values a captured numeral can have. */
  type NonNeg = r: real | 0.0 <= r

  predicate IsDigit(c: char) {
    '0' <= c <= '9'
  }

  predicate AllDigits(t: string) {
    forall k :: 0 <= k < |t| ==> IsDigit(t[k])
  }

  function DigitValue(c: char): nat
    requires IsDigit(c)
  {
    c as int - '0' as int
  }

  function DigitChar(d: nat): (c: char)
    requires d < 10
    ensures IsDigit(c) && DigitValue(c) == d
  {
    ('0' as int + d) as char
  }

  function Pow10(n: nat): (p: nat)
    ensures p >= 1
  {
    if n == 0 then 1 else 10 * Pow10(n - 1)
  }

  /** The value of a string of decimal digits, most significant first. */
  function DigitsValue(t: string): nat
    requires AllDigits(t)
  {
    if t == [] then 0 else DigitsValue(t[..|t| - 1]) * 10 + DigitValue(t[|t| - 1])
  }

  /** The text `\d+(?:\.\d+)?` matches: digits, optionally a point and more digits. */
  ghost predicate IsNumeral(t: string) {
    || (|t| > 0 && AllDigits(t))
    || exists p :: 0 < p < |t| - 1 && t[p] == '.' && AllDigits(t[..p]) && AllDigits(t[p + 1..])
  }

  /** Length of the leading run of digits of `t`. */
  function LeadingDigits(t: string): (n: nat)
    ensures n <= |t|
    ensures AllDigits(t[..n])
    ensures n == |t| || !IsDigit(t[n])
  {
    if t == [] || !IsDigit(t[0]) then 0
    else
      var n := 1 + LeadingDigits(t[1..]);
      assert t[..n] == [t[0]] + t[1..][..n - 1];
      n
  }

  /** The value of a numeral, as `float(t)` reads it but without binary rounding:
      the integer part plus the fraction digits over a power of ten. */
  function NumeralValue(t: string): (r: NonNeg)
    requires IsNumeral(t)
  {
    var n := LeadingDigits(t);
    if n == |t| then
      DigitsValue(t) as real
    else
      assert n + 1 < |t| && AllDigits(t[n + 1..]) by { NumeralShape(t); }
      DigitsValue(t[..n]) as real + DigitsValue(t[n + 1..]) as real / Pow10(|t| - n - 1) as real
  }

  lemma {:induction false} NumeralShape(t: string)
    requires IsNumeral(t)
    ensures LeadingDigits(t) > 0
    ensures LeadingDigits(t) < |t| ==>
      t[LeadingDigits(t)] == '.' && LeadingDigits(t) + 1 < |t| && AllDigits(t[LeadingDigits(t) + 1..])
  {
    var n := LeadingDigits(t);
    if |t| > 0 && AllDigits(t) {
      assert n == |t|;
    } else {
      var p :| 0 < p < |t| - 1 && t[p] == '.' && AllDigits(t[..p]) && AllDigits(t[p + 1..]);
      assert n == p;
    }
  }

  lemma {:induction false} DigitsValueBound(t: string)
    requires AllDigits(t)
    ensures DigitsValue(t) < Pow10(|t|)
    decreases |t|
  {
    if t != [] {
      DigitsValueBound(t[..|t| - 1]);
    }
  }

  /** A numeral lies between the value of its integer digits and the next
      integer: its integer part is the value of the digits before the point,
      and a numeral without a point is exactly the value of its digits. */
  lemma {:induction false} NumeralValueMeaning(t: string)
    requires IsNumeral(t)
    ensures LeadingDigits(t) == |t| ==> NumeralValue(t) == DigitsValue(t) as real
    ensures NumeralValue(t).Floor == DigitsValue(t[..LeadingDigits(t)])
  {
    var n := LeadingDigits(t);
    NumeralShape(t);
    if n == |t| {
      assert t[..n] == t;
    } else {
      var a, b := t[..n], t[n + 1..];
      DigitsValueBound(b);
      var x, y, p := DigitsValue(a), DigitsValue(b), Pow10(|b|);
      FractionFloor(x, y, p, NumeralValue(t));
    }
  }

  lemma FractionFloor(x: nat, y: nat, p: nat, v: real)
    requires y < p
    requires v == x as real + y as real / p as real
    ensures v.Floor == x
  {
    var f := y as real / p as real;
    assert f * p as real == y as real;
    assert 0.0 <= f < 1.0;
  }

  /** Python's `round(x)` for one argument: the nearest integer, ties going
      to the even neighbour. */
  function RoundHalfEven(x: real): (n: int)
    ensures -0.5 <= x - n as real <= 0.5
    ensures x - n as real == 0.5 || x - n as real == -0.5 ==> n % 2 == 0
    ensures 0.0 <= x ==> 0 <= n
  {
    var f := x.Floor;
    var d := x - f as real;
    if d < 0.5 then f
    else if d > 0.5 then f + 1
    else if f % 2 == 0 then f
    else f + 1
  }

  /** `str(n)` for a non-negative integer: its decimal digits without
      leading zeros. */
  function FormatNat(n: nat): (s: string)
    ensures |s| > 0 && AllDigits(s)
    ensures DigitsValue(s) == n
    ensures s[0] == '0' ==> s == "0"
  {
    if n < 10 then [DigitChar(n)]
    else
      var s := FormatNat(n / 10) + [DigitChar(n % 10)];
      assert s[..|s| - 1] == FormatNat(n / 10);
      s
  }
}
