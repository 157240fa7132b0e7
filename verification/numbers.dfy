/** Decimal fractions: rounding, printing and reading. */
module Numbers {
  import opened Text
  import opened Wrappers

  /** `round(x)`: to the nearest integer, and to the even one in the middle. */
  function RoundHalfEven(x: real): int {
    var low := x.Floor;
    var part := x - low as real;
    if part < 0.5 || (part == 0.5 && low % 2 == 0) then low else low + 1
  }

  lemma RoundIsNearest(x: real)
    ensures -0.5 <= RoundHalfEven(x) as real - x <= 0.5
    ensures RoundHalfEven(x) as real - x == 0.5 || x - RoundHalfEven(x) as real == 0.5 ==> RoundHalfEven(x) % 2 == 0
  {
  }

  lemma RoundOfInt(n: int)
    ensures RoundHalfEven(n as real) == n
  {
  }

  // ---- Decimal fractions --------------------------------------------------------

  /** `unscaled` divided by ten to the power of `scale`. */
  datatype Decimal = Decimal(unscaled: int, scale: int)

  function Abs(n: int): nat {
    if n < 0 then -n else n
  }

  function Signed(n: nat, negative: bool): int {
    var i: int := n;
    if negative then -i else i
  }

  /** The one way to write a number: without trailing zeros. */
  function Normal(d: Decimal): Decimal
    decreases Abs(d.unscaled)
  {
    if d.unscaled == 0 then Decimal(0, 0)
    else if d.unscaled % 10 == 0 then Normal(Decimal(d.unscaled / 10, d.scale - 1))
    else d
  }

  /** `n` followed by `zeros` zeros. */
  function Shift(n: int, zeros: nat): int {
    if zeros == 0 then n else 10 * Shift(n, zeros - 1)
  }

  /** `n` without its last digits, rounded down. */
  function Drop(n: int, digits: nat): int
    decreases digits
  {
    if digits == 0 then n else Drop(n / 10, digits - 1)
  }

  /** The last digits of `n` are zeros. */
  predicate EndsInZeros(n: int, digits: nat)
    decreases digits
  {
    digits == 0 || (n % 10 == 0 && EndsInZeros(n / 10, digits - 1))
  }

  /** `n` without its last digits, rounded to the nearest number, and to the even one in the middle. */
  function HalfEven(n: int, digits: nat): int
    requires digits > 0
  {
    var kept := Drop(n, digits - 1);
    var q, r := kept / 10, kept % 10;
    if r < 5 || (r == 5 && EndsInZeros(n, digits - 1) && q % 2 == 0) then q else q + 1
  }

  /** `round(d, 2)`, in hundredths. */
  function RoundedHundredths(d: Decimal): int {
    if d.scale <= 2 then Shift(d.unscaled, 2 - d.scale) else HalfEven(d.unscaled, d.scale - 2)
  }

  lemma {:induction false} ShiftSum(a: int, b: int, zeros: nat)
    ensures Shift(a + b, zeros) == Shift(a, zeros) + Shift(b, zeros)
  {
    if zeros > 0 {
      ShiftSum(a, b, zeros - 1);
    }
  }

  lemma {:induction false} ShiftMonotone(a: int, b: int, zeros: nat)
    requires a <= b
    ensures Shift(a, zeros) <= Shift(b, zeros)
    ensures a < b ==> Shift(a, zeros) < Shift(b, zeros)
  {
    if zeros > 0 {
      ShiftMonotone(a, b, zeros - 1);
    }
  }

  lemma {:induction false} DropBounds(n: int, digits: nat)
    ensures Shift(Drop(n, digits), digits) <= n < Shift(Drop(n, digits) + 1, digits)
    ensures EndsInZeros(n, digits) <==> n == Shift(Drop(n, digits), digits)
    decreases digits
  {
    if digits > 0 {
      DropBounds(n / 10, digits - 1);
    }
  }

  lemma RoundDown(n: int, q: int, d: nat, zeros: nat)
    requires Shift(10 * q + d, zeros) <= n < Shift(10 * q + d + 1, zeros)
    requires d < 5 || (d == 5 && n == Shift(10 * q + d, zeros))
    ensures 0 <= 2 * (n - Shift(10 * q, zeros)) <= Shift(10, zeros)
    ensures 2 * (n - Shift(10 * q, zeros)) == Shift(10, zeros) ==> d == 5
  {
    ShiftSum(5, 5, zeros);
    ShiftSum(10 * q, d, zeros);
    ShiftSum(10 * q, d + 1, zeros);
    ShiftMonotone(0, d, zeros);
    ShiftZero(zeros);
    if d < 5 {
      ShiftMonotone(d + 1, 5, zeros);
    }
  }

  lemma RoundUp(n: int, q: int, d: nat, zeros: nat)
    requires Shift(10 * q + d, zeros) <= n < Shift(10 * q + d + 1, zeros)
    requires 5 <= d < 10
    ensures 0 <= 2 * (Shift(10 * (q + 1), zeros) - n) <= Shift(10, zeros)
    ensures 2 * (Shift(10 * (q + 1), zeros) - n) == Shift(10, zeros) ==> d == 5 && n == Shift(10 * q + d, zeros)
  {
    ShiftSum(5, 5, zeros);
    ShiftSum(10 * q, d, zeros);
    ShiftSum(10 * q, d + 1, zeros);
    ShiftSum(10 * q, 10, zeros);
    ShiftMonotone(5, d, zeros);
    ShiftMonotone(d + 1, 10, zeros);
  }

  /** Rounding finds the nearest number, and the even one of two that are equally near. */
  lemma HalfEvenIsNearest(n: int, digits: nat)
    requires digits > 0
    ensures var twice := 2 * (n - Shift(HalfEven(n, digits), digits));
            && -Shift(1, digits) <= twice <= Shift(1, digits)
            && (twice == Shift(1, digits) || twice == -Shift(1, digits) ==> HalfEven(n, digits) % 2 == 0)
  {
    hide Shift, Drop, EndsInZeros;
    var zeros: nat := digits - 1;
    var kept := Drop(n, zeros);
    DropBounds(n, zeros);
    ShiftOut(HalfEven(n, digits), zeros);
    ShiftOut(1, zeros);
    if HalfEven(n, digits) == kept / 10 {
      RoundDown(n, kept / 10, kept % 10, zeros);
    } else {
      RoundUp(n, kept / 10, kept % 10, zeros);
    }
  }

  /** Hundredths are exact for up to two decimals, and the nearest, or even one of two, for more. */
  lemma HundredthsAreNearest(d: Decimal)
    ensures d.scale <= 2 ==> RoundedHundredths(d) == Shift(d.unscaled, 2 - d.scale)
    ensures d.scale > 2 ==>
              var unit, twice := Shift(1, d.scale - 2), 2 * (d.unscaled - Shift(RoundedHundredths(d), d.scale - 2));
              && -unit <= twice <= unit
              && (twice == unit || twice == -unit ==> RoundedHundredths(d) % 2 == 0)
  {
    hide Shift, HalfEven;
    if d.scale > 2 {
      HalfEvenIsNearest(d.unscaled, d.scale - 2);
    }
  }

  function Hundredths(h: int): Decimal {
    Normal(Decimal(h, 2))
  }

  lemma {:induction false} ShiftOut(n: int, zeros: nat)
    ensures Shift(10 * n, zeros) == Shift(n, zeros + 1)
  {
    if zeros > 0 {
      ShiftOut(n, zeros - 1);
    }
  }

  lemma {:induction false} NormalKeepsValue(d: Decimal)
    requires d.scale <= 2
    ensures Normal(d).scale <= 2 && RoundedHundredths(Normal(d)) == RoundedHundredths(d)
    decreases Abs(d.unscaled)
  {
    if d.unscaled == 0 {
      ShiftZero(2);
      ShiftZero(2 - d.scale);
    } else if d.unscaled % 10 == 0 {
      NormalKeepsValue(Decimal(d.unscaled / 10, d.scale - 1));
      ShiftOut(d.unscaled / 10, 2 - d.scale);
    }
  }

  /** The normal form has the same value, and no trailing zeros. */
  lemma {:induction false} NormalExactly(d: Decimal)
    ensures var r := Normal(d);
            if d.unscaled == 0 then r == Decimal(0, 0)
            else r.unscaled % 10 != 0 && r.scale <= d.scale && d.unscaled == Shift(r.unscaled, d.scale - r.scale)
    decreases Abs(d.unscaled)
  {
    if d.unscaled != 0 && d.unscaled % 10 == 0 {
      NormalExactly(Decimal(d.unscaled / 10, d.scale - 1));
    }
  }

  lemma ShiftZero(zeros: nat)
    ensures Shift(0, zeros) == 0
  {
  }

  /** Rounding a number of hundredths gives these hundredths. */
  lemma RoundHundredths(h: int)
    ensures RoundedHundredths(Hundredths(h)) == h
  {
    NormalKeepsValue(Decimal(h, 2));
  }

  // ---- Printing hundredths ----------------------------------------------------------

  /** The digits behind the point, without trailing zeros. */
  function PrintFraction(f: nat): (s: string)
    requires f < 100
    ensures AllDigits(s) && 1 <= |s| <= 2
  {
    if f % 10 == 0 then [Digit(f / 10)] else [Digit(f / 10), Digit(f % 10)]
  }

  /** Hundredths without their sign. */
  function PrintUnsigned(n: nat): string {
    PrintNat(n / 100) + "." + PrintFraction(n % 100)
  }

  function PrintSigned(n: nat, negative: bool): string {
    if negative then "-" + PrintUnsigned(n) else PrintUnsigned(n)
  }

  /** A float with at most two decimals, given as hundredths. */
  function PrintHundredths(h: int): string {
    PrintSigned(Abs(h), h < 0)
  }

  // ---- Reading floats ------------------------------------------------------------

  datatype Float = Finite(d: Decimal) | NonFinite

  function Lower(s: string): string {
    seq(|s|, i requires 0 <= i < |s| =>
      if 'A' <= s[i] <= 'Z' then (s[i] as int + 32) as char else s[i])
  }

  /** The part of `s` before the first exponent mark. */
  function BeforeExponent(s: string): (r: string)
    ensures |r| <= |s|
  {
    if s == "" || s[0] == 'e' || s[0] == 'E' then "" else [s[0]] + BeforeExponent(s[1..])
  }

  function ParseOptionalDigits(s: string): Option<nat> {
    if s == "" then Some(0) else ParseDigits(s)
  }

  function Combined(whole: nat, fraction: nat, decimals: nat): Decimal {
    Decimal(Shift(whole, decimals) + fraction, decimals)
  }

  /** Digits with an optional point among them. */
  function ParseMantissa(s: string): Option<Decimal> {
    var whole, fraction := Head(s, '.'), Tail(s, '.');
    var w, f := ParseOptionalDigits(whole), ParseOptionalDigits(fraction);
    if (whole == "" && fraction == "") || w.None? || f.None? then None
    else Some(Combined(w.value, f.value, |OnlyDigits(fraction)|))
  }

  /** A signed exponent, without whitespace. */
  function ParseExponent(s: string): Option<int> {
    if s != "" && (s[0] == '-' || s[0] == '+') then
      var e := ParseDigits(s[1..]);
      if e.None? then None
      else
        var v: int := e.value;
        Some(if s[0] == '-' then -v else v)
    else ParseDigits(s)
  }

  predicate IsNonFinite(s: string) {
    var t := Lower(s);
    t == "inf" || t == "infinity" || t == "nan"
  }

  function ParseDecimal(s: string): Option<Decimal> {
    var mantissa := BeforeExponent(s);
    var m := ParseMantissa(mantissa);
    if m.None? || |mantissa| == |s| then m
    else
      var e := ParseExponent(s[|mantissa| + 1..]);
      if e.None? then None else Some(Decimal(m.value.unscaled, m.value.scale - e.value))
  }

  function Negate(d: Decimal, negative: bool): Decimal {
    if negative then Decimal(-d.unscaled, d.scale) else d
  }

  function ParseSigned(s: string, negative: bool): Option<Float> {
    if IsNonFinite(s) then Some(NonFinite)
    else
      var d := ParseDecimal(s);
      if d.None? then None else Some(Finite(Normal(Negate(d.value, negative))))
  }

  /** `float(s)` for ASCII digits; `None` where it raises ValueError. */
  function ParseFloat(s: string): Option<Float> {
    var t := Strip(s);
    if t != "" && (t[0] == '-' || t[0] == '+') then ParseSigned(t[1..], t[0] == '-')
    else ParseSigned(t, false)
  }
}
