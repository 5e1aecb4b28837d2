/**
  The numeric limits the deriver attaches to integer and decimal columns,
  computed exactly. The source computes the decimal limit in binary floating
  point; here it is an exact rational. Powers of ten are written as `Shift`,
  a decimal point moved by whole places, so that every step of the proofs
  multiplies or divides by the constant ten only.
 */
module Bounds {

  function Pow2(n: nat): (r: nat)
    ensures r >= 1
  {
    if n == 0 then 1 else 2 * Pow2(n - 1)
  }

  function Pow10(n: nat): (r: nat)
    ensures r >= 1
  {
    if n == 0 then 1 else 10 * Pow10(n - 1)
  }

  /** x * 10^e, for any integer e. */
  function Shift(x: real, e: int): real
    decreases if e >= 0 then e else -e
  {
    if e == 0 then x
    else if e > 0 then 10.0 * Shift(x, e - 1)
    else Shift(x, e + 1) / 10.0
  }

  /** Ruby's `10.0**e`, exactly. */
  function RealPow10(e: int): real
  {
    Shift(1.0, e)
  }

  /** `integer_max`: half the number of values an integer of `limit` bytes can hold. */
  function IntegerMax(limit: nat): int
  {
    Pow2(8 * limit) / 2
  }

  /** `decimal_max`: 10^(precision - scale) - 10^(-scale). */
  function DecimalMax(precision: int, scale: int): real
  {
    RealPow10(precision - scale) - RealPow10(-scale)
  }

  /**
    An integer column of `limit` bytes (at least one) gets the exclusive bound
    2^(8*limit - 1): the top of the signed two's-complement range, plus one.
   */
  lemma IntegerMaxSignedRange(limit: nat)
    ensures limit >= 1 ==> IntegerMax(limit) == Pow2(8 * limit - 1)
    ensures limit == 0 ==> IntegerMax(limit) == 0
  {
  }

  /** One place further left multiplies by ten, on both sides of zero. */
  lemma ShiftSucc(x: real, e: int)
    ensures Shift(x, e + 1) == 10.0 * Shift(x, e)
  {
  }

  /** Moving the decimal point preserves order, in both directions. */
  lemma {:induction false} ShiftMonotone(x: real, y: real, e: int)
    ensures x <= y <==> Shift(x, e) <= Shift(y, e)
    decreases if e >= 0 then e else -e
  {
    if e > 0 {
      ShiftMonotone(x, y, e - 1);
    } else if e < 0 {
      ShiftMonotone(x, y, e + 1);
    }
  }

  /** Moving the decimal point distributes over a difference. */
  lemma {:induction false} ShiftDifference(x: real, y: real, e: int)
    ensures Shift(x - y, e) == Shift(x, e) - Shift(y, e)
    decreases if e >= 0 then e else -e
  {
    if e > 0 {
      ShiftDifference(x, y, e - 1);
    } else if e < 0 {
      ShiftDifference(x, y, e + 1);
    }
  }

  /** Two moves of the decimal point compose: (x * 10^a) * 10^b == x * 10^(a + b). */
  lemma {:induction false} ShiftShift(x: real, a: int, b: int)
    ensures Shift(Shift(x, a), b) == Shift(x, a + b)
    decreases if b >= 0 then b else -b
  {
    if b > 0 {
      ShiftShift(x, a, b - 1);
      ShiftSucc(x, a + b - 1);
    } else if b < 0 {
      ShiftShift(x, a, b + 1);
      ShiftSucc(x, a + b);
    }
  }

  /** On non-negative exponents the exact power agrees with the integer one. */
  lemma {:induction false} RealPow10Natural(n: nat)
    ensures RealPow10(n) == Pow10(n) as real
  {
    if n > 0 {
      RealPow10Natural(n - 1);
    }
  }

  /**
    The decimal bound in scaled-integer form: with the decimal point moved
    `scale` places right it is 10^precision - 1, the largest unscaled value
    of `precision` digits.
   */
  lemma DecimalMaxScaled(precision: int, scale: int)
    ensures Shift(DecimalMax(precision, scale), scale) == RealPow10(precision) - 1.0
  {
    ShiftDifference(RealPow10(precision - scale), RealPow10(-scale), scale);
    ShiftShift(1.0, precision - scale, scale);
    ShiftShift(1.0, -scale, scale);
  }

  /**
    A value with `scale` fractional digits, n * 10^-scale, lies within
    [-DecimalMax, DecimalMax] exactly when its unscaled integer n has at most
    `precision` digits.
   */
  lemma DecimalMaxDigits(precision: nat, scale: int, n: int)
    ensures Shift(n as real, -scale) <= DecimalMax(precision, scale) <==> n < Pow10(precision)
    ensures -DecimalMax(precision, scale) <= Shift(n as real, -scale) <==> -n < Pow10(precision)
  {
    var m := DecimalMax(precision, scale);
    var x := Shift(n as real, -scale);
    DecimalMaxScaled(precision, scale);
    RealPow10Natural(precision);
    ShiftShift(n as real, -scale, scale);
    ShiftMonotone(x, m, scale);
    ShiftMonotone(-m, x, scale);
    ShiftDifference(0.0, m, scale);
    ShiftZero(scale);
  }

  lemma {:induction false} ShiftZero(e: int)
    ensures Shift(0.0, e) == 0.0
    decreases if e >= 0 then e else -e
  {
    if e > 0 {
      ShiftZero(e - 1);
    } else if e < 0 {
      ShiftZero(e + 1);
    }
  }

  /** Two decimal places: shifting by -2 divides by a hundred. */
  lemma ShiftDown2(x: real)
    ensures Shift(x, -2) == x / 100.0
  {
    assert Shift(x, -1) == x / 10.0;
  }
}
