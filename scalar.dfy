/**
 * The `Fix` scalar: a Q21.10 fixed-point number held in one 32-bit `int`
 * (`raw`), whose value is raw / 1024. Every operator works on `raw` with
 * C#'s unchecked 32-bit, and where the source widens, 64-bit arithmetic.
 */
module Scalar {
  import opened Machine
  import opened Decimal

  const FRACTIONAL_BITS: nat := 10
  const FRACTION_RANGE: int := 1024
  const FRACTION_MASK: int := 1023
  const MIN_INTEGER: int := -2097152  // int.MinValue >> 10
  const MAX_INTEGER: int := 2097151   // int.MaxValue >> 10

  datatype Fix = Fix(raw: i32)

  const Zero: Fix := Fix(0)
  const One: Fix := Fix(FRACTION_RANGE)
  const MinValue: Fix := Fix(MIN32)
  const MaxValue: Fix := Fix(MAX32)
  const Epsilon: Fix := Fix(1)

  /** `raw & INTEGER_MASK` for an `int`: clears the ten fraction bits. */
  function ClearFraction(x: int): (r: int)
    ensures r % FRACTION_RANGE == 0 && r <= x < r + FRACTION_RANGE
  {
    x - x % FRACTION_RANGE
  }

  // ----- conversions -----

  /** `implicit operator Fix(int)`: `value << 10`, wrapping. */
  function FromInt(v: i32): (f: Fix)
    ensures MIN_INTEGER <= v <= MAX_INTEGER ==> f.raw == v * FRACTION_RANGE
  {
    Fix(Shl32(v, 10))
  }

  /** Out of the integer range the shift wraps: the raw value is v * 1024 modulo 2^32. */
  lemma FromIntWraps(v: i32)
    ensures (FromInt(v).raw - v * FRACTION_RANGE) % TWO32 == 0
  {
    Wrap32Congruent(Wrap32(v * Pow2(10)), v * Pow2(10));
    Pow2Value10();
  }

  /** `explicit operator int(Fix)`: truncation toward zero. */
  function ToInt(v: Fix): (r: i32)
    ensures r == TruncDiv(v.raw, FRACTION_RANGE)
    ensures MIN_INTEGER <= r <= MAX_INTEGER
  {
    ShiftedWhole(v.raw);
    if v.raw > 0 then Shr32(v.raw, 10) else Shr32(v.raw + FRACTION_MASK, 10)
  }

  lemma ShiftedWhole(x: i32)
    ensures var q := if x > 0 then Shr32(x, 10) else Shr32(x + FRACTION_MASK, 10);
      q == TruncDiv(x, FRACTION_RANGE) && MIN_INTEGER <= q <= MAX_INTEGER
  {
    Pow2Value10();
    var q := if x > 0 then Shr32(x, 10) else Shr32(x + FRACTION_MASK, 10);
    if x > 0 { Shr32Floor(x, 10); } else { Shr32Floor(x + FRACTION_MASK, 10); }
    ShiftTruncates(x, FRACTION_RANGE, q);
  }

  // ----- comparisons: plain comparisons of raw -----

  predicate Less(a: Fix, b: Fix) { a.raw < b.raw }
  predicate LessEq(a: Fix, b: Fix) { a.raw <= b.raw }
  predicate Greater(a: Fix, b: Fix) { a.raw > b.raw }
  predicate GreaterEq(a: Fix, b: Fix) { a.raw >= b.raw }

  // ----- arithmetic -----

  /** Unary minus: `-raw`, so `-MinValue == MinValue`. */
  function Neg(a: Fix): (r: Fix)
    ensures a.raw != MIN32 ==> r.raw == -a.raw
  {
    Fix(Wrap32(-(a.raw as int)))
  }

  function Add(a: Fix, b: Fix): (r: Fix)
  {
    Fix(Wrap32(a.raw + b.raw))
  }

  function Sub(a: Fix, b: Fix): (r: Fix)
  {
    Fix(Wrap32(a.raw - b.raw))
  }

  /**
   * `(int)((lhs.Raw * (long)rhs.Raw + 512) >> 10)`. The 64-bit product of
   * two `int`s plus 512 never leaves the `long` range, so only the final
   * cast wraps; without that wrap the result is the product rounded to the
   * nearest 1/1024, halves upward.
   */
  function Mul(a: Fix, b: Fix): (r: Fix)
    ensures var exact := a.raw * b.raw;
      MIN32 <= (exact + 512) / FRACTION_RANGE <= MAX32 ==>
        r.raw * FRACTION_RANGE - 512 <= exact < r.raw * FRACTION_RANGE + 512
  {
    Fix(Wrap32((a.raw * b.raw + 512) / FRACTION_RANGE))
  }

  /**
   * The rounded quotient `((n << 11) / d + 1) >> 1` on `long`, shared by the
   * division operator and `Ratio`; the 64-bit division truncates toward zero.
   */
  function RoundedQuotient(n: i32, d: i32): (q: int)
    requires d != 0
  {
    (TruncDiv(n * 2048, d) + 1) / 2
  }

  /**
   * When the exact quotient is not negative (the operands do not have
   * opposite signs), division rounds it to the nearest 1/1024, halves
   * upward: the 64-bit division truncates down to its floor, and
   * `(t + 1) >> 1` then rounds the doubled quotient.
   */
  lemma DivRoundsToNearest(n: i32, d: i32)
    requires d != 0 && (n == 0 || (n > 0) == (d > 0))
    ensures var q := RoundedQuotient(n, d);
      d > 0 ==> (2 * q - 1) * d <= 2048 * n < (2 * q + 1) * d
    ensures var q := RoundedQuotient(n, d);
      d < 0 ==> (2 * q + 1) * d < 2048 * n <= (2 * q - 1) * d
  {
    if d > 0 {
      HalvingRoundsToNearest(TruncDiv(n * 2048, d), n * 2048, d);
    } else if n == 0 {
      assert TruncDiv(0, d) == 0;
    } else {
      NearestNegativeDivisor(n, d);
    }
  }

  /** Both operands negative: the same halving, on the negated operands. */
  lemma NearestNegativeDivisor(n: i32, d: i32)
    requires n < 0 && d < 0
    ensures var q := RoundedQuotient(n, d);
      (2 * q + 1) * d < 2048 * n <= (2 * q - 1) * d
  {
    var a: int := n * 2048;
    var t: int := TruncDiv(a, d);
    assert t * d + d < a <= t * d;
    HalvingRoundsToNearestBelow(t, a, d);
  }


  /**
   * When the exact quotient is negative, truncation toward zero lifts it
   * to its ceiling before the halving, and the result is the CEILING of
   * the quotient in 1/1024 steps, not the nearest value.
   */
  lemma DivRoundsNegativeUp(n: i32, d: i32)
    requires n != 0 && d != 0 && (n > 0) != (d > 0)
    ensures var q := RoundedQuotient(n, d);
      d > 0 ==> (2 * q - 2) * d < 2048 * n <= 2 * q * d
    ensures var q := RoundedQuotient(n, d);
      d < 0 ==> 2 * q * d <= 2048 * n < (2 * q - 2) * d
  {
    var a: int := n * 2048;
    var t: int := TruncDiv(a, d);
    if d > 0 {
      assert t * d - d < a <= t * d;
      HalvingRoundsUp(t, a, d);
    } else {
      assert t * d <= a < t * d - d;
      HalvingRoundsUpBelow(t, a, d);
    }
  }

  /** `(t + 1) >> 1` for the floor `t` of a non-negative doubled quotient `a / d`. */
  lemma HalvingRoundsToNearest(t: int, a: int, d: int)
    requires d > 0 && t * d <= a < t * d + d
    ensures var q := (t + 1) / 2; (2 * q - 1) * d <= a < (2 * q + 1) * d
  {
    var q := (t + 1) / 2;
    if 2 * q == t {
      assert (2 * q - 1) * d == t * d - d;
      assert (2 * q + 1) * d == t * d + d;
    } else {
      assert 2 * q == t + 1;
      assert (2 * q - 1) * d == t * d;
      assert (2 * q + 1) * d == t * d + 2 * d;
    }
  }

  /** `(t + 1) >> 1` for the ceiling `t` of a doubled quotient `a / d`. */
  lemma HalvingRoundsUp(t: int, a: int, d: int)
    requires d > 0 && t * d - d < a <= t * d
    ensures var q := (t + 1) / 2; (2 * q - 2) * d < a <= 2 * q * d
  {
    var q := (t + 1) / 2;
    if 2 * q == t {
      assert (2 * q - 2) * d == t * d - 2 * d;
    } else {
      assert 2 * q == t + 1;
      assert (2 * q - 2) * d == t * d - d;
      assert 2 * q * d == t * d + d;
    }
  }

  /** The same halving for a negative divisor, where the inequalities turn round. */
  lemma HalvingRoundsToNearestBelow(t: int, a: int, d: int)
    requires d < 0 && t * d + d < a <= t * d
    ensures var q := (t + 1) / 2; (2 * q + 1) * d < a <= (2 * q - 1) * d
  {
    var q := (t + 1) / 2;
    if 2 * q == t {
      assert (2 * q - 1) * d == t * d - d;
      assert (2 * q + 1) * d == t * d + d;
    } else {
      assert 2 * q == t + 1;
      assert (2 * q - 1) * d == t * d;
      assert (2 * q + 1) * d == t * d + 2 * d;
    }
  }

  /** The ceiling halving for a negative divisor. */
  lemma HalvingRoundsUpBelow(t: int, a: int, d: int)
    requires d < 0 && t * d <= a < t * d - d
    ensures var q := (t + 1) / 2; 2 * q * d <= a < (2 * q - 2) * d
  {
    var q := (t + 1) / 2;
    if 2 * q == t {
      assert (2 * q - 2) * d == t * d - 2 * d;
    } else {
      assert 2 * q == t + 1;
      assert (2 * q - 2) * d == t * d - d;
      assert 2 * q * d == t * d + d;
    }
  }

  /**
   * -1/1024 divided by 1366/1024 is about -0.75/1024: the nearest result is
   * -1/1024, which satisfies the half-unit bound, yet the quotient is 0.
   */
  lemma DivNegativeNotNearest()
    ensures RoundedQuotient(-1, 1366) == 0
    ensures (2 * -1 - 1) * 1366 <= 2048 * -1 < (2 * -1 + 1) * 1366
    ensures !((2 * 0 - 1) * 1366 <= 2048 * -1)
  {
    assert TruncDiv(-2048, 1366) == -1;
  }

  /** `operator /`: a zero denominator raises `DivideByZeroException`. */
  function Div(a: Fix, b: Fix): (r: Result<Fix>)
    ensures r.Err? <==> b.raw == 0
    ensures r.Err? ==> r.fault == DivideByZero
    ensures r.Ok? && MIN32 <= RoundedQuotient(a.raw, b.raw) <= MAX32 ==>
      r.value.raw == RoundedQuotient(a.raw, b.raw)
  {
    if b.raw == 0 then Err(DivideByZero)
    else Ok(Fix(Wrap32(RoundedQuotient(a.raw, b.raw))))
  }

  /**
   * `operator %`: the remainder of the raw values, with the sign of the
   * dividend. `int.MinValue % -1` raises `OverflowException` under .NET.
   */
  function Mod(a: Fix, b: Fix): (r: Result<Fix>)
    ensures b.raw == 0 ==> r == Err(DivideByZero)
    ensures a.raw == MIN32 && b.raw == -1 ==> r == Err(Overflow)
    ensures r.Ok? ==> Abs(r.value.raw) < Abs(b.raw) && a.raw - r.value.raw == TruncDiv(a.raw, b.raw) * b.raw
    ensures r.Ok? ==> r.value.raw == 0 || (r.value.raw > 0) == (a.raw > 0)
  {
    if b.raw == 0 then Err(DivideByZero)
    else if a.raw == MIN32 && b.raw == -1 then Err(Overflow)
    else
      Ok(Fix(TruncRem(a.raw, b.raw)))
  }

  /** `operator <<`: the count is masked to five bits and the result wraps. */
  function ShiftLeft(a: Fix, n: int): (r: Fix)
  {
    Fix(Shl32(a.raw, n))
  }

  /** Addition and subtraction are exact when the result fits. */
  lemma AddSubExact(a: Fix, b: Fix)
    ensures MIN32 <= a.raw + b.raw <= MAX32 ==> Add(a, b).raw == a.raw + b.raw
    ensures MIN32 <= a.raw - b.raw <= MAX32 ==> Sub(a, b).raw == a.raw - b.raw
  {
  }

  /** Minus, plus, minus and `<<` agree with the exact results modulo 2^32. */
  lemma OperatorsWrap(a: Fix, b: Fix, n: int)
    ensures (Neg(a).raw + a.raw) % TWO32 == 0
    ensures (Add(a, b).raw - (a.raw + b.raw)) % TWO32 == 0
    ensures (Sub(a, b).raw - (a.raw - b.raw)) % TWO32 == 0
    ensures (ShiftLeft(a, n).raw - a.raw * Pow2(n % 32)) % TWO32 == 0
  {
    Wrap32Mod(-(a.raw as int));
    Wrap32Mod(a.raw + b.raw);
    Wrap32Mod(a.raw - b.raw);
    Wrap32Mod(a.raw * Pow2(n % 32));
  }

  /** `operator >>`: arithmetic shift, i.e. floor division by 2^(n & 31). */
  function ShiftRight(a: Fix, n: int): (r: Fix)
    ensures r.raw * Pow2(n % 32) <= a.raw < (r.raw + 1) * Pow2(n % 32)
  {
    Fix(Shr32(a.raw, n))
  }

  /**
   * `Mix(integer, numerator, denominator)`: builds integer + num/den. The
   * fraction is truncated to 1/1024 and masked to ten bits (a ratio of one
   * or more loses its whole part), and takes the sign of `integer`.
   */
  function Mix(integer: i32, numerator: i32, denominator: i32): (r: Result<Fix>)
    ensures numerator < 0 || denominator < 0 ==> r == Err(InvalidArgument)
    ensures numerator >= 0 && denominator == 0 ==> r == Err(DivideByZero)
    ensures numerator >= 0 && denominator > 0 ==> r.Ok?
  {
    if numerator < 0 || denominator < 0 then Err(InvalidArgument)
    else if denominator == 0 then Err(DivideByZero)
    else
      var fraction := Wrap32(TruncDiv(FRACTION_RANGE * numerator, denominator)) % FRACTION_RANGE;
      var signed := if integer < 0 then -fraction else fraction;
      Ok(Fix(Wrap32(Shl32(integer, 10) + signed)))
  }

  /** `Ratio(numerator, denominator)`: numerator/denominator, rounded as by division. */
  function Ratio(numerator: i32, denominator: i32): (r: Result<Fix>)
    ensures r.Err? <==> denominator == 0
    ensures r.Ok? && MIN32 <= RoundedQuotient(numerator, denominator) <= MAX32 ==>
      r.value.raw == RoundedQuotient(numerator, denominator)
  {
    if denominator == 0 then Err(DivideByZero)
    else Ok(Fix(Wrap32(RoundedQuotient(numerator, denominator))))
  }

  // ----- text -----

  /** The fraction bits of |value|: `FRACTION_RANGE - (raw & FRACTION_MASK)` when negative. */
  function AbsFractionBits(v: Fix): (f: int)
    ensures 0 <= f <= FRACTION_RANGE
    ensures (f == 0 || f == FRACTION_RANGE) <==> v.raw % FRACTION_RANGE == 0
  {
    var bits := v.raw % FRACTION_RANGE;
    if v.raw < 0 then FRACTION_RANGE - bits else bits
  }

  /** `(fraction * 1000000 + 512) >> 10` on `ulong`: six decimal digits, half up. */
  function ScaledFraction(v: Fix): nat
  {
    (AbsFractionBits(v) * 1000000 + 512) / FRACTION_RANGE
  }

  function SignText(v: Fix): string {
    if v.raw < 0 then "-" else ""
  }

  function WholeText(v: Fix): string {
    NatToString(Abs(ToInt(v)))
  }

  function FractionText(v: Fix): string {
    if v.raw % FRACTION_RANGE == 0 then ""
    else "." + TrimEndZeros(PadDigits(ScaledFraction(v), 6))
  }

  /** `ToString()` with the invariant culture's "-" and ".". */
  function ToString(v: Fix): string {
    SignText(v) + WholeText(v) + FractionText(v)
  }
}
