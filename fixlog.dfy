/**
 * The logarithms of `FixMath`. `Log2` normalises the raw value into
 * [1024, 2048) by shifting, counting whole octaves in `y`, then extracts
 * ten fraction bits by repeated squaring; `Log`, `Log10` and `Log(v, b)`
 * scale or divide its result.
 */
module FixLog {
  import opened Machine
  import opened Scalar
  import opened FixMath

  /** A mantissa in [1024, 2048) (one octave of raw units) and its exponent. */
  datatype Normal = Normal(mantissa: nat, exponent: int)

  /**
   * The first `Log2` loop: double `x` while it is below 1024, one octave
   * down each time.
   */
  function NormUp(x: nat, e: int): (r: Normal)
    requires x > 0
    ensures r.mantissa >= FRACTION_RANGE
    ensures x >= FRACTION_RANGE ==> r == Normal(x, e)
    ensures x < FRACTION_RANGE ==> (r.mantissa < 2 * FRACTION_RANGE && r.exponent < e)
    decreases if x < FRACTION_RANGE then FRACTION_RANGE - x else 0
  {
    if x < FRACTION_RANGE then NormUp(2 * x, e - 1) else Normal(x, e)
  }

  /** Doubling `k` times multiplies by 2^k: the mantissa is x·2^(e - exponent). */
  lemma {:induction false} NormUpScales(x: nat, e: int)
    requires 0 < x < FRACTION_RANGE
    ensures NormUp(x, e).mantissa == x * Pow2(e - NormUp(x, e).exponent)
    decreases FRACTION_RANGE - x
  {
    var r := NormUp(x, e);
    if 2 * x < FRACTION_RANGE {
      NormUpScales(2 * x, e - 1);
      assert Pow2(e - r.exponent) == 2 * Pow2(e - 1 - r.exponent);
    } else {
      assert Pow2(1) == 2;
    }
  }

  /**
   * The second `Log2` loop: halve `x` (dropping the low bit) while it is
   * 2048 or more, one octave up each time.
   */
  function NormDown(x: nat, e: int): (r: Normal)
    requires x >= FRACTION_RANGE
    ensures FRACTION_RANGE <= r.mantissa < 2 * FRACTION_RANGE && r.exponent >= e
    ensures x < 2 * FRACTION_RANGE ==> r == Normal(x, e)
    decreases x
  {
    if x >= 2 * FRACTION_RANGE then NormDown(x / 2, e + 1) else Normal(x, e)
  }

  /** Halving `k` times with truncation brackets x between m·2^k and (m+1)·2^k. */
  lemma {:induction false} NormDownScales(x: nat, e: int)
    requires x >= FRACTION_RANGE
    ensures var r := NormDown(x, e);
      r.mantissa * Pow2(r.exponent - e) <= x < (r.mantissa + 1) * Pow2(r.exponent - e)
    decreases x
  {
    var r := NormDown(x, e);
    if x >= 2 * FRACTION_RANGE {
      NormDownScales(x / 2, e + 1);
      var p := Pow2(r.exponent - e - 1);
      assert Pow2(r.exponent - e) == 2 * p;
      HalvingStep(x, r.mantissa, p);
    }
  }

  lemma HalvingStep(x: nat, m: nat, p: nat)
    requires m * p <= x / 2 < (m + 1) * p
    ensures m * (2 * p) <= x < (m + 1) * (2 * p)
  {
  }

  /**
   * The bit loop from iteration `i`: square the mantissa (a value in [1, 2)
   * scaled by 1024); when the square reaches 2, halve it and add the bit
   * `b`. With `b` halving from 512, the bits sum to less than twice the
   * current one.
   */
  function FractionBits(i: nat, z: nat, b: nat): (f: nat)
    requires i <= FRACTIONAL_BITS && FRACTION_RANGE <= z < 2 * FRACTION_RANGE
    requires i < FRACTIONAL_BITS ==> b == Pow2(FRACTIONAL_BITS - 1 - i)
    ensures i < FRACTIONAL_BITS ==> f < 2 * b
    ensures i == FRACTIONAL_BITS ==> f == 0
    ensures z == FRACTION_RANGE ==> f == 0
    decreases FRACTIONAL_BITS - i
  {
    if i == FRACTIONAL_BITS then 0
    else
      var s := z * z / FRACTION_RANGE;
      SquareRange(z);
      if s >= 2 * FRACTION_RANGE then b + FractionBits(i + 1, s / 2, b / 2)
      else FractionBits(i + 1, s, b / 2)
  }

  /** The square of a mantissa in [1024, 2048), scaled back, is in [1024, 4096). */
  lemma SquareRange(z: nat)
    requires FRACTION_RANGE <= z < 2 * FRACTION_RANGE
    ensures FRACTION_RANGE <= z * z / FRACTION_RANGE < 4 * FRACTION_RANGE
    ensures z == FRACTION_RANGE ==> z * z / FRACTION_RANGE == FRACTION_RANGE
  {
    SquareMonotone(FRACTION_RANGE, z);
    SquareMonotone(z, 2 * FRACTION_RANGE - 1);
  }

  /** The ten fraction bits of a mantissa, starting from the bit 512. */
  function Log2Fraction(m: nat): (f: nat)
    requires FRACTION_RANGE <= m < 2 * FRACTION_RANGE
    ensures f < FRACTION_RANGE
    ensures m == FRACTION_RANGE ==> f == 0
  {
    assert Pow2(9) == 512 by { Pow2Value22(); }
    FractionBits(0, m, 512)
  }

  /** The normal form `Log2` reaches from a positive raw value. */
  function Normalized(raw: nat): (d: Normal)
    requires raw > 0
    ensures FRACTION_RANGE <= d.mantissa < 2 * FRACTION_RANGE
  {
    var u := NormUp(raw, 0);
    NormDown(u.mantissa, u.exponent)
  }

  /**
   * `Log2(value)`: the exponent times 1024 plus the ten fraction bits. The
   * exponent lies in [-10, 20], so casting the unsigned accumulator back to
   * `int` recovers this sum without wrapping. A value of zero or below
   * faults.
   */
  function Log2Spec(value: Fix): (r: Result<Fix>)
    ensures r.Err? <==> value.raw <= 0
    ensures r.Err? ==> r.fault == ArgumentOutOfRange
  {
    if value.raw <= 0 then Err(ArgumentOutOfRange)
    else
      var d := Normalized(value.raw);
      var f := Log2Fraction(d.mantissa);
      ExponentRange(value.raw);
      Ok(Fix(d.exponent * FRACTION_RANGE + f))
  }

  /**
   * `Log2` on `uint` and `ulong` with a wrapping accumulator `y`: its two
   * normalising loops and its bit loop, then the cast of `y` to `int`.
   */
  method Log2(value: Fix) returns (r: Result<Fix>)
    ensures r == Log2Spec(value)
  {
    if value.raw <= 0 {
      return Err(ArgumentOutOfRange);
    }
    var x: u32 := ToU32(value.raw);
    var y: u32 := 0;
    ghost var e: int := 0;
    x, y, e := ShiftUp(x, y, e);
    x, y, e := ShiftDown(x, y, e);
    assert Normal(x, e) == Normalized(value.raw);
    ghost var y0 := y;
    WholeOctaves(e);
    y := ExtractBits(x, y);
    CastBack(value, y0, y);
    return Ok(Fix(Wrap32(y)));
  }

  /** `while (x < 1 << 10) { x <<= 1; y -= 1 << 10; }` */
  method ShiftUp(x0: u32, y0: u32, ghost e0: int) returns (x: u32, y: u32, ghost e: int)
    requires 0 < x0 && y0 == ToU32(e0 * FRACTION_RANGE)
    ensures Normal(x, e) == NormUp(x0, e0) && y == ToU32(e * FRACTION_RANGE)
  {
    x, y, e := x0, y0, e0;
    while x < FRACTION_RANGE
      invariant 0 < x && NormUp(x, e) == NormUp(x0, e0) && y == ToU32(e * FRACTION_RANGE)
      decreases FRACTION_RANGE - x
    {
      OctaveDown(x, e, y);
      x := ToU32(x * 2);
      y := ToU32(y - FRACTION_RANGE);
      e := e - 1;
    }
  }

  /** `while (x >= 2 << 10) { x >>= 1; y += 1 << 10; }` */
  method ShiftDown(x0: u32, y0: u32, ghost e0: int) returns (x: u32, y: u32, ghost e: int)
    requires x0 >= FRACTION_RANGE && y0 == ToU32(e0 * FRACTION_RANGE)
    ensures Normal(x, e) == NormDown(x0, e0) && y == ToU32(e * FRACTION_RANGE)
  {
    x, y, e := x0, y0, e0;
    while x >= 2 * FRACTION_RANGE
      invariant x >= FRACTION_RANGE && NormDown(x, e) == NormDown(x0, e0) && y == ToU32(e * FRACTION_RANGE)
      decreases x
    {
      OctaveUp(x, e, y);
      x := x / 2;
      y := ToU32(y + FRACTION_RANGE);
      e := e + 1;
    }
  }

  /**
   * The bit loop: ten squarings of `z`, adding `b` to `y` whenever the
   * square reaches 2. `y` is a whole number of octaves below 2^32 here, so
   * adding fewer than 1024 never wraps.
   */
  method ExtractBits(x: u32, y0: u32) returns (y: u32)
    requires FRACTION_RANGE <= x < 2 * FRACTION_RANGE && y0 % FRACTION_RANGE == 0
    ensures y == y0 + Log2Fraction(x)
  {
    var z: u64 := x;
    var b: u32 := 512;
    y := y0;
    FractionBitsStart(x);
    for i := 0 to FRACTIONAL_BITS
      invariant BitInvariant(x, y0, i, y, z, b)
    {
      y, z, b := BitPass(x, y0, i, y, z, b);
    }
  }

  /**
   * What the bit loop keeps before pass `i`: `z` is in [1, 2) in `Fix`,
   * `b` is the weight of bit `i`, and the bits found so far plus the bits
   * still to come make up the fraction of the logarithm.
   */
  predicate BitInvariant(x: nat, y0: nat, i: nat, y: int, z: nat, b: nat)
  {
    FRACTION_RANGE <= x < 2 * FRACTION_RANGE && i <= FRACTIONAL_BITS &&
    FRACTION_RANGE <= z < 2 * FRACTION_RANGE &&
    (i < FRACTIONAL_BITS ==> b == Pow2(FRACTIONAL_BITS - 1 - i)) &&
    y0 <= y && (y - y0) + FractionBits(i, z, b) == Log2Fraction(x)
  }

  /** The loop starts on the whole fraction with the top bit 512. */
  lemma FractionBitsStart(x: nat)
    requires FRACTION_RANGE <= x < 2 * FRACTION_RANGE
    ensures forall y0: nat :: BitInvariant(x, y0, 0, y0, x, 512)
  {
    Pow2Value10();
  }

  /** One pass of the bit loop: square `z`, and halve it and add `b` to `y` when it reached 2. */
  method BitPass(ghost x: nat, ghost y0: nat, ghost i: nat, y: u32, z: u64, b: u32)
    returns (y': u32, z': u64, b': u32)
    requires y0 < TWO32 && y0 % FRACTION_RANGE == 0 && i < FRACTIONAL_BITS
    requires BitInvariant(x, y0, i, y, z, b)
    ensures BitInvariant(x, y0, i + 1, y', z', b')
  {
    SquareFits(z);
    z' := ToU64(z * z) / FRACTION_RANGE;
    y' := y;
    if z' >= 2 * FRACTION_RANGE {
      BitLoopStep(x, y0, i, y, z, b, z' / 2, b);
      z' := z' / 2;
      y' := ToU32(y + b);
    } else {
      BitLoopStep(x, y0, i, y, z, b, z', 0);
    }
    b' := b / 2;
  }

  /** One pass of the bit loop keeps its invariant, and adding the bit never wraps `y`. */
  lemma BitLoopStep(x: nat, y0: nat, i: nat, y: int, z: nat, b: nat, z2: int, bit: int)
    requires FRACTION_RANGE <= x < 2 * FRACTION_RANGE && y0 < TWO32 && y0 % FRACTION_RANGE == 0
    requires i < FRACTIONAL_BITS && FRACTION_RANGE <= z < 2 * FRACTION_RANGE
    requires b == Pow2(FRACTIONAL_BITS - 1 - i)
    requires y0 <= y && (y - y0) + FractionBits(i, z, b) == Log2Fraction(x)
    requires var s := z * z / FRACTION_RANGE;
      (s >= 2 * FRACTION_RANGE ==> z2 == s / 2 && bit == b) &&
      (s < 2 * FRACTION_RANGE ==> z2 == s && bit == 0)
    ensures FRACTION_RANGE <= z2 < 2 * FRACTION_RANGE
    ensures i + 1 < FRACTIONAL_BITS ==> b / 2 == Pow2(FRACTIONAL_BITS - 1 - (i + 1))
    ensures y + bit < TWO32
    ensures (y + bit - y0) + FractionBits(i + 1, z2, b / 2) == Log2Fraction(x)
  {
    BitStep(i, z, b, z2, bit);
    OctaveHeadroom(y0);
  }

  /** One pass of the first loop: double `x`, one octave down. */
  lemma OctaveDown(x: nat, e: int, y: int)
    requires 0 < x < FRACTION_RANGE && y == ToU32(e * FRACTION_RANGE)
    ensures ToU32(x * 2) == 2 * x && NormUp(2 * x, e - 1) == NormUp(x, e)
    ensures ToU32(y - FRACTION_RANGE) == ToU32((e - 1) * FRACTION_RANGE)
  {
    ToU32Congruent(y - FRACTION_RANGE, (e - 1) * FRACTION_RANGE);
  }

  /** One pass of the second loop: halve `x`, one octave up. */
  lemma OctaveUp(x: nat, e: int, y: int)
    requires x >= 2 * FRACTION_RANGE && y == ToU32(e * FRACTION_RANGE)
    ensures NormDown(x / 2, e + 1) == NormDown(x, e)
    ensures ToU32(y + FRACTION_RANGE) == ToU32((e + 1) * FRACTION_RANGE)
  {
    ToU32Congruent(y + FRACTION_RANGE, (e + 1) * FRACTION_RANGE);
  }

  lemma SquareFits(z: nat)
    requires z < 2 * FRACTION_RANGE
    ensures ToU64(z * z) == z * z
  {
    SquareMonotone(z, 2 * FRACTION_RANGE);
  }

  /**
   * One pass of the bit loop, as `FractionBits` takes it: `z2` is the
   * scaled square, halved when it reached 2, and `bit` what was added to `y`.
   */
  lemma BitStep(i: nat, z: nat, b: nat, z2: int, bit: int)
    requires i < FRACTIONAL_BITS && FRACTION_RANGE <= z < 2 * FRACTION_RANGE
    requires b == Pow2(FRACTIONAL_BITS - 1 - i)
    requires var s := z * z / FRACTION_RANGE;
      (s >= 2 * FRACTION_RANGE ==> z2 == s / 2 && bit == b) &&
      (s < 2 * FRACTION_RANGE ==> z2 == s && bit == 0)
    ensures FRACTION_RANGE <= z2 < 2 * FRACTION_RANGE
    ensures FractionBits(i, z, b) == bit + FractionBits(i + 1, z2, b / 2)
    ensures i + 1 < FRACTIONAL_BITS ==> b / 2 == Pow2(FRACTIONAL_BITS - 1 - (i + 1))
  {
    SquareRange(z);
  }

  lemma OctaveHeadroom(y: int)
    requires 0 <= y < TWO32 && y % FRACTION_RANGE == 0
    ensures y + FRACTION_RANGE <= TWO32
  {
    var q := y / FRACTION_RANGE;
    assert y == q * FRACTION_RANGE;
  }

  /** A whole number of octaves stays one as a `uint`. */
  lemma WholeOctaves(e: int)
    ensures ToU32(e * FRACTION_RANGE) % FRACTION_RANGE == 0
  {
    var k := (e * FRACTION_RANGE) / TWO32;
    assert ToU32(e * FRACTION_RANGE) == e * FRACTION_RANGE - k * TWO32;
    assert e * FRACTION_RANGE - k * TWO32 == (e - k * 0x40_0000) * FRACTION_RANGE;
  }

  /** The final `(int)y`: the accumulated sum fits an `int`, so the cast recovers it. */
  lemma CastBack(value: Fix, y0: int, y: int)
    requires value.raw > 0
    requires y0 == ToU32(Normalized(value.raw).exponent * FRACTION_RANGE)
    requires y == y0 + Log2Fraction(Normalized(value.raw).mantissa)
    ensures Log2Spec(value) == Ok(Fix(Wrap32(y)))
  {
    var d := Normalized(value.raw);
    ExponentRange(value.raw);
    CastRecovers(d.exponent, Log2Fraction(d.mantissa), y0, y);
  }

  lemma CastRecovers(e: int, f: int, y0: int, y: int)
    requires -10 <= e <= 20 && 0 <= f < FRACTION_RANGE
    requires y0 == ToU32(e * FRACTION_RANGE) && y == y0 + f
    ensures Wrap32(y) == e * FRACTION_RANGE + f
  {
    var n := e * FRACTION_RANGE + f;
    WholeAndFraction(e, f);
    ToU32Mod(e * FRACTION_RANGE);
    assert y - n == ToU32(e * FRACTION_RANGE) - e * FRACTION_RANGE;
    Wrap32Congruent(y, n);
  }

  /**
   * The exponent of the normal form is floor(log2 raw) - 10: the raw value
   * lies in the octave [2^(e+10), 2^(e+11)).
   */
  lemma NormalizedOctave(raw: nat)
    requires raw > 0
    ensures var e := Normalized(raw).exponent;
      e + 10 >= 0 && Pow2(e + 10) <= raw < Pow2(e + 11)
  {
    var u := NormUp(raw, 0);
    var d := Normalized(raw);
    if raw < FRACTION_RANGE {
      assert d == u;
      NormUpScales(raw, 0);
      OctaveBelow(raw, u.mantissa, -u.exponent);
    } else {
      assert u == Normal(raw, 0);
      NormDownScales(raw, 0);
      OctaveAbove(raw, d.mantissa, d.exponent);
    }
  }

  /** Doubled k times into [1024, 2048), raw lay in [2^(10-k), 2^(11-k)). */
  lemma OctaveBelow(raw: nat, m: nat, k: nat)
    requires 0 < raw < FRACTION_RANGE && m == raw * Pow2(k) && FRACTION_RANGE <= m < 2 * FRACTION_RANGE
    ensures k <= 10 && Pow2(10 - k) <= raw < Pow2(11 - k)
  {
    var p := Pow2(k);
    Pow2Value10();
    assert Pow2(11) == 2 * FRACTION_RANGE;
    if k > 10 {
      Pow2Monotone(11, k);
      MulOrder(1, raw, p);
      assert false;
    }
    var lo: nat := 10 - k;
    Pow2Add(lo, k);
    Pow2Add(lo + 1, k);
    OctaveOfProduct(raw, p, Pow2(lo), Pow2(lo + 1));
  }

  /** If raw·p lies in [a·p, b·p) then raw lies in [a, b). */
  lemma OctaveOfProduct(raw: nat, p: nat, a: nat, b: nat)
    requires a * p == FRACTION_RANGE && b * p == 2 * FRACTION_RANGE
    requires FRACTION_RANGE <= raw * p < 2 * FRACTION_RANGE
    ensures a <= raw < b
  {
    if raw < a {
      MulOrder(raw + 1, a, p);
    }
    if raw >= b {
      MulOrder(b, raw, p);
    }
  }

  /** Halved e times into [1024, 2048), raw lay in [2^(e+10), 2^(e+11)). */
  lemma OctaveAbove(raw: nat, m: nat, e: nat)
    requires FRACTION_RANGE <= m < 2 * FRACTION_RANGE
    requires m * Pow2(e) <= raw < (m + 1) * Pow2(e)
    ensures Pow2(e + 10) <= raw < Pow2(e + 11)
  {
    Pow2Value10();
    var p := Pow2(e);
    Pow2Add(10, e);
    Pow2Add(11, e);
    assert Pow2(11) == 2 * FRACTION_RANGE;
    MulOrder(FRACTION_RANGE, m, p);
    MulOrder(m + 1, 2 * FRACTION_RANGE, p);
  }

  lemma MulOrder(a: int, b: int, w: nat)
    requires a <= b
    ensures a * w <= b * w
  {
  }

  /** The integer part of `Log2(value)` is the exponent of the normal form. */
  lemma Log2Exponent(value: Fix)
    requires value.raw > 0
    ensures Log2Spec(value).Ok?
    ensures Log2Spec(value).value.raw / FRACTION_RANGE == Normalized(value.raw).exponent
  {
    var d := Normalized(value.raw);
    var f := Log2Fraction(d.mantissa);
    var n := d.exponent * FRACTION_RANGE + f;
    ExponentRange(value.raw);
    assert Log2Spec(value) == Ok(Fix(n));
    WholeAndFraction(d.exponent, f);
  }

  /** The integer part of `Log2(value)` is floor(log2 raw) - 10. */
  lemma Log2Octave(value: Fix)
    requires value.raw > 0
    ensures Log2Spec(value).Ok?
    ensures var e := Log2Spec(value).value.raw / FRACTION_RANGE;
      e + 10 >= 0 && Pow2(e + 10) <= value.raw < Pow2(e + 11)
  {
    Log2Exponent(value);
    NormalizedOctave(value.raw);
  }

  /** A 31-bit positive raw value has an exponent between -10 and 20. */
  lemma ExponentRange(raw: nat)
    requires 0 < raw <= MAX32
    ensures -10 <= Normalized(raw).exponent <= 20
  {
    var e := Normalized(raw).exponent;
    NormalizedOctave(raw);
    if e + 10 >= 31 {
      Pow2Monotone(31, e + 10);
      Pow2Value31();
    }
  }

  lemma WholeAndFraction(e: int, f: int)
    requires -10 <= e <= 20 && 0 <= f < FRACTION_RANGE
    ensures MIN32 <= e * FRACTION_RANGE + f <= MAX32
    ensures (e * FRACTION_RANGE + f) / FRACTION_RANGE == e
  {
  }

  /** An exact power of two has an exact integer logarithm: `Log2(2^k / 1024) == k - 10`. */
  lemma Log2OfPowerOfTwo(k: nat)
    requires k <= 30
    ensures Pow2(k) <= MAX32
    ensures Log2Spec(Fix(Pow2(k))) == Ok(FromInt(k - 10))
  {
    NormalizedPower(k);
    Log2OfUnitMantissa(Fix(Pow2(k)), k - 10);
  }

  /** A raw value normalising to the mantissa 1024 has the exponent as its exact logarithm. */
  lemma Log2OfUnitMantissa(value: Fix, e: int)
    requires value.raw > 0 && Normalized(value.raw) == Normal(FRACTION_RANGE, e)
    ensures -10 <= e <= 20
    ensures Log2Spec(value) == Ok(Fix(e * FRACTION_RANGE))
  {
    ExponentRange(value.raw);
    Log2OfNormal(value, Normal(FRACTION_RANGE, e));
    assert Log2Fraction(FRACTION_RANGE) == 0;
  }

  /** `Log2` on a positive value, read off its normal form. */
  lemma Log2OfNormal(value: Fix, d: Normal)
    requires value.raw > 0 && Normalized(value.raw) == d && -10 <= d.exponent <= 20
    ensures Log2Spec(value) == Ok(Fix(d.exponent * FRACTION_RANGE + Log2Fraction(d.mantissa)))
  {
  }

  /** 2^k normalises to the mantissa 1024 (exactly 1.0) and the exponent k - 10. */
  lemma NormalizedPower(k: nat)
    requires k <= 30
    ensures 0 < Pow2(k) <= MAX32
    ensures Normalized(Pow2(k)) == Normal(FRACTION_RANGE, k - 10)
  {
    assert 0 < Pow2(k) <= MAX32 by {
      Pow2Monotone(k, 30);
      Pow2Value31();
    }
    PowerExponent(k);
    if k < 10 {
      UpPowerMantissa(k);
    } else if k == 10 {
      assert Pow2(k) == FRACTION_RANGE by { Pow2Value22(); }
    } else {
      var n: nat := k - 10;
      assert Pow2(k) == FRACTION_RANGE * Pow2(n) by {
        Pow2Add(10, n);
        Pow2Value22();
      }
      DownPowerMantissa(Pow2(k), n);
    }
  }

  /** The exponent of 2^k is k - 10, by the uniqueness of the octave. */
  lemma PowerExponent(k: nat)
    requires k <= 30
    ensures Normalized(Pow2(k)).exponent == k - 10
  {
    var raw := Pow2(k);
    NormalizedOctave(raw);
    OctaveUnique(raw, Normalized(raw).exponent + 10, k);
  }

  lemma UpPowerMantissa(k: nat)
    requires k < 10 && Normalized(Pow2(k)).exponent == k - 10
    ensures Normalized(Pow2(k)).mantissa == FRACTION_RANGE
  {
    var raw := Pow2(k);
    Pow2Monotone(k, 9);
    assert Pow2(9) == 512 by { Pow2Value22(); }
    var u := NormUp(raw, 0);
    NormUpScales(raw, 0);
    assert Normalized(raw) == u;
    Pow2Add(k, 10 - k);
    Pow2Value22();
  }

  lemma DownPowerMantissa(raw: nat, n: nat)
    requires raw >= FRACTION_RANGE && raw == FRACTION_RANGE * Pow2(n) && Normalized(raw).exponent == n
    ensures Normalized(raw).mantissa == FRACTION_RANGE
  {
    assert NormUp(raw, 0) == Normal(raw, 0);
    NormDownScales(raw, 0);
    MantissaOfPower(NormDown(raw, 0).mantissa, Pow2(n), raw);
  }

  lemma MantissaOfPower(m: nat, p: nat, raw: nat)
    requires p >= 1 && raw == FRACTION_RANGE * p && m * p <= raw < (m + 1) * p
    ensures m == FRACTION_RANGE
  {
    if m > FRACTION_RANGE {
      MulOrder(FRACTION_RANGE + 1, m, p);
    }
    if m < FRACTION_RANGE {
      MulOrder(m + 1, FRACTION_RANGE, p);
    }
  }

  /** A positive integer lies in exactly one octave. */
  lemma OctaveUnique(n: nat, a: nat, b: nat)
    requires Pow2(a) <= n < Pow2(a + 1) && Pow2(b) <= n < Pow2(b + 1)
    ensures a == b
  {
    if a < b {
      Pow2Monotone(a + 1, b);
    } else if b < a {
      Pow2Monotone(b + 1, a);
    }
  }

  /** `Log(value)`: `Log2(value) * Ln2`. */
  function Log(t: Tables, value: Fix): (r: Result<Fix>)
    requires t.Valid()
    ensures r.Err? <==> value.raw <= 0
  {
    match Log2Spec(value)
    case Err(e) => Err(e)
    case Ok(l) => Ok(Mul(l, t.Ln2()))
  }

  /** `Log10(value)`: `Log2(value) * Log102`. */
  function Log10(t: Tables, value: Fix): (r: Result<Fix>)
    requires t.Valid()
    ensures r.Err? <==> value.raw <= 0
  {
    match Log2Spec(value)
    case Err(e) => Err(e)
    case Ok(l) => Ok(Mul(l, t.Log102()))
  }

  /**
   * `Log(value, b)`: bases 2, e and 10 go to the dedicated functions; any
   * other base divides `Log2(value)` by `Log2(b)`, which faults for a base
   * of zero or below and divides by zero for a base of 1.
   */
  function LogBase(t: Tables, value: Fix, b: Fix): (r: Result<Fix>)
    requires t.Valid()
  {
    if b == FromInt(2) then Log2Spec(value)
    else if b == t.E() then Log(t, value)
    else if b == FromInt(10) then Log10(t, value)
    else
      match Log2Spec(value)
      case Err(e) => Err(e)
      case Ok(n) =>
        match Log2Spec(b)
        case Err(e) => Err(e)
        case Ok(d) => Div(n, d)
  }

  /**
   * `Log(v, 2) == Log2(v)`; a non-positive value always faults; base 1 (when
   * it is not e) divides by zero.
   */
  lemma LogBaseProperties(t: Tables, value: Fix, b: Fix)
    requires t.Valid()
    ensures LogBase(t, value, FromInt(2)) == Log2Spec(value)
    ensures value.raw <= 0 ==> LogBase(t, value, b) == Err(ArgumentOutOfRange)
    ensures value.raw > 0 && b == One && t.E() != One ==> LogBase(t, value, b) == Err(DivideByZero)
  {
    if b == One {
      Log2OfPowerOfTwo(10);
    }
  }
}
