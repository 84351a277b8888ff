/**
 * The elementary part of `FixMath`: the constant tables, absolute value and
 * sign, the mask-based rounding functions, minimum and maximum, and the
 * square root with its Newton iteration on `ulong`.
 */
module FixMath {
  import opened Machine
  import opened Scalar
  import HighPrecision

  /**
   * The constants of the library, declared in a part of `FixMath` that is
   * not part of this model, in `FixConst` form. `Valid` is what the static
   * constructor checks of the quarter-sine table, together with the twelve
   * CORDIC angles that `Atan2` reads.
   */
  datatype Tables = Tables(
    resPower: nat,
    quarterSineConsts: seq<HighPrecision.FixConst>,
    cordicAngleConsts: seq<HighPrecision.FixConst>,
    invFactConsts: seq<HighPrecision.FixConst>,
    piConst: HighPrecision.FixConst,
    eConst: HighPrecision.FixConst,
    ln2Const: HighPrecision.FixConst,
    log102Const: HighPrecision.FixConst)
  {
    predicate Valid() {
      resPower < FRACTIONAL_BITS &&
      |quarterSineConsts| == 90 * Pow2(resPower) + 1 &&
      |cordicAngleConsts| >= FRACTIONAL_BITS + 2
    }

    /** `QuarterSine[i]`: the table entry narrowed to `Fix`. */
    function QuarterSine(i: nat): Fix
      requires i < |quarterSineConsts|
    {
      HighPrecision.ToFix(quarterSineConsts[i])
    }

    function CordicAngle(i: nat): Fix
      requires i < |cordicAngleConsts|
    {
      HighPrecision.ToFix(cordicAngleConsts[i])
    }

    function Pi(): Fix { HighPrecision.ToFix(piConst) }
    function E(): Fix { HighPrecision.ToFix(eConst) }
    function Ln2(): Fix { HighPrecision.ToFix(ln2Const) }
    function Log102(): Fix { HighPrecision.ToFix(log102Const) }
  }

  // ----- absolute value, sign, minimum, maximum -----

  /** `Abs`: `new Fix(-raw)` for a negative raw, so `Abs(MinValue) == MinValue`. */
  function Abs(v: Fix): (r: Fix)
    ensures v.raw != MIN32 ==> r.raw >= 0 && (r.raw == v.raw || r.raw == -v.raw)
    ensures v.raw == MIN32 ==> r == MinValue
  {
    if v.raw < 0 then Fix(Wrap32(-(v.raw as int))) else v
  }

  /** `Sign`: -1, 0 or 1 as a `Fix`. */
  function Sign(v: Fix): (r: Fix)
    ensures v.raw < 0 <==> r == FromInt(-1)
    ensures v.raw == 0 <==> r == Zero
    ensures v.raw > 0 <==> r == One
  {
    if v.raw < 0 then FromInt(-1) else if v.raw > 0 then FromInt(1) else FromInt(0)
  }

  /** The sign times the absolute value gives the value back, exactly. */
  lemma SignTimesAbs(v: Fix)
    requires v.raw != MIN32
    ensures Mul(Sign(v), Abs(v)) == v
  {
    var a := Abs(v).raw;
    if v.raw < 0 {
      assert Sign(v).raw * a == -FRACTION_RANGE * a;
      UnitQuotient(-a);
    } else if v.raw > 0 {
      assert Sign(v).raw * a == FRACTION_RANGE * a;
      UnitQuotient(a);
    }
  }

  lemma UnitQuotient(a: int)
    ensures (FRACTION_RANGE * a + 512) / FRACTION_RANGE == a
  {
  }

  /** `Min`: `v1 < v2 ? v1 : v2`. */
  function Min(v1: Fix, v2: Fix): (r: Fix)
    ensures r.raw <= v1.raw && r.raw <= v2.raw
    ensures r == v1 || r == v2
  {
    if v1.raw < v2.raw then v1 else v2
  }

  /** `Max`: `v1 > v2 ? v1 : v2`. */
  function Max(v1: Fix, v2: Fix): (r: Fix)
    ensures r.raw >= v1.raw && r.raw >= v2.raw
    ensures r == v1 || r == v2
  {
    if v1.raw > v2.raw then v1 else v2
  }

  /** Between them the minimum and the maximum keep both arguments. */
  lemma MinMaxPartition(v1: Fix, v2: Fix)
    ensures multiset{Min(v1, v2), Max(v1, v2)} == multiset{v1, v2}
  {
  }

  // ----- rounding to whole numbers -----

  /** `Floor`: `raw & INTEGER_MASK`, the largest multiple of 1024 not above raw. */
  function Floor(v: Fix): (r: Fix)
    ensures r.raw % FRACTION_RANGE == 0
    ensures r.raw <= v.raw < r.raw + FRACTION_RANGE
  {
    Fix(ClearFraction(v.raw))
  }

  /** `Ceiling`: `(raw + FRACTION_MASK) & INTEGER_MASK`; the addition wraps near `MaxValue`. */
  function Ceiling(v: Fix): (r: Fix)
    ensures r.raw % FRACTION_RANGE == 0
    ensures v.raw <= MAX32 - FRACTION_MASK ==> r.raw - FRACTION_RANGE < v.raw <= r.raw
  {
    Fix(ClearFraction(Wrap32(v.raw + FRACTION_MASK)))
  }

  /** `Round`: `(raw + 512) & ~FRACTION_MASK`, halves upward; wraps near `MaxValue`. */
  function Round(v: Fix): (r: Fix)
    ensures r.raw % FRACTION_RANGE == 0
    ensures v.raw <= MAX32 - 512 ==> r.raw - 512 <= v.raw < r.raw + 512
  {
    Fix(ClearFraction(Wrap32(v.raw + 512)))
  }

  /** `Round(-0.5) == 0` and `Round(0.5) == 1`. */
  lemma RoundHalvesUp()
    ensures Round(Fix(-512)) == Zero
    ensures Round(Fix(512)) == One
  {
  }

  /**
   * `Truncate` as written: a negative raw becomes `(raw + 1024) & ~1023`.
   * That is toward zero for a value with a fraction, but an exact negative
   * integer -n becomes -(n - 1).
   */
  function TruncateAsWritten(v: Fix): (r: Fix)
    ensures r.raw % FRACTION_RANGE == 0
    ensures v.raw >= 0 || v.raw % FRACTION_RANGE != 0 ==> r.raw == TruncDiv(v.raw, FRACTION_RANGE) * FRACTION_RANGE
    ensures v.raw < 0 && v.raw % FRACTION_RANGE == 0 ==> r.raw == v.raw + FRACTION_RANGE
  {
    if v.raw < 0 then Fix(ClearFraction(v.raw + FRACTION_RANGE)) else Fix(ClearFraction(v.raw))
  }

  /** The truncation as written moves -1 to 0. */
  lemma TruncateAsWrittenMovesIntegers()
    ensures TruncateAsWritten(FromInt(-1)) == Zero
    ensures ToInt(FromInt(-1)) == -1
  {
  }

  /**
   * `Truncate` as intended: toward zero, i.e. `(raw + FRACTION_MASK) &
   * ~1023` for a negative raw; every whole number is kept.
   */
  function Truncate(v: Fix): (r: Fix)
    ensures r.raw % FRACTION_RANGE == 0
    ensures r.raw == TruncDiv(v.raw, FRACTION_RANGE) * FRACTION_RANGE
    ensures v.raw % FRACTION_RANGE == 0 ==> r == v
  {
    TruncateRaw(v.raw);
    if v.raw < 0 then Fix(ClearFraction(v.raw + FRACTION_MASK)) else Fix(ClearFraction(v.raw))
  }

  /** Masking after adding 1023 to a negative raw is the quotient truncated toward zero. */
  lemma TruncateRaw(x: i32)
    ensures x < 0 ==> ClearFraction(x + FRACTION_MASK) == TruncDiv(x, FRACTION_RANGE) * FRACTION_RANGE
    ensures x >= 0 ==> ClearFraction(x) == TruncDiv(x, FRACTION_RANGE) * FRACTION_RANGE
  {
    var q := TruncDiv(x, FRACTION_RANGE);
    var c := if x < 0 then ClearFraction(x + FRACTION_MASK) else ClearFraction(x);
    SameMultiple(c, q);
  }

  /** Two multiples of 1024 less than 1024 apart are equal. */
  lemma SameMultiple(c: int, q: int)
    requires c % FRACTION_RANGE == 0 && -FRACTION_RANGE < c - q * FRACTION_RANGE < FRACTION_RANGE
    ensures c == q * FRACTION_RANGE
  {
    var d := c / FRACTION_RANGE;
    assert c == d * FRACTION_RANGE;
  }

  /** Truncation is the `int` conversion followed by the conversion back. */
  lemma TruncateIsIntRoundTrip(v: Fix)
    ensures Truncate(v) == FromInt(ToInt(v))
  {
  }

  // ----- square root -----

  /** The integer square root: the largest r with r * r <= n. */
  function ISqrt(n: nat): nat
  {
    if n < 4 then (if n == 0 then 0 else 1)
    else
      var s := ISqrt(n / 4);
      if (2 * s + 1) * (2 * s + 1) <= n then 2 * s + 1 else 2 * s
  }

  /** `ISqrt(n)` is the largest r with r * r <= n. */
  lemma {:induction false} ISqrtBounds(n: nat)
    ensures ISqrt(n) * ISqrt(n) <= n < (ISqrt(n) + 1) * (ISqrt(n) + 1)
  {
    if n >= 4 {
      var s := ISqrt(n / 4);
      ISqrtBounds(n / 4);
      ISqrtStep(n, s);
    }
  }

  lemma ISqrtStep(n: nat, s: nat)
    requires s * s <= n / 4 < (s + 1) * (s + 1)
    ensures (2 * s) * (2 * s) <= n < (2 * s + 2) * (2 * s + 2)
  {
    var q := n / 4;
    assert (2 * s) * (2 * s) == 4 * (s * s);
    assert (2 * s + 2) * (2 * s + 2) == 4 * ((s + 1) * (s + 1));
    assert 4 * q <= n < 4 * q + 4;
  }

  /** Only the integer square root lies between those squares. */
  lemma ISqrtUnique(n: nat, r: nat)
    requires r * r <= n < (r + 1) * (r + 1)
    ensures r == ISqrt(n)
  {
    var s := ISqrt(n);
    ISqrtBounds(n);
    if r < s {
      SquareMonotone(r + 1, s);
    } else if s < r {
      SquareMonotone(s + 1, r);
    }
  }

  lemma SquareMonotone(a: nat, b: nat)
    requires a <= b
    ensures a * a <= b * b
  {
    assert a * a <= a * b <= b * b;
  }

  /** The starting point of the Newton iteration: `1L << ((31 + 10 + 2 + 1) / 2)`. */
  const SQRT_START: nat := 0x40_0000

  /** What `SqrtULong` returns: the integer square root, capped at its starting point. */
  function SqrtCapped(n: nat): (r: nat)
    ensures r <= SQRT_START
  {
    if ISqrt(n) < SQRT_START then ISqrt(n) else SQRT_START
  }

  /** A positive input has a positive capped root. */
  lemma CappedRootPositive(n: nat)
    requires n > 0
    ensures SqrtCapped(n) >= 1
  {
    ISqrtBounds(n);
  }

  /** The capped root squares to at most n, and below the cap it is the integer square root. */
  lemma SqrtCappedBounds(n: nat)
    ensures SqrtCapped(n) * SqrtCapped(n) <= n
    ensures SqrtCapped(n) < SQRT_START ==> n < (SqrtCapped(n) + 1) * (SqrtCapped(n) + 1)
  {
    var s := ISqrt(n);
    ISqrtBounds(n);
    if s >= SQRT_START {
      SquareMonotone(SQRT_START, s);
    }
  }

  /** Truncating division by a positive divisor, as bounds. */
  lemma DivBounds(n: nat, x: nat)
    requires x >= 1
    ensures (n / x) * x <= n < (n / x) * x + x
  {
  }

  /**
   * One Newton step never goes below the integer square root:
   * the arithmetic and the geometric mean at work on integers.
   */
  lemma NewtonAbove(n: nat, x: nat)
    requires x >= 1
    ensures (x + n / x) / 2 >= ISqrt(n)
  {
    var s := ISqrt(n);
    var q := n / x;
    ISqrtBounds(n);
    DivBounds(n, x);
    MeanAboveRoot(n, x, q, s);
  }

  lemma MeanAboveRoot(n: nat, x: nat, q: nat, s: nat)
    requires n < q * x + x && s * s <= n
    ensures 2 * s < x + q + 1
  {
    var a := x + q + 1;
    assert 4 * (q * x + x) <= a * a by {
      assert a * a - 4 * (q * x + x) == (x - q - 1) * (x - q - 1);
    }
    assert (2 * s) * (2 * s) == 4 * (s * s);
    SquareLess(a, 2 * s);
  }

  lemma SquareLess(a: nat, b: nat)
    requires b * b < a * a
    ensures b < a
  {
    if b >= a {
      SquareMonotone(a, b);
    }
  }

  /** Above the integer square root, a Newton step goes strictly down. */
  lemma NewtonDecreases(n: nat, x: nat)
    requires x > ISqrt(n)
    ensures (x + n / x) / 2 < x
  {
    var s := ISqrt(n);
    ISqrtBounds(n);
    SquareMonotone(s + 1, x);
    QuotientBelow(n, x);
  }

  lemma QuotientBelow(n: nat, x: nat)
    requires x >= 1 && n < x * x
    ensures n / x < x
  {
    DivBounds(n, x);
    if n / x >= x {
      MulMonotone(x, n / x, x);
    }
  }

  lemma MulMonotone(a: nat, b: nat, c: nat)
    requires a <= b
    ensures a * c <= b * c
  {
  }

  /**
   * `SqrtULong(n)`: Newton's iteration from 2^22 until it stops
   * decreasing. The result is the integer square root, capped at 2^22;
   * `n == 0` would divide by zero in the first step.
   */
  method SqrtULong(n: u64) returns (r: u32)
    requires n > 0
    ensures r == SqrtCapped(n)
  {
    var x: int := SQRT_START;
    while true
      invariant 1 <= x <= SQRT_START
      invariant x >= SqrtCapped(n)
      decreases x
    {
      SumFits(n, x);
      NewtonStops(n, x);
      NewtonStaysAbove(n, x);
      var y := ToU64(x + n / x) / 2;
      if y >= x {
        return x;
      }
      x := y;
    }
  }

  /** The iteration stops only at the capped square root. */
  lemma NewtonStops(n: u64, x: int)
    requires n > 0 && 1 <= x <= SQRT_START && x >= SqrtCapped(n)
    ensures (x + n / x) / 2 >= x ==> x == SqrtCapped(n)
  {
    NewtonAbove(n, x);
    if x > ISqrt(n) {
      NewtonDecreases(n, x);
    }
  }

  /** A step that goes down stays at or above the capped square root. */
  lemma NewtonStaysAbove(n: u64, x: int)
    requires n > 0 && 1 <= x <= SQRT_START && x >= SqrtCapped(n)
    ensures 1 <= (x + n / x) / 2 && (x + n / x) / 2 >= SqrtCapped(n)
  {
    NewtonAbove(n, x);
    assert ISqrt(n) >= 1;
  }

  /** `x + n / x` never leaves the `ulong` range during the iteration. */
  lemma SumFits(n: u64, x: int)
    requires n > 0 && 1 <= x <= SQRT_START && x >= SqrtCapped(n)
    ensures x + n / x < TWO64
  {
    if x == 1 {
      var r := ISqrt(n);
      ISqrtBounds(n);
      assert r <= 1 && n < (r + 1) * (r + 1);
      SquareMonotone(r + 1, 2);
    }
    QuotientSumFits(n, x);
  }

  lemma QuotientSumFits(n: nat, x: nat)
    requires n < TWO64 && 1 <= x <= SQRT_START && (x == 1 ==> n < 4)
    ensures x + n / x < TWO64
  {
    DivBounds(n, x);
    if x > 1 {
      MulMonotone(2, x, n / x);
    }
  }

  /**
   * `Sqrt`: a negative raw raises `ArgumentOutOfRangeException`, zero is
   * zero, and otherwise `(SqrtULong(raw << 12) + 1) >> 1`: the raw result r
   * is the nearest integer to sqrt(raw * 1024), i.e. the square root rounded
   * to 1/1024.
   */
  function Sqrt(v: Fix): (r: Result<Fix>)
    ensures v.raw < 0 <==> r.Err?
    ensures r.Err? ==> r.fault == ArgumentOutOfRange
    ensures v.raw == 0 ==> r == Ok(Zero)
    ensures v.raw > 0 ==> r.Ok? && r.value.raw >= 1 && r.value.raw == SqrtRaw(v.raw)
  {
    if v.raw < 0 then Err(ArgumentOutOfRange)
    else if v.raw == 0 then Ok(Zero)
    else Ok(Fix(SqrtRaw(v.raw)))
  }

  /** `(int)(SqrtULong((ulong)raw << 12) + 1) >> 1` for a positive raw. */
  function SqrtRaw(raw: i32): (h: i32)
    requires raw > 0
    ensures h >= 1
  {
    var n := ToU64(raw * 4096);
    CappedRootPositive(n);
    HalfUp(SqrtCapped(n))
  }

  /** `(int)(s + 1) >> 1` for a root up to the cap: half of s + 1, rounded down. */
  function HalfUp(s: nat): (h: i32)
    requires s <= SQRT_START
    ensures h * 2 <= s + 1 < h * 2 + 2
  {
    var w := Wrap32(s + 1);
    assert w == s + 1;
    Shr32Floor(w, 1);
    assert Pow2(1) == 2;
    Shr32(w, 1)
  }

  /** `raw << 12` on `ulong` for a positive raw does not wrap. */
  lemma ScaledRawFits(raw: i32)
    requires raw > 0
    ensures ToU64(raw * 4096) == 4096 * raw
  {
  }

  /** h is sqrt(n) / 2 rounded to the nearest integer: (2h - 1)^2 <= n < (2h + 1)^2. */
  predicate RoundedRoot(n: int, h: int)
  {
    (2 * h - 1) * (2 * h - 1) <= n < (2 * h + 1) * (2 * h + 1)
  }

  /** The raw result h is the rounded root of raw * 1024 in raw units. */
  lemma SqrtRawRounds(raw: i32)
    requires raw > 0
    ensures RoundedRoot(4096 * raw, SqrtRaw(raw))
  {
    ScaledRawFits(raw);
    var n := 4096 * raw;
    SqrtBelowCap(n);
    CappedRounds(n, SqrtCapped(n), SqrtRaw(raw));
  }

  lemma CappedRounds(n: nat, s: nat, h: int)
    requires n >= 1 && s == SqrtCapped(n) < SQRT_START && h * 2 <= s + 1 < h * 2 + 2
    ensures RoundedRoot(n, h)
  {
    SqrtCappedBounds(n);
    SqrtRounds(n, s, h);
  }

  /** Below 2^44 the cap never applies. */
  lemma SqrtBelowCap(n: nat)
    requires n < SQRT_START * SQRT_START
    ensures SqrtCapped(n) == ISqrt(n) && ISqrt(n) < SQRT_START
  {
    ISqrtBounds(n);
    if ISqrt(n) >= SQRT_START {
      SquareMonotone(SQRT_START, ISqrt(n));
    }
  }

  lemma SqrtRounds(n: nat, s: nat, h: int)
    requires s * s <= n < (s + 1) * (s + 1) && n >= 1
    requires h * 2 <= s + 1 < h * 2 + 2
    ensures h >= 1
    ensures (2 * h - 1) * (2 * h - 1) <= n < (2 * h + 1) * (2 * h + 1)
  {
    assert (s + 1) * (s + 1) > 1;
    if s == 2 * h - 1 {
      SquareMonotone(2 * h, 2 * h + 1);
    } else {
      assert s == 2 * h;
      SquareMonotone(2 * h - 1, 2 * h);
    }
  }

  /** The square root of a whole square is exact: `Sqrt(4) == 2`. */
  lemma SqrtOfSquare(k: nat)
    requires 1 <= k && k * k <= MAX_INTEGER
    ensures Sqrt(FromInt(k * k)) == Ok(FromInt(k))
  {
    var j := k * k;
    assert k <= j by { MulMonotone(1, k, k); }
    var raw := j * FRACTION_RANGE;
    assert FromInt(j).raw == raw;
    assert FromInt(k).raw == k * FRACTION_RANGE;
    RootOfScaledSquare(k, j, raw);
  }

  /** The raw root of the whole square k² is k, i.e. k * 1024 in raw units. */
  lemma RootOfScaledSquare(k: nat, j: nat, raw: i32)
    requires 1 <= k <= 1448 && j == k * k && raw == j * FRACTION_RANGE
    ensures SqrtRaw(raw) == k * FRACTION_RANGE
  {
    SqrtRawRounds(raw);
    RootOfSquare(k, j, raw, SqrtRaw(raw));
  }

  /** A rounded root of 4096 · k² · 1024 is k · 1024. */
  lemma RootOfSquare(k: nat, j: nat, raw: int, h: int)
    requires j == k * k && raw == j * FRACTION_RANGE && h >= 1 && RoundedRoot(4096 * raw, h)
    ensures h == k * FRACTION_RANGE
  {
    var m := 2048 * k;
    ScaleSquare(k, m, j);
    NearestOfSquare(m, h, 4096 * raw, 1024 * k);
  }

  lemma ScaleSquare(k: int, m: int, j: int)
    requires m == 2048 * k && j == k * k
    ensures m * m == 4096 * (j * FRACTION_RANGE)
  {
  }

  lemma NearestOfSquare(m: nat, h: int, n: int, c: int)
    requires h >= 1 && m == 2 * c && n == m * m && RoundedRoot(n, h)
    ensures m == 2 * h
  {
    SquareLess(2 * h + 1, m);
    if m < 2 * h - 1 {
      SquareMonotone(m + 1, 2 * h - 1);
    }
    assert m == 2 * h - 1 || m == 2 * h;
  }

  /** `Sqrt(1) == 1`, `Sqrt(4) == 2` and `Sqrt(0) == 0`. */
  lemma SqrtExamples()
    ensures Sqrt(One) == Ok(One)
    ensures Sqrt(FromInt(4)) == Ok(FromInt(2))
    ensures Sqrt(Zero) == Ok(Zero)
  {
    SqrtOfSquare(1);
    assert FromInt(1 * 1) == One;
    SqrtOfSquare(2);
    assert FromInt(2 * 2) == FromInt(4);
  }
}
