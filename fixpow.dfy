/**
 * `Pow` and `Exp` of `FixMath`. A whole exponent is raised by square and
 * multiply on `Fix` (through the reciprocal for a negative exponent); any
 * other exponent is turned into a power of two, `b^e == 2^(e * Log2(b))`,
 * whose whole part is a shift of 1 and whose fraction is evaluated as
 * `e^x` by a Taylor series on 32.32 `long` values, with the inverse
 * factorials from the constant tables.
 */
module FixPow {
  import opened Machine
  import opened Scalar
  import opened FixMath
  import FixLog
  import ScalarLaws

  /** `a^n` on unbounded integers. */
  function IntPow(a: int, n: nat): int
  {
    if n == 0 then 1 else a * IntPow(a, n - 1)
  }

  /**
   * The square-and-multiply loop from the state (t, p, acc): while p > 0,
   * multiply `acc` by `t` when the low bit of `p` is set, square `t` and
   * halve `p`.
   */
  function SquareMultiply(t: Fix, p: nat, acc: Fix): Fix
    decreases p
  {
    if p == 0 then acc
    else SquareMultiply(Mul(t, t), p / 2, if p % 2 == 1 then Mul(acc, t) else acc)
  }

  /** `(a * b + 2^31) >> 32` on `long`: a rounded product of 32.32 values, wrapping. */
  function MulQ32(a: i64, b: i64): i64
  {
    Shr64(Wrap64(Wrap64(a * b) + TWO31), 32)
  }

  /**
   * The Taylor loop from index `i`: `xa` holds x^(i-1) and `frac` the sum
   * so far; each step multiplies `xa` by `x` and adds `xa * InvFact[i]`.
   * It stops at the end of the table or once `xa` is zero.
   */
  function TaylorFrom(t: Tables, i: nat, x: i64, xa: i64, frac: i64): i64
    decreases |t.invFactConsts| - i
  {
    if i >= |t.invFactConsts| || xa == 0 then frac
    else
      var next := MulQ32(xa, x);
      TaylorFrom(t, i + 1, x, next, Wrap64(frac + MulQ32(next, t.invFactConsts[i].raw)))
  }

  /** `(exp.Raw + 512) >> 10`: the exponent rounded to a whole number, halves upward. */
  function RoundedWhole(e: Fix): (n: i32)
    ensures e.raw <= MAX32 - 512 ==> n * FRACTION_RANGE - 512 <= e.raw < n * FRACTION_RANGE + 512
    ensures MIN_INTEGER <= n <= MAX_INTEGER
  {
    Pow2Value10();
    Shr32Floor(Wrap32(e.raw + 512), 10);
    Shr32(Wrap32(e.raw + 512), 10)
  }

  /** `intPow < 0 ? One >> -intPow : One << intPow`: 2^n in `Fix`, shifted. */
  function PowerOfTwo(n: i32): Fix
    requires MIN_INTEGER <= n <= MAX_INTEGER
  {
    if n < 0 then ShiftRight(One, -n) else ShiftLeft(One, n)
  }

  /**
   * `((exp.Raw - (intPow << 10)) * Ln2Const.Raw + 512) >> 10` on `long`:
   * the rest of the exponent times ln 2, in 32.32 form.
   */
  function ExpArgument(t: Tables, e: Fix, n: i32): i64
  {
    Shr64(Wrap64(Wrap64(Wrap32(e.raw - Shl32(n, 10)) * t.ln2Const.raw) + 512), 10)
  }

  /**
   * 2^e for an exponent `e` that is not a whole number: the power of two
   * of its rounded whole part, times `1 + fracFactor` where `fracFactor`
   * is the Taylor sum of `e^x - 1`.
   */
  function FractionalPower(t: Tables, e: Fix): Fix
  {
    var n := RoundedWhole(e);
    var intFactor := PowerOfTwo(n);
    var x := ExpArgument(t, e, n);
    if x == 0 then intFactor
    else
      Scaled(intFactor, TaylorFrom(t, 2, x, x, x))
  }

  /** `(int)(((intFactor.Raw * (long)fracFactor + 2^31) >> 32) + intFactor.Raw)`: `intFactor * (1 + frac)`. */
  function Scaled(intFactor: Fix, frac: i64): Fix
  {
    Fix(Wrap32(Wrap64(MulQ32(intFactor.raw, frac) + intFactor.raw)))
  }

  /**
   * `Pow(b, exp)`. A base of 1 or an exponent of 0 gives 1. A negative
   * whole exponent of a zero base divides by zero; an exponent with a
   * fraction goes through `Log(b, 2)`, which faults for a base of zero or
   * below; nothing else faults.
   */
  function PowSpec(t: Tables, b: Fix, exp: Fix): (r: Result<Fix>)
    requires t.Valid()
    ensures b == One || exp == Zero ==> r == Ok(One)
    ensures r.Err? <==> (b != One && exp != Zero &&
      ((exp.raw % FRACTION_RANGE == 0 && exp.raw < 0 && b.raw == 0) ||
       (exp.raw % FRACTION_RANGE != 0 && b.raw <= 0)))
    ensures r.Err? && exp.raw % FRACTION_RANGE == 0 ==> r.fault == DivideByZero
    ensures r.Err? && exp.raw % FRACTION_RANGE != 0 ==> r.fault == ArgumentOutOfRange
  {
    if b == One || exp == Zero then Ok(One)
    else if exp.raw % FRACTION_RANGE == 0 then
      WholeExponentSign(exp);
      WholePower(b, RoundedWhole(exp))
    else PowThroughLog(t, b, exp)
  }

  /** A whole exponent rounds to a whole number of the same sign. */
  lemma WholeExponentSign(e: Fix)
    requires e.raw % FRACTION_RANGE == 0
    ensures RoundedWhole(e) < 0 <==> e.raw < 0
  {
    NearestWholeSign(e.raw, RoundedWhole(e));
  }

  lemma NearestWholeSign(x: i32, n: int)
    requires x % FRACTION_RANGE == 0
    requires x <= MAX32 - 512 ==> n * FRACTION_RANGE - 512 <= x < n * FRACTION_RANGE + 512
    ensures n < 0 <==> x < 0
  {
    var k := x / FRACTION_RANGE;
    assert x == k * FRACTION_RANGE;
  }

  /** `Pow` for an exponent with a fraction: `2^(exp * Log(b, 2))`, failing for a base of zero or below. */
  function PowThroughLog(t: Tables, b: Fix, exp: Fix): (r: Result<Fix>)
    requires t.Valid()
    ensures r.Err? <==> b.raw <= 0
    ensures r.Err? ==> r.fault == ArgumentOutOfRange
  {
    FixLog.LogBaseProperties(t, b, b);
    match FixLog.LogBase(t, b, FromInt(2))
    case Err(f) => Err(f)
    case Ok(l) => Ok(FractionalPower(t, Mul(exp, l)))
  }

  /** `b^n` for a whole `n`, through `1 / b` when `n` is negative. */
  function WholePower(b: Fix, n: i32): (r: Result<Fix>)
    requires MIN_INTEGER <= n <= MAX_INTEGER
    ensures r.Err? <==> n < 0 && b.raw == 0
    ensures r.Err? ==> r.fault == DivideByZero
  {
    if n < 0 then
      match Div(One, b)
      case Err(f) => Err(f)
      case Ok(inv) => Ok(SquareMultiply(inv, -n, One))
    else Ok(SquareMultiply(b, n, One))
  }

  /** `Pow` with its two loops. */
  method Pow(t: Tables, b: Fix, exp: Fix) returns (r: Result<Fix>)
    requires t.Valid()
    ensures r == PowSpec(t, b, exp)
  {
    if b == One || exp == Zero {
      return Ok(One);
    }
    if exp.raw % FRACTION_RANGE == 0 {
      r := WholePowerLoop(b, RoundedWhole(exp));
      return;
    }
    var l := FixLog.Log2(b);
    FixLog.LogBaseProperties(t, b, b);
    if l.Err? {
      return Err(l.fault);
    }
    var p := FractionalPowerLoop(t, Mul(exp, l.value));
    return Ok(p);
  }

  /** The whole-exponent branch of `Pow`: the reciprocal for a negative power, then the loop. */
  method WholePowerLoop(b: Fix, intPow: i32) returns (r: Result<Fix>)
    requires MIN_INTEGER <= intPow <= MAX_INTEGER
    ensures r == WholePower(b, intPow)
  {
    var base: Fix, p: nat;
    if intPow < 0 {
      var inv := Div(One, b);
      if inv.Err? {
        return Err(inv.fault);
      }
      base, p := inv.value, -intPow;
    } else {
      base, p := b, intPow;
    }
    var intFactor := SquareAndMultiply(base, p);
    return Ok(intFactor);
  }

  /** The fractional-exponent branch of `Pow`, from `e = exp * Log2(b)`. */
  method FractionalPowerLoop(t: Tables, e: Fix) returns (r: Fix)
    ensures r == FractionalPower(t, e)
  {
    var intPow := RoundedWhole(e);
    var intFactor := PowerOfTwo(intPow);
    var x := ExpArgument(t, e, intPow);
    if x == 0 {
      return intFactor;
    }
    var fracFactor := TaylorSum(t, x);
    return Scaled(intFactor, fracFactor);
  }

  /** The `while (p > 0)` loop of a whole exponent. */
  method SquareAndMultiply(base: Fix, n: nat) returns (r: Fix)
    ensures r == SquareMultiply(base, n, One)
  {
    var t, p := base, n;
    r := One;
    while p > 0
      invariant SquareMultiply(t, p, r) == SquareMultiply(base, n, One)
      decreases p
    {
      if p % 2 != 0 {
        r := Mul(r, t);
      }
      t := Mul(t, t);
      p := p / 2;
    }
  }

  /** The Taylor `for` loop over the inverse factorials, with its `break`. */
  method TaylorSum(t: Tables, x: i64) returns (fracFactor: i64)
    ensures fracFactor == TaylorFrom(t, 2, x, x, x)
  {
    fracFactor := x;
    var xa: i64 := x;
    var i := 2;
    while i < |t.invFactConsts|
      invariant 2 <= i
      invariant TaylorFrom(t, i, x, xa, fracFactor) == TaylorFrom(t, 2, x, x, x)
      decreases |t.invFactConsts| - i
    {
      if xa == 0 {
        break;
      }
      var next := MulQ32(xa, x);
      var sum := Wrap64(fracFactor + MulQ32(next, t.invFactConsts[i].raw));
      assert TaylorFrom(t, i, x, xa, fracFactor) == TaylorFrom(t, i + 1, x, next, sum);
      xa, fracFactor, i := next, sum, i + 1;
    }
  }

  /** `Exp(value)`: `Pow(E, value)`; it faults only if e in `Fix` were zero or below. */
  function Exp(t: Tables, value: Fix): (r: Result<Fix>)
    requires t.Valid()
    ensures t.E().raw > 0 ==> r.Ok?
    ensures value == Zero ==> r == Ok(One)
    ensures value == One ==> r == Ok(t.E())
  {
    PowFirst(t, t.E());
    PowSpec(t, t.E(), value)
  }

  // ----- whole exponents -----

  /** A whole exponent `n` in `Fix` rounds back to `n`. */
  lemma RoundedWholeOfInteger(n: i32)
    requires MIN_INTEGER <= n <= MAX_INTEGER
    ensures RoundedWhole(FromInt(n)) == n
  {
  }

  /** `Pow(b, 1) == b`. */
  lemma PowFirst(t: Tables, b: Fix)
    requires t.Valid()
    ensures PowSpec(t, b, One) == Ok(b)
  {
    RoundedWholeOfInteger(1);
    ScalarLaws.MulIdentities(b);
  }

  /** `Pow(b, -1) == 1 / b`, including the division by zero of a zero base. */
  lemma PowMinusFirst(t: Tables, b: Fix)
    requires t.Valid()
    ensures PowSpec(t, b, FromInt(-1)) == Div(One, b)
  {
    RoundedWholeOfInteger(-1);
    ScalarLaws.DivIdentities(One);
    if b != One && b.raw != 0 {
      ScalarLaws.MulIdentities(Div(One, b).value);
    }
  }

  /** A positive whole exponent runs the square and multiply loop on the base itself. */
  lemma PowOfWhole(t: Tables, b: Fix, n: nat)
    requires t.Valid() && b != One && 0 < n <= MAX_INTEGER
    ensures PowSpec(t, b, FromInt(n)) == Ok(SquareMultiply(b, n, One))
  {
    var e := FromInt(n);
    assert e.raw == n * FRACTION_RANGE;
    assert e.raw % FRACTION_RANGE == 0;
    RoundedWholeOfInteger(n);
  }

  /**
   * An integer raised to a whole exponent is exact as long as the power
   * fits the integer range of `Fix`: the square and multiply loop never
   * rounds then, and the squares it computes after the last one it uses
   * do not matter.
   */
  lemma PowOfInteger(t: Tables, a: i32, n: nat)
    requires t.Valid()
    requires Machine.Abs(a) <= MAX_INTEGER && n <= MAX_INTEGER
    requires Machine.Abs(IntPow(a, n)) <= MAX_INTEGER
    ensures PowSpec(t, FromInt(a), FromInt(n)) == Ok(FromInt(IntPow(a, n)))
  {
    if a == 1 {
      IntPowOfOne(n);
    } else if n > 0 {
      assert FromInt(a).raw == a * FRACTION_RANGE;
      PowOfWhole(t, FromInt(a), n);
      assert IntPow(a, n) == 1 * IntPow(a, n);
      SquareMultiplyExact(a, n, 1);
    }
  }

  lemma {:induction false} IntPowOfOne(n: nat)
    ensures IntPow(1, n) == 1
  {
    if n > 0 {
      IntPowOfOne(n - 1);
    }
  }

  lemma {:induction false} IntPowOfZero(n: nat)
    requires n > 0
    ensures IntPow(0, n) == 0
  {
  }

  /** Once the accumulator is zero it stays zero, whatever happens to `t`. */
  lemma {:induction false} SquareMultiplyOfZero(t: Fix, p: nat)
    ensures SquareMultiply(t, p, Zero) == Zero
    decreases p
  {
    if p > 0 {
      ScalarLaws.MulIdentities(t);
      SquareMultiplyOfZero(Mul(t, t), p / 2);
    }
  }

  /** `(c^2)^k == c^(2k)`. */
  lemma {:induction false} IntPowSquare(c: int, k: nat)
    ensures IntPow(c * c, k) == IntPow(c, 2 * k)
  {
    if k > 0 {
      IntPowSquare(c, k - 1);
      assert IntPow(c, 2 * k) == c * (c * IntPow(c, 2 * k - 2));
    }
  }

  lemma AbsMul(a: int, b: int)
    ensures Machine.Abs(a * b) == Machine.Abs(a) * Machine.Abs(b)
  {
    if a < 0 && b < 0 {
      assert a * b == (-a) * (-b);
    } else if a < 0 {
      assert -(a * b) == (-a) * b;
    } else if b < 0 {
      assert -(a * b) == a * (-b);
    }
  }

  /** The powers of a non-zero integer grow in magnitude. */
  lemma {:induction false} IntPowGrows(c: int, i: nat, j: nat)
    requires c != 0 && i <= j
    ensures Machine.Abs(IntPow(c, i)) <= Machine.Abs(IntPow(c, j))
    decreases j
  {
    if i < j {
      IntPowGrows(c, i, j - 1);
      var y := IntPow(c, j - 1);
      assert IntPow(c, j) == c * y;
      AbsMul(c, y);
      MulAtLeast(Machine.Abs(c), Machine.Abs(y));
    }
  }

  /** `|m * x| <= |m * y|` when `|x| <= |y|`, and `|y| <= |m * y|` for `m != 0`. */
  lemma ScaleAbs(m: int, x: int, y: int)
    requires m != 0 && Machine.Abs(x) <= Machine.Abs(y)
    ensures Machine.Abs(m * x) <= Machine.Abs(m * y)
    ensures Machine.Abs(y) <= Machine.Abs(m * y)
  {
    AbsMul(m, x);
    AbsMul(m, y);
    MulLessEq(Machine.Abs(m), Machine.Abs(x), Machine.Abs(y));
    MulAtLeast(Machine.Abs(m), Machine.Abs(y));
  }

  lemma MulAtLeast(k: nat, x: nat)
    requires k >= 1
    ensures k * x >= x
  {
  }

  lemma MulLessEq(k: nat, x: nat, y: nat)
    requires x <= y
    ensures k * x <= k * y
  {
  }

  /**
   * The loop invariant of square and multiply on integers: from the state
   * (c, p, m) the loop ends with m * c^p, provided that product fits.
   */
  lemma {:induction false} SquareMultiplyExact(c: i32, p: nat, m: i32)
    requires Machine.Abs(c) <= MAX_INTEGER && Machine.Abs(m) <= MAX_INTEGER && m != 0
    requires Machine.Abs(m * IntPow(c, p)) <= MAX_INTEGER
    ensures SquareMultiply(FromInt(c), p, FromInt(m)) == FromInt(m * IntPow(c, p))
    decreases p
  {
    if p == 0 {
    } else if c == 0 {
      IntPowOfZero(p);
      ScalarLaws.MulIntegers(0, 0);
      if p % 2 == 1 {
        ScalarLaws.MulIntegers(m, 0);
        SquareMultiplyOfZero(Zero, p / 2);
      } else {
        IntPowOfZero(p / 2);
        SquareMultiplyExact(0, p / 2, m);
      }
    } else {
      var t2 := Mul(FromInt(c), FromInt(c));
      var acc := if p % 2 == 1 then Mul(FromInt(m), FromInt(c)) else FromInt(m);
      assert SquareMultiply(FromInt(c), p, FromInt(m)) == SquareMultiply(t2, p / 2, acc);
      AccumulatorFits(c, p, m);
      var m2: i32 := if p % 2 == 1 then m * c else m;
      if p % 2 == 1 {
        ScalarLaws.MulIntegers(m, c);
      }
      assert acc == FromInt(m2);
      if p == 1 {
        assert IntPow(c, 1) == c;
      } else {
        SquareFits(c, p, m);
        ScalarLaws.MulIntegers(c, c);
        Regroup(c, p, m);
        SquareMultiplyExact(c * c, p / 2, m2);
      }
    }
  }

  /** Multiplying the accumulator by `c` stays within the final product. */
  lemma AccumulatorFits(c: int, p: nat, m: int)
    requires c != 0 && m != 0 && p >= 1 && Machine.Abs(m * IntPow(c, p)) <= MAX_INTEGER
    ensures Machine.Abs(m * c) <= MAX_INTEGER && m * c != 0
  {
    IntPowGrows(c, 1, p);
    assert IntPow(c, 1) == c;
    ScaleAbs(m, c, IntPow(c, p));
    AbsMul(m, c);
    MulAtLeast(Machine.Abs(m), Machine.Abs(c));
  }

  /** While two or more steps remain, the square of `c` fits as well. */
  lemma SquareFits(c: int, p: nat, m: int)
    requires c != 0 && m != 0 && p >= 2 && Machine.Abs(m * IntPow(c, p)) <= MAX_INTEGER
    ensures Machine.Abs(c * c) <= MAX_INTEGER
  {
    var y := IntPow(c, p);
    IntPowGrows(c, 2, p);
    assert IntPow(c, 1) == c;
    assert IntPow(c, 2) == c * c;
    AbsMul(m, y);
    MulAtLeast(Machine.Abs(m), Machine.Abs(y));
  }

  /** `m' * (c^2)^(p/2) == m * c^p`, with `m' = m * c` for an odd `p`. */
  lemma Regroup(c: int, p: nat, m: int)
    requires p >= 1
    ensures (if p % 2 == 1 then m * c else m) * IntPow(c * c, p / 2) == m * IntPow(c, p)
  {
    IntPowSquare(c, p / 2);
    if p % 2 == 1 {
      assert IntPow(c, p) == c * IntPow(c, p - 1);
      assert 2 * (p / 2) == p - 1;
    } else {
      assert 2 * (p / 2) == p;
    }
  }

  // ----- exponents with a fraction -----

  /**
   * Unless `exp.Raw + 512` overflows, the rounded whole part leaves a rest
   * in [-512, 511] (in units of 1/1024), and the `int` subtraction that
   * computes the rest does not wrap.
   */
  lemma FractionalSplit(e: Fix)
    requires e.raw <= MAX32 - 512
    ensures var n := RoundedWhole(e);
      Wrap32(e.raw - Shl32(n, 10)) == e.raw - n * FRACTION_RANGE &&
      -512 <= e.raw - n * FRACTION_RANGE <= 511
  {
    RestUnwrapped(e.raw, RoundedWhole(e));
  }

  /** Taking a nearby whole number of units off a 32-bit value wraps nowhere. */
  lemma RestUnwrapped(x: i32, n: i32)
    requires MIN_INTEGER <= n <= MAX_INTEGER
    requires n * FRACTION_RANGE - 512 <= x < n * FRACTION_RANGE + 512
    ensures Wrap32(x - Shl32(n, 10)) == x - n * FRACTION_RANGE
  {
    Pow2Value10();
    assert 10 % 32 == 10;
    assert Shl32(n, 10) == Wrap32(n * FRACTION_RANGE);
    assert Wrap32(n * FRACTION_RANGE) == n * FRACTION_RANGE;
  }

  /**
   * The rest times ln 2 is rounded to 32.32 form: with `L` the raw value of
   * ln 2 (in units of 2^-32), `x` is `(rest * L + 512) >> 10`, so that
   * `e^(x / 2^32) == 2^(rest / 1024)` up to rounding.
   */
  lemma ExpArgumentScales(t: Tables, e: Fix)
    requires 0 <= t.ln2Const.raw < TWO32 && e.raw <= MAX32 - 512
    ensures var n := RoundedWhole(e);
      var rest := e.raw - n * FRACTION_RANGE;
      var x := ExpArgument(t, e, n);
      x * FRACTION_RANGE <= rest * t.ln2Const.raw + 512 < (x + 1) * FRACTION_RANGE
  {
    FractionalSplit(e);
    var n := RoundedWhole(e);
    var rest := e.raw - n * FRACTION_RANGE;
    var l := t.ln2Const.raw;
    RestTimesLn2(rest, l);
    ExpArgumentUnfolds(t, e, n);
    ShiftedProduct(Wrap32(e.raw - Shl32(n, 10)), rest, l, ExpArgument(t, e, n));
  }

  lemma ExpArgumentUnfolds(t: Tables, e: Fix, n: i32)
    ensures ExpArgument(t, e, n) == Shr64(Wrap64(Wrap64(Wrap32(e.raw - Shl32(n, 10)) * t.ln2Const.raw) + 512), 10)
  {
  }

  lemma ShiftedProduct(r: int, rest: int, l: int, x: int)
    requires r == rest && -512 * TWO32 <= rest * l <= 511 * TWO32
    requires x == Shr64(Wrap64(Wrap64(r * l) + 512), 10)
    ensures x * FRACTION_RANGE <= rest * l + 512 < (x + 1) * FRACTION_RANGE
  {
    var p := rest * l;
    assert Wrap64(Wrap64(p) + 512) == p + 512;
    Shr64Floor(p + 512, 10);
    Pow2Value10();
  }

  lemma RestTimesLn2(rest: int, l: int)
    requires -512 <= rest <= 511 && 0 <= l < TWO32
    ensures -512 * TWO32 <= rest * l <= 511 * TWO32
  {
    if rest >= 0 {
      MulLessEq(l, rest, 511);
      MulLessEq(511, l, TWO32);
    } else {
      MulLessEq(l, -rest, 512);
      MulLessEq(512, l, TWO32);
    }
  }

  /** `One << n` is 2^n exactly for 0 <= n <= 20. */
  lemma ShiftedOne(n: i32)
    requires 0 <= n <= 20
    ensures PowerOfTwo(n).raw == FRACTION_RANGE * Pow2(n)
  {
    var v := FRACTION_RANGE * Pow2(n);
    assert v <= MAX32 by {
      Pow2Value22();
      Pow2Monotone(n, 20);
      assert Pow2(21) == 2 * Pow2(20);
    }
    assert n % 32 == n;
    assert Shl32(FRACTION_RANGE, n) == Wrap32(v);
  }

  /** `One >> k` is 2^(10 - k) for 0 < k <= 10. */
  lemma HalvedOne(n: i32)
    requires -10 <= n < 0
    ensures PowerOfTwo(n).raw == Pow2(10 + n)
  {
    var k: nat := -n;
    Pow2Add(10 + n, k);
    Pow2Value10();
    assert PowerOfTwo(n).raw == Shr32(FRACTION_RANGE, k);
    Shr32Exact(FRACTION_RANGE, k, Pow2(10 + n));
  }

  /** After a whole exponent the argument of the Taylor series is zero. */
  lemma ExpArgumentOfWhole(t: Tables, n: i32)
    requires MIN_INTEGER <= n <= MAX_INTEGER
    ensures ExpArgument(t, FromInt(n), n) == 0
  {
    WholeRest(n);
    var p := Wrap64(Wrap64(0 * t.ln2Const.raw) + 512);
    assert p == 512;
    HalfUlpShifted();
  }

  /** The rest of a whole exponent is zero. */
  lemma WholeRest(n: i32)
    requires MIN_INTEGER <= n <= MAX_INTEGER
    ensures Wrap32(FromInt(n).raw - Shl32(n, 10)) == 0
  {
    Pow2Value10();
  }

  /** `512 >> 10 == 0` on `long`. */
  lemma HalfUlpShifted()
    ensures Shr64(512, 10) == 0
  {
    Pow2Value10();
    assert 10 % 64 == 10;
  }

  /** An exponent with a fraction goes through `Log(b, 2)`, that is `Log2(b)`. */
  lemma PowOfFraction(t: Tables, b: Fix, exp: Fix, l: Fix)
    requires t.Valid() && b != One && exp.raw % FRACTION_RANGE != 0
    requires FixLog.Log2Spec(b) == Ok(l)
    ensures PowSpec(t, b, exp) == Ok(FractionalPower(t, Mul(exp, l)))
  {
    assert exp != Zero;
    FixLog.LogBaseProperties(t, b, b);
    assert FixLog.LogBase(t, b, FromInt(2)) == Ok(l);
  }

  /** A whole exponent 0 <= n <= 20 of two skips the Taylor series and is exact. */
  lemma FractionalPowerOfWhole(t: Tables, n: i32)
    requires 0 <= n <= 20
    ensures FractionalPower(t, FromInt(n)).raw == FRACTION_RANGE * Pow2(n)
  {
    RoundedWholeOfInteger(n);
    ShiftedOne(n);
    ExpArgumentOfWhole(t, n);
  }

  /**
   * When `exp * Log2(b)` is a whole number `n` the Taylor series is skipped
   * and `Pow` returns 2^n exactly (for 0 <= n <= 20).
   */
  lemma PowWholeOctave(t: Tables, b: Fix, exp: Fix, l: Fix, n: i32)
    requires t.Valid() && b != One && exp.raw % FRACTION_RANGE != 0
    requires FixLog.Log2Spec(b) == Ok(l) && Mul(exp, l) == FromInt(n) && 0 <= n <= 20
    ensures PowSpec(t, b, exp).Ok? && PowSpec(t, b, exp).value.raw == FRACTION_RANGE * Pow2(n)
  {
    PowOfFraction(t, b, exp, l);
    FractionalPowerOfWhole(t, n);
  }

  /** `Pow(4, 0.5) == 2`: Log2(4) is exactly 2, so the exponent is exactly 1. */
  lemma PowSquareRootOfFour(t: Tables)
    requires t.Valid()
    ensures PowSpec(t, FromInt(4), Fix(512)) == Ok(FromInt(2))
  {
    FixLog.Log2OfPowerOfTwo(12);
    Pow2Value10();
    Pow2Add(10, 2);
    assert Mul(Fix(512), Fix(2048)) == Fix(1024);
    PowWholeOctave(t, Fix(4096), Fix(512), Fix(2048), 1);
  }
}
