/**
 * `FixVec2`: an immutable pair of `Fix` coordinates. Every operator acts
 * componentwise with the wrapping `Fix` arithmetic; the magnitude goes
 * through the 64-bit sum of squares and `SqrtULong`.
 */
module Vec2 {
  import opened Machine
  import opened Scalar
  import FixMath
  import FixTrig
  import ScalarLaws

  /** `(int)(SqrtULong(n) + 1) >> 1`: half the capped root, rounded half up. */
  function HalfRoot(n: u64): (h: i32)
    requires n > 0
    ensures 1 <= h <= 0x20_0000
    ensures h * 2 <= FixMath.SqrtCapped(n) + 1 < h * 2 + 2
  {
    FixMath.CappedRootPositive(n);
    FixMath.HalfUp(FixMath.SqrtCapped(n))
  }

  /** Below the cap, `HalfRoot(n)` is the root of n rounded to the nearest half-step. */
  lemma HalfRootRounds(n: u64)
    requires n > 0 && FixMath.SqrtCapped(n) < FixMath.SQRT_START
    ensures FixMath.RoundedRoot(n, HalfRoot(n))
  {
    FixMath.CappedRounds(n, FixMath.SqrtCapped(n), HalfRoot(n));
  }

  datatype FixVec2 = FixVec2(x: Fix, y: Fix)
  {
    static const Zero: FixVec2 := FixVec2(Fix(0), Fix(0))
    static const One: FixVec2 := FixVec2(Scalar.One, Scalar.One)
    static const UnitX: FixVec2 := FixVec2(Scalar.One, Fix(0))
    static const UnitY: FixVec2 := FixVec2(Fix(0), Scalar.One)

    /** Unary minus. */
    function Negate(): FixVec2 {
      FixVec2(Neg(x), Neg(y))
    }

    function Add(rhs: FixVec2): FixVec2 {
      FixVec2(Scalar.Add(x, rhs.x), Scalar.Add(y, rhs.y))
    }

    function Sub(rhs: FixVec2): FixVec2 {
      FixVec2(Scalar.Sub(x, rhs.x), Scalar.Sub(y, rhs.y))
    }

    /** `v + s` and `s + v`. */
    function ScalarAdd(value: Fix): FixVec2 {
      FixVec2(Scalar.Add(x, value), Scalar.Add(y, value))
    }

    /** `v - s`. */
    function ScalarSub(value: Fix): FixVec2 {
      FixVec2(Scalar.Sub(x, value), Scalar.Sub(y, value))
    }

    /** `v * s` and `s * v`. */
    function ScalarMultiply(value: Fix): FixVec2 {
      FixVec2(Mul(x, value), Mul(y, value))
    }

    /** `v / s`: divides both coordinates; a zero divisor faults. */
    function ScalarDivide(value: Fix): (r: Result<FixVec2>)
      ensures r.Err? <==> value.raw == 0
      ensures r.Err? ==> r.fault == DivideByZero
    {
      match Div(x, value)
      case Err(f) => Err(f)
      case Ok(qx) =>
        match Div(y, value)
        case Err(f) => Err(f)
        case Ok(qy) => Ok(FixVec2(qx, qy))
    }

    function Dot(rhs: FixVec2): Fix {
      Scalar.Add(Mul(x, rhs.x), Mul(y, rhs.y))
    }

    function Cross(rhs: FixVec2): Fix {
      Scalar.Sub(Mul(x, rhs.y), Mul(y, rhs.x))
    }

    /** `(ulong)(X.Raw * (long)X.Raw + Y.Raw * (long)Y.Raw)`: the sum wraps on `long`. */
    function SquareSum(): u64 {
      ToU64(Wrap64(x.raw * x.raw + y.raw * y.raw))
    }

    /**
     * `GetMagnitude`: zero for the zero vector, otherwise half the root of
     * `SquareSum() << 2`. That shift can wrap to zero (e.g. for
     * `(MinValue, 0)`), and `SqrtULong(0)` divides by zero.
     */
    function GetMagnitude(): (r: Result<Fix>)
      ensures r.Err? <==> (x.raw != 0 || y.raw != 0) && ToU64(SquareSum() * 4) == 0
      ensures r.Err? ==> r.fault == DivideByZero
      ensures r.Ok? ==> 0 <= r.value.raw <= 0x20_0000
      ensures r.Ok? && r.value.raw == 0 ==> x.raw == 0 && y.raw == 0
    {
      if x.raw == 0 && y.raw == 0 then Ok(Fix(0))
      else
        var n := ToU64(SquareSum() * 4);
        if n == 0 then Err(DivideByZero) else Ok(Fix(HalfRoot(n)))
    }

    /** `Normalize`: each coordinate over the magnitude; the zero vector stays zero. */
    function Normalize(): (r: Result<FixVec2>)
      ensures r.Err? <==> GetMagnitude().Err?
      ensures r.Err? ==> r.fault == DivideByZero
      ensures x.raw == 0 && y.raw == 0 ==> r == Ok(Zero)
    {
      if x.raw == 0 && y.raw == 0 then Ok(Zero)
      else
        match GetMagnitude()
        case Err(f) => Err(f)
        case Ok(m) => ScalarDivide(m)
    }

    /** `Rotate(degree)`: `(X cos - Y sin, X sin + Y cos)` with the table cosine and sine. */
    function Rotate(t: FixMath.Tables, degree: Fix): FixVec2
      requires t.Valid() && FixTrig.TrigDefined(degree)
    {
      var c := FixTrig.Cos(t, degree);
      var s := FixTrig.Sin(t, degree);
      FixVec2(Scalar.Sub(Mul(x, c), Mul(y, s)), Scalar.Add(Mul(x, s), Mul(y, c)))
    }
  }

  // ----- the group laws of wrapping addition -----

  /** Subtracting what was added gives the vector back, wrap-around included. */
  lemma AddSubRoundTrip(a: FixVec2, b: FixVec2)
    ensures a.Add(b).Sub(b) == a
    ensures a.Sub(b).Add(b) == a
  {
    FixAddSub(a.x, b.x);
    FixAddSub(a.y, b.y);
  }

  lemma FixAddSub(a: Fix, b: Fix)
    ensures Scalar.Sub(Scalar.Add(a, b), b) == a
    ensures Scalar.Add(Scalar.Sub(a, b), b) == a
  {
    Wrap32AddSub(a.raw, b.raw);
  }

  /** The same for a scalar added to, then subtracted from, both coordinates. */
  lemma ScalarAddSubRoundTrip(a: FixVec2, s: Fix)
    ensures a.ScalarAdd(s).ScalarSub(s) == a
  {
    FixAddSub(a.x, s);
    FixAddSub(a.y, s);
  }

  /** `a + b == b + a`, and `a - b == a + (-b)`. */
  lemma AddLaws(a: FixVec2, b: FixVec2)
    ensures a.Add(b) == b.Add(a)
    ensures a.Sub(b) == a.Add(b.Negate())
  {
    ScalarLaws.SubIsAddNeg(a.x, b.x);
    ScalarLaws.SubIsAddNeg(a.y, b.y);
  }

  /** Negation is undone by negation (the coordinate `MinValue` is its own negation). */
  lemma NegateTwice(a: FixVec2)
    ensures a.Negate().Negate() == a
  {
    ScalarLaws.NegWraps(a.x);
    ScalarLaws.NegWraps(a.y);
  }

  /** Scaling by 1 and dividing by 1 change nothing; dividing by 0 faults. */
  lemma ScalarIdentities(a: FixVec2)
    ensures a.ScalarMultiply(Scalar.One) == a
    ensures a.ScalarDivide(Scalar.One) == Ok(a)
    ensures a.ScalarDivide(Scalar.Zero) == Err(DivideByZero)
  {
    ScalarLaws.MulIdentities(a.x);
    ScalarLaws.MulIdentities(a.y);
    ScalarLaws.DivIdentities(a.x);
    ScalarLaws.DivIdentities(a.y);
  }

  // ----- dot and cross -----

  lemma DotSymmetric(a: FixVec2, b: FixVec2)
    ensures a.Dot(b) == b.Dot(a)
  {
    ScalarLaws.MulCommutative(a.x, b.x);
    ScalarLaws.MulCommutative(a.y, b.y);
  }

  /** `a x b == -(b x a)` exactly, wrap-around included, and `a x a == 0`. */
  lemma CrossAntisymmetric(a: FixVec2, b: FixVec2)
    ensures a.Cross(b) == Neg(b.Cross(a))
    ensures a.Cross(a) == Scalar.Zero
  {
    var p, q := Mul(a.x, b.y), Mul(a.y, b.x);
    ScalarLaws.MulCommutative(a.x, b.y);
    ScalarLaws.MulCommutative(a.y, b.x);
    ScalarLaws.MulCommutative(a.x, a.y);
    SubIsNegatedSwap(p, q);
  }

  lemma SubIsNegatedSwap(p: Fix, q: Fix)
    ensures Scalar.Sub(p, q) == Neg(Scalar.Sub(q, p))
  {
    Wrap32Congruent(p.raw - q.raw, -(Scalar.Sub(q, p).raw as int));
  }

  // ----- magnitude and normalisation -----

  /** The zero vector has magnitude 0 and normalises to itself; so do the axes' units to 1. */
  lemma ZeroMagnitude()
    ensures FixVec2.Zero.GetMagnitude() == Ok(Scalar.Zero)
    ensures FixVec2.Zero.Normalize() == Ok(FixVec2.Zero)
  {
  }

  /**
   * On an axis the magnitude is the absolute value of the coordinate,
   * exactly, up to the cap of 2048 that `SqrtULong` imposes.
   */
  lemma AxisMagnitude(a: Fix)
    requires -0x20_0000 <= a.raw <= 0x20_0000
    ensures FixVec2(a, Fix(0)).GetMagnitude() == Ok(FixMath.Abs(a))
    ensures FixVec2(Fix(0), a).GetMagnitude() == Ok(FixMath.Abs(a))
  {
    if a.raw != 0 {
      var k: nat := Machine.Abs(a.raw);
      SquareOfAxis(a.raw, k);
      assert FixMath.Abs(a) == Fix(k);
      var u, w := FixVec2(a, Fix(0)), FixVec2(Fix(0), a);
      assert u.SquareSum() == k * k;
      assert w.SquareSum() == k * k;
      MagnitudeOfSquare(u, k);
      MagnitudeOfSquare(w, k);
    }
  }

  /** A non-zero vector whose square sum is `k^2` has magnitude `k`. */
  lemma MagnitudeOfSquare(v: FixVec2, k: nat)
    requires v.x.raw != 0 || v.y.raw != 0
    requires 1 <= k <= 0x20_0000 && v.SquareSum() == k * k
    ensures v.GetMagnitude() == Ok(Fix(k))
  {
    HalfRootOfSquare(k);
    assert ToU64(v.SquareSum() * 4) == 4 * (k * k);
  }


  lemma SquareOfAxis(a: int, k: nat)
    requires k == Machine.Abs(a) && k <= 0x20_0000
    ensures a * a == k * k
    ensures 4 * (k * k) <= 4 * (0x20_0000 * 0x20_0000)
  {
    FixMath.SquareMonotone(k, 0x20_0000);
  }

  /** Half the root of 4k^2 is k, also when 2k reaches the cap. */
  lemma HalfRootOfSquare(k: nat)
    requires 1 <= k <= 0x20_0000
    ensures 4 * (k * k) < TWO64 && HalfRoot(4 * (k * k)) == k
  {
    var n := 4 * (k * k);
    assert n <= 4 * (0x20_0000 * 0x20_0000) by {
      FixMath.SquareMonotone(k, 0x20_0000);
    }
    assert (2 * k) * (2 * k) == n && n < (2 * k + 1) * (2 * k + 1);
    FixMath.ISqrtUnique(n, 2 * k);
    assert FixMath.SqrtCapped(n) == 2 * k;
  }

  /** A vector on the x-axis normalises to the unit vector of its sign. */
  lemma AxisNormalize(a: Fix)
    requires a.raw != 0 && -0x20_0000 <= a.raw <= 0x20_0000
    ensures FixVec2(a, Fix(0)).Normalize() == Ok(FixVec2(FixMath.Sign(a), Fix(0)))
  {
    AxisMagnitude(a);
    var m := FixMath.Abs(a);
    SelfQuotient(a.raw, m.raw);
    ZeroQuotient(m.raw);
  }

  lemma ZeroQuotient(m: i32)
    requires m != 0
    ensures RoundedQuotient(0, m) == 0
  {
    assert 0 * 2048 == 0;
    assert TruncDiv(0, m) == 0;
  }

  /** `a / |a|` is 1 or -1 exactly. */
  lemma SelfQuotient(a: i32, m: i32)
    requires a != 0 && m == Machine.Abs(a)
    ensures RoundedQuotient(a, m) == if a > 0 then FRACTION_RANGE else -FRACTION_RANGE
  {
    TruncDivExact(2048, m);
    if a < 0 {
      assert a * 2048 == -(2048 * m);
      TruncDivNeg(2048 * m, m);
    }
  }

  /** The units of the axes have magnitude 1 exactly. */
  lemma UnitMagnitudes()
    ensures FixVec2.UnitX.GetMagnitude() == Ok(Scalar.One)
    ensures FixVec2.UnitY.GetMagnitude() == Ok(Scalar.One)
  {
    AxisMagnitude(Scalar.One);
  }

  // ----- rotation -----

  /** With exact table ends, a rotation by 0 degrees leaves every vector unchanged. */
  lemma RotateByZero(t: FixMath.Tables, v: FixVec2)
    requires t.Valid() && FixTrig.ExactEndpoints(t)
    ensures FixTrig.TrigDefined(Scalar.Zero)
    ensures v.Rotate(t, Scalar.Zero) == v
  {
    var c, sn := FixTrig.Cos(t, Scalar.Zero), FixTrig.Sin(t, Scalar.Zero);
    assert c == Scalar.One && sn == Scalar.Zero by {
      FixTrig.TrigAtZero(t);
    }
    assert v.Rotate(t, Scalar.Zero) ==
      FixVec2(Scalar.Sub(Mul(v.x, c), Mul(v.y, sn)), Scalar.Add(Mul(v.x, sn), Mul(v.y, c)));
    TurnByUnit(v);
  }

  lemma TurnByUnit(v: FixVec2)
    ensures FixVec2(Scalar.Sub(Mul(v.x, Scalar.One), Mul(v.y, Scalar.Zero)),
                    Scalar.Add(Mul(v.x, Scalar.Zero), Mul(v.y, Scalar.One))) == v
  {
    ScalarLaws.MulIdentities(v.x);
    ScalarLaws.MulIdentities(v.y);
  }
}
