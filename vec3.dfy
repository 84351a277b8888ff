/**
 * `FixVec3`: an immutable triple of `Fix` coordinates, with the same
 * componentwise wrapping arithmetic as `FixVec2`, the right-handed cross
 * product, and the magnitude through the 64-bit sum of squares.
 */
module Vec3 {
  import opened Machine
  import opened Scalar
  import FixMath
  import ScalarLaws
  import Vec2

  datatype FixVec3 = FixVec3(x: Fix, y: Fix, z: Fix)
  {
    static const Zero: FixVec3 := FixVec3(Fix(0), Fix(0), Fix(0))
    static const One: FixVec3 := FixVec3(Scalar.One, Scalar.One, Scalar.One)
    static const UnitX: FixVec3 := FixVec3(Scalar.One, Fix(0), Fix(0))
    static const UnitY: FixVec3 := FixVec3(Fix(0), Scalar.One, Fix(0))
    static const UnitZ: FixVec3 := FixVec3(Fix(0), Fix(0), Scalar.One)

    /** Unary minus. */
    function Negate(): FixVec3 {
      FixVec3(Neg(x), Neg(y), Neg(z))
    }

    function Add(rhs: FixVec3): FixVec3 {
      FixVec3(Scalar.Add(x, rhs.x), Scalar.Add(y, rhs.y), Scalar.Add(z, rhs.z))
    }

    function Sub(rhs: FixVec3): FixVec3 {
      FixVec3(Scalar.Sub(x, rhs.x), Scalar.Sub(y, rhs.y), Scalar.Sub(z, rhs.z))
    }

    /** `v + s` and `s + v`. */
    function ScalarAdd(value: Fix): FixVec3 {
      FixVec3(Scalar.Add(x, value), Scalar.Add(y, value), Scalar.Add(z, value))
    }

    /** `v - s`. */
    function ScalarSub(value: Fix): FixVec3 {
      FixVec3(Scalar.Sub(x, value), Scalar.Sub(y, value), Scalar.Sub(z, value))
    }

    /** `v * s` and `s * v`. */
    function ScalarMultiply(value: Fix): FixVec3 {
      FixVec3(Mul(x, value), Mul(y, value), Mul(z, value))
    }

    /** `v / s`: divides every coordinate; a zero divisor faults. */
    function ScalarDivide(value: Fix): (r: Result<FixVec3>)
      ensures r.Err? <==> value.raw == 0
      ensures r.Err? ==> r.fault == DivideByZero
    {
      if value.raw == 0 then Err(DivideByZero)
      else Ok(FixVec3(Div(x, value).value, Div(y, value).value, Div(z, value).value))
    }

    /** `X * rhs.X + Y * rhs.Y + Z * rhs.Z`, added left to right. */
    function Dot(rhs: FixVec3): Fix {
      Scalar.Add(Scalar.Add(Mul(x, rhs.x), Mul(y, rhs.y)), Mul(z, rhs.z))
    }

    function Cross(rhs: FixVec3): FixVec3 {
      FixVec3(
        Scalar.Sub(Mul(y, rhs.z), Mul(z, rhs.y)),
        Scalar.Sub(Mul(z, rhs.x), Mul(x, rhs.z)),
        Scalar.Sub(Mul(x, rhs.y), Mul(y, rhs.x)))
    }

    /**
     * The sum of the three squares on `long`, then reinterpreted as
     * `ulong`. Wrapping after each addition or once at the end gives the
     * same 64 bits.
     */
    function SquareSum(): u64 {
      ToU64(Wrap64(x.raw * x.raw + y.raw * y.raw + z.raw * z.raw))
    }

    /** `GetMagnitude`, as in two dimensions: `SqrtULong(0)` divides by zero. */
    function GetMagnitude(): (r: Result<Fix>)
      ensures r.Err? <==> !IsZero() && ToU64(SquareSum() * 4) == 0
      ensures r.Err? ==> r.fault == DivideByZero
      ensures r.Ok? ==> 0 <= r.value.raw <= 0x20_0000
      ensures r.Ok? && r.value.raw == 0 ==> IsZero()
    {
      if IsZero() then Ok(Fix(0))
      else
        var n := ToU64(SquareSum() * 4);
        if n == 0 then Err(DivideByZero) else Ok(Fix(Vec2.HalfRoot(n)))
    }

    predicate IsZero() {
      x.raw == 0 && y.raw == 0 && z.raw == 0
    }

    /** `Normalize`: each coordinate over the magnitude; the zero vector stays zero. */
    function Normalize(): (r: Result<FixVec3>)
      ensures r.Err? <==> GetMagnitude().Err?
      ensures r.Err? ==> r.fault == DivideByZero
      ensures IsZero() ==> r == Ok(Zero)
    {
      if IsZero() then Ok(Zero)
      else
        match GetMagnitude()
        case Err(f) => Err(f)
        case Ok(m) => ScalarDivide(m)
    }
  }

  /** The implicit conversion from `FixVec2`: the vector in the plane z = 0. */
  function FromVec2(v: Vec2.FixVec2): (r: FixVec3)
    ensures r.z == Fix(0)
  {
    FixVec3(v.x, v.y, Fix(0))
  }

  // ----- the group laws of wrapping addition -----

  /** Subtracting what was added gives the vector back, wrap-around included. */
  lemma AddSubRoundTrip(a: FixVec3, b: FixVec3)
    ensures a.Add(b).Sub(b) == a
    ensures a.Sub(b).Add(b) == a
  {
    Vec2.FixAddSub(a.x, b.x);
    Vec2.FixAddSub(a.y, b.y);
    Vec2.FixAddSub(a.z, b.z);
  }

  lemma ScalarAddSubRoundTrip(a: FixVec3, s: Fix)
    ensures a.ScalarAdd(s).ScalarSub(s) == a
  {
    Vec2.FixAddSub(a.x, s);
    Vec2.FixAddSub(a.y, s);
    Vec2.FixAddSub(a.z, s);
  }

  lemma NegateTwice(a: FixVec3)
    ensures a.Negate().Negate() == a
  {
    ScalarLaws.NegWraps(a.x);
    ScalarLaws.NegWraps(a.y);
    ScalarLaws.NegWraps(a.z);
  }

  /** Scaling by 1 and dividing by 1 change nothing; dividing by 0 faults. */
  lemma ScalarIdentities(a: FixVec3)
    ensures a.ScalarMultiply(Scalar.One) == a
    ensures a.ScalarDivide(Scalar.One) == Ok(a)
    ensures a.ScalarDivide(Scalar.Zero) == Err(DivideByZero)
  {
    ScalarLaws.MulIdentities(a.x);
    ScalarLaws.MulIdentities(a.y);
    ScalarLaws.MulIdentities(a.z);
    ScalarLaws.DivIdentities(a.x);
    ScalarLaws.DivIdentities(a.y);
    ScalarLaws.DivIdentities(a.z);
  }

  // ----- dot and cross -----

  lemma DotSymmetric(a: FixVec3, b: FixVec3)
    ensures a.Dot(b) == b.Dot(a)
  {
    ScalarLaws.MulCommutative(a.x, b.x);
    ScalarLaws.MulCommutative(a.y, b.y);
    ScalarLaws.MulCommutative(a.z, b.z);
  }

  /** `a x b == -(b x a)` exactly, and `a x a` is the zero vector. */
  lemma CrossAntisymmetric(a: FixVec3, b: FixVec3)
    ensures a.Cross(b) == b.Cross(a).Negate()
    ensures a.Cross(a) == FixVec3.Zero
  {
    ScalarLaws.MulCommutative(a.y, b.z);
    ScalarLaws.MulCommutative(a.z, b.y);
    ScalarLaws.MulCommutative(a.z, b.x);
    ScalarLaws.MulCommutative(a.x, b.z);
    ScalarLaws.MulCommutative(a.x, b.y);
    ScalarLaws.MulCommutative(a.y, b.x);
    Vec2.SubIsNegatedSwap(Mul(a.y, b.z), Mul(a.z, b.y));
    Vec2.SubIsNegatedSwap(Mul(a.z, b.x), Mul(a.x, b.z));
    Vec2.SubIsNegatedSwap(Mul(a.x, b.y), Mul(a.y, b.x));
    ScalarLaws.MulCommutative(a.y, a.z);
    ScalarLaws.MulCommutative(a.z, a.x);
    ScalarLaws.MulCommutative(a.x, a.y);
  }

  /** The unit vectors form a right-handed basis: x cross y is z, and cyclically. */
  lemma CrossOfUnits()
    ensures FixVec3.UnitX.Cross(FixVec3.UnitY) == FixVec3.UnitZ
    ensures FixVec3.UnitY.Cross(FixVec3.UnitZ) == FixVec3.UnitX
    ensures FixVec3.UnitZ.Cross(FixVec3.UnitX) == FixVec3.UnitY
  {
    ScalarLaws.MulIdentities(Scalar.One);
    ScalarLaws.MulIdentities(Scalar.Zero);
  }

  /** The units are orthonormal under `Dot`. */
  lemma DotOfUnits()
    ensures FixVec3.UnitX.Dot(FixVec3.UnitX) == Scalar.One
    ensures FixVec3.UnitX.Dot(FixVec3.UnitY) == Scalar.Zero
    ensures FixVec3.UnitY.Dot(FixVec3.UnitZ) == Scalar.Zero
    ensures FixVec3.UnitZ.Dot(FixVec3.UnitZ) == Scalar.One
  {
    ScalarLaws.MulIdentities(Scalar.One);
    ScalarLaws.MulIdentities(Scalar.Zero);
  }

  // ----- the plane z = 0 -----

  /** Lifting to three dimensions keeps the dot product of two plane vectors. */
  lemma FromVec2Dot(a: Vec2.FixVec2, b: Vec2.FixVec2)
    ensures FromVec2(a).Dot(FromVec2(b)) == a.Dot(b)
  {
    ScalarLaws.MulIdentities(Scalar.Zero);
  }

  /** The cross product of two plane vectors points along z, with the 2D cross as length. */
  lemma FromVec2Cross(a: Vec2.FixVec2, b: Vec2.FixVec2)
    ensures FromVec2(a).Cross(FromVec2(b)) == FixVec3(Fix(0), Fix(0), a.Cross(b))
  {
    ScalarLaws.MulIdentities(a.x);
    ScalarLaws.MulIdentities(a.y);
    ScalarLaws.MulIdentities(b.x);
    ScalarLaws.MulIdentities(b.y);
  }

  /** Lifting keeps the magnitude and commutes with the vector operations. */
  lemma FromVec2Magnitude(a: Vec2.FixVec2)
    ensures FromVec2(a).GetMagnitude() == a.GetMagnitude()
  {
    assert FromVec2(a).SquareSum() == a.SquareSum();
  }

  lemma FromVec2Operations(a: Vec2.FixVec2, b: Vec2.FixVec2, s: Fix)
    ensures FromVec2(a.Add(b)) == FromVec2(a).Add(FromVec2(b))
    ensures FromVec2(a.Sub(b)) == FromVec2(a).Sub(FromVec2(b))
    ensures FromVec2(a.Negate()) == FromVec2(a).Negate()
    ensures FromVec2(a.ScalarMultiply(s)) == FromVec2(a).ScalarMultiply(s)
  {
    ScalarLaws.MulIdentities(s);
  }

  // ----- magnitude and normalisation -----

  lemma ZeroMagnitude()
    ensures FixVec3.Zero.GetMagnitude() == Ok(Scalar.Zero)
    ensures FixVec3.Zero.Normalize() == Ok(FixVec3.Zero)
  {
  }

  /** A non-zero vector whose square sum is `k^2` has magnitude `k`. */
  lemma MagnitudeOfSquare(v: FixVec3, k: nat)
    requires !v.IsZero()
    requires 1 <= k <= 0x20_0000 && v.SquareSum() == k * k
    ensures v.GetMagnitude() == Ok(Fix(k))
  {
    Vec2.HalfRootOfSquare(k);
    assert ToU64(v.SquareSum() * 4) == 4 * (k * k);
  }

  /** On each axis the magnitude is the absolute value of the coordinate. */
  lemma AxisMagnitude(a: Fix)
    requires -0x20_0000 <= a.raw <= 0x20_0000
    ensures FixVec3(a, Fix(0), Fix(0)).GetMagnitude() == Ok(FixMath.Abs(a))
    ensures FixVec3(Fix(0), a, Fix(0)).GetMagnitude() == Ok(FixMath.Abs(a))
    ensures FixVec3(Fix(0), Fix(0), a).GetMagnitude() == Ok(FixMath.Abs(a))
  {
    if a.raw != 0 {
      var k: nat := Machine.Abs(a.raw);
      Vec2.SquareOfAxis(a.raw, k);
      assert FixMath.Abs(a) == Fix(k);
      var u, v, w := FixVec3(a, Fix(0), Fix(0)), FixVec3(Fix(0), a, Fix(0)), FixVec3(Fix(0), Fix(0), a);
      assert u.SquareSum() == k * k;
      assert v.SquareSum() == k * k;
      assert w.SquareSum() == k * k;
      MagnitudeOfSquare(u, k);
      MagnitudeOfSquare(v, k);
      MagnitudeOfSquare(w, k);
    }
  }

  /** The units of the axes have magnitude 1 and normalise to themselves. */
  lemma UnitMagnitudes()
    ensures FixVec3.UnitX.GetMagnitude() == Ok(Scalar.One)
    ensures FixVec3.UnitY.GetMagnitude() == Ok(Scalar.One)
    ensures FixVec3.UnitZ.GetMagnitude() == Ok(Scalar.One)
    ensures FixVec3.UnitZ.Normalize() == Ok(FixVec3.UnitZ)
  {
    AxisMagnitude(Scalar.One);
    ScalarIdentities(FixVec3.UnitZ);
  }
}
