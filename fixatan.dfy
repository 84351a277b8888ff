/**
 * The CORDIC arctangent of `FixMath`: `Atan2` rotates the point (x, y)
 * into the right half-plane, then for twelve iterations rotates it by
 * ±atan(2^-i) towards the x-axis, summing the angles from the CORDIC
 * table. `Asin`, `Acos` and `Atan` go through `Atan2`.
 */
module FixAtan {
  import opened Machine
  import opened Scalar
  import opened FixMath
  import ScalarLaws

  /** Iterations of the CORDIC loop: `Fix.FRACTIONAL_BITS + 2`. */
  const CORDIC_STEPS: nat := FRACTIONAL_BITS + 2

  /** The rotating point and the angle accumulated so far. */
  datatype Rotated = Rotated(x: Fix, y: Fix, angle: Fix)

  /**
   * The pre-rotation for `x < 0`: by -90 degrees below the axis, by +90
   * above it, and a bare 180 on the negative x-axis.
   */
  function PreRotate(y: Fix, x: Fix): (s: Rotated)
    ensures x.raw >= 0 ==> s == Rotated(x, y, Zero)
    ensures s.angle in {Zero, FromInt(90), FromInt(-90), FromInt(180)}
  {
    if x.raw < 0 then
      if y.raw < 0 then Rotated(Neg(y), x, FromInt(-90))
      else if y.raw > 0 then Rotated(y, Neg(x), FromInt(90))
      else Rotated(x, y, FromInt(180))
    else Rotated(x, y, Zero)
  }

  /** The CORDIC micro-rotation number `i`, towards the x-axis. */
  function CordicStep(t: Tables, i: nat, s: Rotated): Rotated
    requires t.Valid() && i < CORDIC_STEPS
  {
    if s.y.raw > 0 then
      Rotated(Add(s.x, ShiftRight(s.y, i)), Sub(s.y, ShiftRight(s.x, i)), Add(s.angle, t.CordicAngle(i)))
    else
      Rotated(Sub(s.x, ShiftRight(s.y, i)), Add(s.y, ShiftRight(s.x, i)), Sub(s.angle, t.CordicAngle(i)))
  }

  /**
   * The CORDIC loop from iteration `i` on: it runs until the twelfth
   * iteration or until `y` reaches zero, whichever comes first.
   */
  function CordicFrom(t: Tables, i: nat, s: Rotated): (r: Rotated)
    requires t.Valid() && i <= CORDIC_STEPS
    ensures s.y.raw == 0 ==> r == s
    decreases CORDIC_STEPS - i
  {
    if i == CORDIC_STEPS || s.y.raw == 0 then s
    else CordicFrom(t, i + 1, CordicStep(t, i, s))
  }

  /** `Atan2(y, x)` in degrees; the origin has no angle and faults. */
  function Atan2Spec(t: Tables, y: Fix, x: Fix): (r: Result<Fix>)
    requires t.Valid()
    ensures r.Err? <==> x.raw == 0 && y.raw == 0
    ensures r.Err? ==> r.fault == ArgumentOutOfRange
  {
    if x.raw == 0 && y.raw == 0 then Err(ArgumentOutOfRange)
    else Ok(CordicFrom(t, 0, PreRotate(y, x)).angle)
  }

  /** The `Atan2` loop, with its `break` once `y` is zero. */
  method Atan2(t: Tables, y: Fix, x: Fix) returns (r: Result<Fix>)
    requires t.Valid()
    ensures r == Atan2Spec(t, y, x)
  {
    if x.raw == 0 && y.raw == 0 {
      return Err(ArgumentOutOfRange);
    }
    var angle := Zero;
    var cx, cy := x, y;
    if x.raw < 0 {
      if y.raw < 0 {
        cx, cy, angle := Neg(y), x, FromInt(-90);
      } else if y.raw > 0 {
        cx, cy, angle := y, Neg(x), FromInt(90);
      } else {
        angle := FromInt(180);
      }
    }
    ghost var start := PreRotate(y, x);
    assert Rotated(cx, cy, angle) == start;
    for i := 0 to CORDIC_STEPS
      invariant CordicFrom(t, i, Rotated(cx, cy, angle)) == CordicFrom(t, 0, start)
    {
      var xNew, yNew;
      if cy.raw > 0 {
        xNew := Add(cx, ShiftRight(cy, i));
        yNew := Sub(cy, ShiftRight(cx, i));
        angle := Add(angle, t.CordicAngle(i));
      } else if cy.raw < 0 {
        xNew := Sub(cx, ShiftRight(cy, i));
        yNew := Add(cy, ShiftRight(cx, i));
        angle := Sub(angle, t.CordicAngle(i));
      } else {
        break;
      }
      cx, cy := xNew, yNew;
    }
    return Ok(angle);
  }

  /**
   * After the pre-rotation the point is in the closed right half-plane or
   * on the x-axis. `y == int.MinValue` with `x < 0` is excluded: `-y`
   * wraps back to a negative value there.
   */
  lemma PreRotateHalfPlane(y: Fix, x: Fix)
    requires y.raw != MIN32
    ensures PreRotate(y, x).x.raw >= 0 || PreRotate(y, x).y.raw == 0
  {
  }

  /**
   * The CORDIC loop adds the same angle whatever it starts from: the path of
   * the point does not depend on the accumulated angle.
   */
  lemma {:induction false} CordicAngleShift(t: Tables, i: nat, x: Fix, y: Fix, a: Fix)
    requires t.Valid() && i <= CORDIC_STEPS
    ensures var f := CordicFrom(t, i, Rotated(x, y, Zero));
      CordicFrom(t, i, Rotated(x, y, a)) == Rotated(f.x, f.y, Add(a, f.angle))
    decreases CORDIC_STEPS - i
  {
    if i == CORDIC_STEPS || y.raw == 0 {
    } else {
      var c := t.CordicAngle(i);
      var s := CordicStep(t, i, Rotated(x, y, a));
      var s0 := CordicStep(t, i, Rotated(x, y, Zero));
      var f := CordicFrom(t, i + 1, Rotated(s.x, s.y, Zero));
      CordicAngleShift(t, i + 1, s.x, s.y, s.angle);
      CordicAngleShift(t, i + 1, s.x, s.y, s0.angle);
      if y.raw > 0 {
        assert s0.angle == c;
        ScalarLaws.AddAssociative(a, c, f.angle);
      } else {
        assert s0.angle == Neg(c);
        ScalarLaws.SubIsAddNeg(a, c);
        ScalarLaws.AddAssociative(a, Neg(c), f.angle);
      }
    }
  }

  /** On the positive x-axis the angle is 0; on the negative one, 180. */
  lemma Atan2OnAxis(t: Tables, x: Fix)
    requires t.Valid()
    ensures x.raw > 0 ==> Atan2Spec(t, Zero, x) == Ok(Zero)
    ensures x.raw < 0 ==> Atan2Spec(t, Zero, x) == Ok(FromInt(180))
  {
  }

  /**
   * Above the negative x-axis the angle is 90 degrees plus the angle of
   * the point turned a quarter clockwise: `Atan2(y, x) == 90 + Atan2(-x, y)`.
   */
  lemma Atan2SecondQuadrant(t: Tables, y: Fix, x: Fix)
    requires t.Valid() && x.raw < 0 < y.raw
    ensures Atan2Spec(t, Neg(x), y).Ok?
    ensures Atan2Spec(t, y, x) == Ok(Add(FromInt(90), Atan2Spec(t, Neg(x), y).value))
  {
    CordicAngleShift(t, 0, y, Neg(x), FromInt(90));
  }

  /**
   * Below the negative x-axis the angle is -90 degrees plus the angle of
   * the point turned a quarter anticlockwise: `Atan2(y, x) == -90 + Atan2(x, -y)`.
   */
  lemma Atan2ThirdQuadrant(t: Tables, y: Fix, x: Fix)
    requires t.Valid() && x.raw < 0 && MIN32 < y.raw < 0
    ensures Atan2Spec(t, x, Neg(y)).Ok?
    ensures Atan2Spec(t, y, x) == Ok(Add(FromInt(-90), Atan2Spec(t, x, Neg(y)).value))
  {
    CordicAngleShift(t, 0, Neg(y), x, FromInt(-90));
  }

  /** `Atan(value)` is `Atan2(value, 1)`, which never faults. */
  function Atan(t: Tables, value: Fix): (r: Fix)
    requires t.Valid()
    ensures Atan2Spec(t, value, One) == Ok(r)
  {
    Atan2Spec(t, value, One).value
  }

  /** `(1 + value) * (1 - value)`, the square of the cosine for a sine `value`. */
  function Complement(value: Fix): Fix {
    Mul(Add(One, value), Sub(One, value))
  }

  /** `Asin(value)`: `Atan2(value, Sqrt((1 + value) * (1 - value)))`. */
  function Asin(t: Tables, value: Fix): (r: Result<Fix>)
    requires t.Valid()
    ensures r.Err? ==> r.fault == ArgumentOutOfRange
  {
    match Sqrt(Complement(value))
    case Err(e) => Err(e)
    case Ok(c) => Atan2Spec(t, value, c)
  }

  /** `Acos(value)`: `Atan2(Sqrt((1 + value) * (1 - value)), value)`. */
  function Acos(t: Tables, value: Fix): (r: Result<Fix>)
    requires t.Valid()
    ensures r.Err? ==> r.fault == ArgumentOutOfRange
  {
    match Sqrt(Complement(value))
    case Err(e) => Err(e)
    case Ok(c) => Atan2Spec(t, c, value)
  }

  /**
   * On [-1, 1] the complement is the rounded 1 - value², never negative,
   * so `Asin` and `Acos` succeed there.
   */
  lemma InverseTrigDomain(t: Tables, value: Fix)
    requires t.Valid() && -FRACTION_RANGE <= value.raw <= FRACTION_RANGE
    ensures Asin(t, value).Ok? && Acos(t, value).Ok?
  {
    var a, b := FRACTION_RANGE + value.raw, FRACTION_RANGE - value.raw;
    MulBounded(a, b);
    if value.raw == 0 {
      ScalarLaws.MulIdentities(One);
      SqrtExamples();
    }
  }

  lemma MulBounded(a: nat, b: nat)
    requires a <= 2 * FRACTION_RANGE && b <= 2 * FRACTION_RANGE
    ensures 0 <= a * b <= 4 * FRACTION_RANGE * FRACTION_RANGE
  {
    ProductBelowSquare(a, b, 2 * FRACTION_RANGE);
  }

  lemma ProductBelowSquare(a: nat, b: nat, n: nat)
    requires a <= n && b <= n
    ensures a * b <= n * n
  {
    SquareMonotone(a, n);
    assert a * b <= a * n;
  }

  /**
   * Just outside [-1, 1] (up to 1024 in magnitude) the complement is
   * negative, and `Asin` and `Acos` raise the square root's
   * out-of-range fault.
   */
  lemma InverseTrigOutside(t: Tables, value: Fix)
    requires t.Valid() && FRACTION_RANGE < Machine.Abs(value.raw) <= 0x10_0000
    ensures Asin(t, value) == Err(ArgumentOutOfRange)
    ensures Acos(t, value) == Err(ArgumentOutOfRange)
  {
    var v: int := value.raw;
    var p := ComplementProduct(v);
    var q := (p + 512) / FRACTION_RANGE;
    assert MIN32 <= q < 0;
    assert Complement(value).raw == q;
  }

  /** The exact product behind `Complement` outside [-1, 1]: 1024² - v² < -1536. */
  lemma ComplementProduct(v: int) returns (p: int)
    requires FRACTION_RANGE < Machine.Abs(v) <= 0x10_0000
    ensures p == (FRACTION_RANGE + v) * (FRACTION_RANGE - v)
    ensures -0x100_0000_0000 <= p < -1536
  {
    var m := Machine.Abs(v);
    SquareMonotone(FRACTION_RANGE + 1, m);
    SquareMonotone(m, 0x10_0000);
    assert v * v == m * m;
    p := (FRACTION_RANGE + v) * (FRACTION_RANGE - v);
    assert p == FRACTION_RANGE * FRACTION_RANGE - v * v;
  }

  /** `Asin(0) == 0`, `Acos(1) == 0` and `Atan(0) == 0`. */
  lemma InverseTrigAtZero(t: Tables)
    requires t.Valid()
    ensures Asin(t, Zero) == Ok(Zero)
    ensures Acos(t, One) == Ok(Zero)
    ensures Atan(t, Zero) == Zero
  {
    ScalarLaws.MulIdentities(One);
    ScalarLaws.MulIdentities(Add(One, One));
    SqrtExamples();
    assert Complement(Zero) == One;
    assert Complement(One) == Zero;
  }
}
