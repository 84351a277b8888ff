/**
 * `FixTrans3`: a 3D affine transform, the top three rows of a 4x4 matrix
 * whose last row is (0, 0, 0, 1), with the wrapping `Fix` operators.
 */
module Trans3 {
  import opened Machine
  import opened Scalar
  import FixMath
  import FixTrig
  import ScalarLaws
  import Vec3

  type FixVec3 = Vec3.FixVec3

  datatype FixTrans3 = FixTrans3(
    m11: Fix, m12: Fix, m13: Fix, m14: Fix,
    m21: Fix, m22: Fix, m23: Fix, m24: Fix,
    m31: Fix, m32: Fix, m33: Fix, m34: Fix)
  {
    static const Identity: FixTrans3 := FixTrans3(
      Scalar.One, Scalar.Zero, Scalar.Zero, Scalar.Zero,
      Scalar.Zero, Scalar.One, Scalar.Zero, Scalar.Zero,
      Scalar.Zero, Scalar.Zero, Scalar.One, Scalar.Zero)

    /** `this * rhs`: the transform that applies `rhs` first, then `this`. */
    function Compose(rhs: FixTrans3): FixTrans3 {
      FixTrans3(
        Sum3(Mul(m11, rhs.m11), Mul(m12, rhs.m21), Mul(m13, rhs.m31)),
        Sum3(Mul(m11, rhs.m12), Mul(m12, rhs.m22), Mul(m13, rhs.m32)),
        Sum3(Mul(m11, rhs.m13), Mul(m12, rhs.m23), Mul(m13, rhs.m33)),
        Add(Sum3(Mul(m11, rhs.m14), Mul(m12, rhs.m24), Mul(m13, rhs.m34)), m14),
        Sum3(Mul(m21, rhs.m11), Mul(m22, rhs.m21), Mul(m23, rhs.m31)),
        Sum3(Mul(m21, rhs.m12), Mul(m22, rhs.m22), Mul(m23, rhs.m32)),
        Sum3(Mul(m21, rhs.m13), Mul(m22, rhs.m23), Mul(m23, rhs.m33)),
        Add(Sum3(Mul(m21, rhs.m14), Mul(m22, rhs.m24), Mul(m23, rhs.m34)), m24),
        Sum3(Mul(m31, rhs.m11), Mul(m32, rhs.m21), Mul(m33, rhs.m31)),
        Sum3(Mul(m31, rhs.m12), Mul(m32, rhs.m22), Mul(m33, rhs.m32)),
        Sum3(Mul(m31, rhs.m13), Mul(m32, rhs.m23), Mul(m33, rhs.m33)),
        Add(Sum3(Mul(m31, rhs.m14), Mul(m32, rhs.m24), Mul(m33, rhs.m34)), m34))
    }

    /** `Apply(vec)`, the operator `this * vec`: the matrix times (x, y, z, 1). */
    function Apply(v: FixVec3): FixVec3 {
      Vec3.FixVec3(
        Add(Sum3(Mul(m11, v.x), Mul(m12, v.y), Mul(m13, v.z)), m14),
        Add(Sum3(Mul(m21, v.x), Mul(m22, v.y), Mul(m23, v.z)), m24),
        Add(Sum3(Mul(m31, v.x), Mul(m32, v.y), Mul(m33, v.z)), m34))
    }

    function RotateZ(t: FixMath.Tables, degrees: Fix): FixTrans3
      requires t.Valid() && FixTrig.TrigDefined(degrees)
    {
      MakeRotationZ(t, degrees).Compose(this)
    }

    function RotateY(t: FixMath.Tables, degrees: Fix): FixTrans3
      requires t.Valid() && FixTrig.TrigDefined(degrees)
    {
      MakeRotationY(t, degrees).Compose(this)
    }

    function RotateX(t: FixMath.Tables, degrees: Fix): FixTrans3
      requires t.Valid() && FixTrig.TrigDefined(degrees)
    {
      MakeRotationX(t, degrees).Compose(this)
    }

    /** `Rotate(degrees)` as written: the receiver plays no part in the result. */
    function Rotate(t: FixMath.Tables, degrees: FixVec3): FixTrans3
      requires t.Valid() && RotationDefined(degrees)
    {
      MakeRotation(t, degrees)
    }

    /** `Rotate` as `FixTrans2.Rotate` and `RotateX`/`Y`/`Z` do it: composed after this transform. */
    function RotateComposed(t: FixMath.Tables, degrees: FixVec3): FixTrans3
      requires t.Valid() && RotationDefined(degrees)
    {
      MakeRotation(t, degrees).Compose(this)
    }

    /** `Scale(scale)`: each row, translation included, times its component. */
    function Scale(scale: FixVec3): FixTrans3 {
      FixTrans3(
        Mul(m11, scale.x), Mul(m12, scale.x), Mul(m13, scale.x), Mul(m14, scale.x),
        Mul(m21, scale.y), Mul(m22, scale.y), Mul(m23, scale.y), Mul(m24, scale.y),
        Mul(m31, scale.z), Mul(m32, scale.z), Mul(m33, scale.z), Mul(m34, scale.z))
    }

    /** `Translate(delta)`: `delta` added to the translation column. */
    function Translate(delta: FixVec3): FixTrans3 {
      FixTrans3(
        m11, m12, m13, Add(m14, delta.x),
        m21, m22, m23, Add(m24, delta.y),
        m31, m32, m33, Add(m34, delta.z))
    }

    /** The linear part only: nothing in the translation column. */
    predicate IsLinear() {
      m14 == Scalar.Zero && m24 == Scalar.Zero && m34 == Scalar.Zero
    }
  }

  /** Three terms added left to right, as C# evaluates `a + b + c`. */
  function Sum3(a: Fix, b: Fix, c: Fix): Fix {
    Add(Add(a, b), c)
  }

  /** The three angles of a rotation all have a cosine and a sine in the table. */
  predicate RotationDefined(degrees: FixVec3) {
    FixTrig.TrigDefined(degrees.x) && FixTrig.TrigDefined(degrees.y) && FixTrig.TrigDefined(degrees.z)
  }

  function MakeRotationZ(t: FixMath.Tables, degrees: Fix): FixTrans3
    requires t.Valid() && FixTrig.TrigDefined(degrees)
  {
    var c, s := FixTrig.Cos(t, degrees), FixTrig.Sin(t, degrees);
    FixTrans3(
      c, Neg(s), Scalar.Zero, Scalar.Zero,
      s, c, Scalar.Zero, Scalar.Zero,
      Scalar.Zero, Scalar.Zero, Scalar.One, Scalar.Zero)
  }

  function MakeRotationY(t: FixMath.Tables, degrees: Fix): FixTrans3
    requires t.Valid() && FixTrig.TrigDefined(degrees)
  {
    var c, s := FixTrig.Cos(t, degrees), FixTrig.Sin(t, degrees);
    FixTrans3(
      c, Scalar.Zero, s, Scalar.Zero,
      Scalar.Zero, Scalar.One, Scalar.Zero, Scalar.Zero,
      Neg(s), Scalar.Zero, c, Scalar.Zero)
  }

  function MakeRotationX(t: FixMath.Tables, degrees: Fix): FixTrans3
    requires t.Valid() && FixTrig.TrigDefined(degrees)
  {
    var c, s := FixTrig.Cos(t, degrees), FixTrig.Sin(t, degrees);
    FixTrans3(
      Scalar.One, Scalar.Zero, Scalar.Zero, Scalar.Zero,
      Scalar.Zero, c, Neg(s), Scalar.Zero,
      Scalar.Zero, s, c, Scalar.Zero)
  }

  /** `MakeRotation(degrees)`: about X first, then Y, then Z. */
  function MakeRotation(t: FixMath.Tables, degrees: FixVec3): FixTrans3
    requires t.Valid() && RotationDefined(degrees)
  {
    MakeRotationX(t, degrees.x).RotateY(t, degrees.y).RotateZ(t, degrees.z)
  }

  function MakeScale(scale: FixVec3): FixTrans3 {
    FixTrans3(
      scale.x, Scalar.Zero, Scalar.Zero, Scalar.Zero,
      Scalar.Zero, scale.y, Scalar.Zero, Scalar.Zero,
      Scalar.Zero, Scalar.Zero, scale.z, Scalar.Zero)
  }

  function MakeTranslation(delta: FixVec3): FixTrans3 {
    FixTrans3(
      Scalar.One, Scalar.Zero, Scalar.Zero, delta.x,
      Scalar.Zero, Scalar.One, Scalar.Zero, delta.y,
      Scalar.Zero, Scalar.Zero, Scalar.One, delta.z)
  }

  /** The constructor from a position, a scale and three rotation angles. */
  function FromTRS(t: FixMath.Tables, position: FixVec3, scale: FixVec3, rotation: FixVec3): FixTrans3
    requires t.Valid() && RotationDefined(rotation)
  {
    MakeRotation(t, rotation).Scale(scale).Translate(position)
  }

  // ----- the identity -----

  /** A row against the columns of the identity, or the identity's rows against a column. */
  lemma UnitSums(a: Fix, b: Fix, c: Fix)
    ensures Sum3(Mul(a, Scalar.One), Mul(b, Scalar.Zero), Mul(c, Scalar.Zero)) == a
    ensures Sum3(Mul(a, Scalar.Zero), Mul(b, Scalar.One), Mul(c, Scalar.Zero)) == b
    ensures Sum3(Mul(a, Scalar.Zero), Mul(b, Scalar.Zero), Mul(c, Scalar.One)) == c
    ensures Sum3(Mul(Scalar.One, a), Mul(Scalar.Zero, b), Mul(Scalar.Zero, c)) == a
    ensures Sum3(Mul(Scalar.Zero, a), Mul(Scalar.One, b), Mul(Scalar.Zero, c)) == b
    ensures Sum3(Mul(Scalar.Zero, a), Mul(Scalar.Zero, b), Mul(Scalar.One, c)) == c
  {
    ScalarLaws.EntryIdentities(a);
    ScalarLaws.EntryIdentities(b);
    ScalarLaws.EntryIdentities(c);
  }

  /** `Identity * a == a`. */
  lemma IdentityLeft(a: FixTrans3)
    ensures FixTrans3.Identity.Compose(a) == a
  {
    UnitSums(a.m11, a.m21, a.m31);
    UnitSums(a.m12, a.m22, a.m32);
    UnitSums(a.m13, a.m23, a.m33);
    UnitSums(a.m14, a.m24, a.m34);
    ScalarLaws.EntryIdentities(a.m14);
    ScalarLaws.EntryIdentities(a.m24);
    ScalarLaws.EntryIdentities(a.m34);
  }

  /** `a * Identity == a`. */
  lemma IdentityRight(a: FixTrans3)
    ensures a.Compose(FixTrans3.Identity) == a
  {
    UnitSums(a.m11, a.m12, a.m13);
    UnitSums(a.m21, a.m22, a.m23);
    UnitSums(a.m31, a.m32, a.m33);
    ZeroSum(a.m11, a.m12, a.m13, a.m14);
    ZeroSum(a.m21, a.m22, a.m23, a.m24);
    ZeroSum(a.m31, a.m32, a.m33, a.m34);
  }

  /** A row against a zero column, plus the row's own translation. */
  lemma ZeroSum(a: Fix, b: Fix, c: Fix, d: Fix)
    ensures Add(Sum3(Mul(a, Scalar.Zero), Mul(b, Scalar.Zero), Mul(c, Scalar.Zero)), d) == d
  {
    ScalarLaws.EntryIdentities(a);
    ScalarLaws.EntryIdentities(b);
    ScalarLaws.EntryIdentities(c);
    ScalarLaws.EntryIdentities(d);
  }

  /** `Identity * v == v`. */
  lemma IdentityApply(v: FixVec3)
    ensures FixTrans3.Identity.Apply(v) == v
  {
    UnitSums(v.x, v.y, v.z);
    ScalarLaws.EntryIdentities(v.x);
    ScalarLaws.EntryIdentities(v.y);
    ScalarLaws.EntryIdentities(v.z);
  }

  // ----- the elementary transforms -----

  /** A translation matrix adds its delta to every vector. */
  lemma TranslationApply(delta: FixVec3, v: FixVec3)
    ensures MakeTranslation(delta).Apply(v) == v.Add(delta)
  {
    UnitSums(v.x, v.y, v.z);
  }

  /** A scale matrix multiplies each coordinate by its factor. */
  lemma ScaleApply(scale: FixVec3, v: FixVec3)
    ensures MakeScale(scale).Apply(v) ==
      Vec3.FixVec3(Mul(scale.x, v.x), Mul(scale.y, v.y), Mul(scale.z, v.z))
  {
    ScaledSum(scale.x, v.x, v.y, v.z);
    ScaledSum(scale.y, v.y, v.x, v.z);
    ScaledSum(scale.z, v.z, v.x, v.y);
  }

  lemma ScaledSum(s: Fix, x: Fix, p: Fix, q: Fix)
    ensures Add(Sum3(Mul(s, x), Mul(Scalar.Zero, p), Mul(Scalar.Zero, q)), Scalar.Zero) == Mul(s, x)
    ensures Add(Sum3(Mul(Scalar.Zero, p), Mul(s, x), Mul(Scalar.Zero, q)), Scalar.Zero) == Mul(s, x)
    ensures Add(Sum3(Mul(Scalar.Zero, p), Mul(Scalar.Zero, q), Mul(s, x)), Scalar.Zero) == Mul(s, x)
  {
    ScalarLaws.EntryIdentities(p);
    ScalarLaws.EntryIdentities(q);
    ScalarLaws.EntryIdentities(Mul(s, x));
  }

  /**
   * `Translate` changes the translation column and nothing else, and
   * translating back by `-delta` undoes it exactly.
   */
  lemma TranslateOnlyMovesColumn(a: FixTrans3, delta: FixVec3)
    ensures var b := a.Translate(delta);
      b.(m14 := a.m14, m24 := a.m24, m34 := a.m34) == a
    ensures a.Translate(delta).Translate(delta.Negate()) == a
  {
    ScalarLaws.SubIsAddNeg(Add(a.m14, delta.x), delta.x);
    ScalarLaws.SubIsAddNeg(Add(a.m24, delta.y), delta.y);
    ScalarLaws.SubIsAddNeg(Add(a.m34, delta.z), delta.z);
    Vec3.AddSubRoundTrip(Vec3.FixVec3(a.m14, a.m24, a.m34), delta);
  }

  /** A translated transform moves every image by the delta. */
  lemma TranslateApply(a: FixTrans3, delta: FixVec3, v: FixVec3)
    ensures a.Translate(delta).Apply(v) == a.Apply(v).Add(delta)
  {
    ScalarLaws.AddAssociative(Sum3(Mul(a.m11, v.x), Mul(a.m12, v.y), Mul(a.m13, v.z)), a.m14, delta.x);
    ScalarLaws.AddAssociative(Sum3(Mul(a.m21, v.x), Mul(a.m22, v.y), Mul(a.m23, v.z)), a.m24, delta.y);
    ScalarLaws.AddAssociative(Sum3(Mul(a.m31, v.x), Mul(a.m32, v.y), Mul(a.m33, v.z)), a.m34, delta.z);
  }

  /** `Scale` is the scale matrix composed on the left, exactly. */
  lemma ScaleIsComposition(a: FixTrans3, scale: FixVec3)
    ensures a.Scale(scale) == MakeScale(scale).Compose(a)
  {
    ScaleColumn(a.m11, a.m21, a.m31, scale);
    ScaleColumn(a.m12, a.m22, a.m32, scale);
    ScaleColumn(a.m13, a.m23, a.m33, scale);
    ScaleColumn(a.m14, a.m24, a.m34, scale);
  }

  /** One column of `MakeScale(scale) * a`. */
  lemma ScaleColumn(p: Fix, q: Fix, r: Fix, scale: FixVec3)
    ensures Sum3(Mul(scale.x, p), Mul(Scalar.Zero, q), Mul(Scalar.Zero, r)) == Mul(p, scale.x)
    ensures Sum3(Mul(Scalar.Zero, p), Mul(scale.y, q), Mul(Scalar.Zero, r)) == Mul(q, scale.y)
    ensures Sum3(Mul(Scalar.Zero, p), Mul(Scalar.Zero, q), Mul(scale.z, r)) == Mul(r, scale.z)
    ensures Add(Sum3(Mul(scale.x, p), Mul(Scalar.Zero, q), Mul(Scalar.Zero, r)), Scalar.Zero) == Mul(p, scale.x)
    ensures Add(Sum3(Mul(Scalar.Zero, p), Mul(scale.y, q), Mul(Scalar.Zero, r)), Scalar.Zero) == Mul(q, scale.y)
    ensures Add(Sum3(Mul(Scalar.Zero, p), Mul(Scalar.Zero, q), Mul(scale.z, r)), Scalar.Zero) == Mul(r, scale.z)
  {
    ScalarLaws.MulCommutative(scale.x, p);
    ScalarLaws.MulCommutative(scale.y, q);
    ScalarLaws.MulCommutative(scale.z, r);
    ScalarLaws.EntryIdentities(p);
    ScalarLaws.EntryIdentities(q);
    ScalarLaws.EntryIdentities(r);
    ScalarLaws.EntryIdentities(Mul(p, scale.x));
    ScalarLaws.EntryIdentities(Mul(q, scale.y));
    ScalarLaws.EntryIdentities(Mul(r, scale.z));
  }

  // ----- rotations -----

  /** Each elementary rotation keeps the coordinate of its own axis. */
  lemma RotationKeepsAxis(t: FixMath.Tables, degrees: Fix, v: FixVec3)
    requires t.Valid() && FixTrig.TrigDefined(degrees)
    ensures MakeRotationX(t, degrees).Apply(v).x == v.x
    ensures MakeRotationY(t, degrees).Apply(v).y == v.y
    ensures MakeRotationZ(t, degrees).Apply(v).z == v.z
  {
    var c, s := FixTrig.Cos(t, degrees), FixTrig.Sin(t, degrees);
    UnitSums(v.x, v.y, v.z);
    ScalarLaws.EntryIdentities(v.x);
    ScalarLaws.EntryIdentities(v.y);
    ScalarLaws.EntryIdentities(v.z);
    assert MakeRotationX(t, degrees).Apply(v).x ==
      Add(Sum3(Mul(Scalar.One, v.x), Mul(Scalar.Zero, v.y), Mul(Scalar.Zero, v.z)), Scalar.Zero);
    assert MakeRotationY(t, degrees).Apply(v).y ==
      Add(Sum3(Mul(Scalar.Zero, v.x), Mul(Scalar.One, v.y), Mul(Scalar.Zero, v.z)), Scalar.Zero);
    assert MakeRotationZ(t, degrees).Apply(v).z ==
      Add(Sum3(Mul(Scalar.Zero, v.x), Mul(Scalar.Zero, v.y), Mul(Scalar.One, v.z)), Scalar.Zero);
  }

  /** The composition of two linear transforms is linear. */
  lemma ComposeLinear(a: FixTrans3, b: FixTrans3)
    requires a.IsLinear() && b.IsLinear()
    ensures a.Compose(b).IsLinear()
  {
    ZeroSum(a.m11, a.m12, a.m13, a.m14);
    ZeroSum(a.m21, a.m22, a.m23, a.m24);
    ZeroSum(a.m31, a.m32, a.m33, a.m34);
  }

  /** Every rotation is linear: it fixes the origin, and `FromTRS` maps the origin to `position`. */
  lemma RotationLinear(t: FixMath.Tables, degrees: FixVec3, position: FixVec3, scale: FixVec3)
    requires t.Valid() && RotationDefined(degrees)
    ensures MakeRotation(t, degrees).IsLinear()
    ensures FromTRS(t, position, scale, degrees).Apply(Vec3.FixVec3.Zero) == position
  {
    var rx := MakeRotationX(t, degrees.x);
    var ry := MakeRotationY(t, degrees.y);
    var rz := MakeRotationZ(t, degrees.z);
    ComposeLinear(ry, rx);
    ComposeLinear(rz, ry.Compose(rx));
    var m := MakeRotation(t, degrees);
    ScalarLaws.EntryIdentities(scale.x);
    ScalarLaws.EntryIdentities(scale.y);
    ScalarLaws.EntryIdentities(scale.z);
    ScalarLaws.EntryIdentities(position.x);
    ScalarLaws.EntryIdentities(position.y);
    ScalarLaws.EntryIdentities(position.z);
    OriginImage(FromTRS(t, position, scale, degrees));
  }

  /** The image of the origin is the translation column. */
  lemma OriginImage(a: FixTrans3)
    ensures a.Apply(Vec3.FixVec3.Zero) == Vec3.FixVec3(a.m14, a.m24, a.m34)
  {
    ZeroSum(a.m11, a.m12, a.m13, a.m14);
    ZeroSum(a.m21, a.m22, a.m23, a.m24);
    ZeroSum(a.m31, a.m32, a.m33, a.m34);
  }

  /** `MakeRotation(degrees)` is `Rz * (Ry * Rx)`: X is applied first. */
  lemma MakeRotationComposes(t: FixMath.Tables, degrees: FixVec3)
    requires t.Valid() && RotationDefined(degrees)
    ensures MakeRotation(t, degrees) ==
      MakeRotationZ(t, degrees.z).Compose(MakeRotationY(t, degrees.y).Compose(MakeRotationX(t, degrees.x)))
  {
  }

  /** With exact table ends each elementary rotation by 0 degrees is the identity. */
  lemma ElementaryRotationsAtZero(t: FixMath.Tables)
    requires t.Valid() && FixTrig.ExactEndpoints(t)
    ensures FixTrig.TrigDefined(Scalar.Zero)
    ensures MakeRotationX(t, Scalar.Zero) == FixTrans3.Identity
    ensures MakeRotationY(t, Scalar.Zero) == FixTrans3.Identity
    ensures MakeRotationZ(t, Scalar.Zero) == FixTrans3.Identity
  {
    var c, s := FixTrig.Cos(t, Scalar.Zero), FixTrig.Sin(t, Scalar.Zero);
    assert c == Scalar.One && s == Scalar.Zero by {
      FixTrig.TrigAtZero(t);
    }
  }

  /** ... and so is the combined rotation by the zero vector. */
  lemma RotationAtZero(t: FixMath.Tables)
    requires t.Valid() && FixTrig.ExactEndpoints(t)
    ensures RotationDefined(Vec3.FixVec3.Zero)
    ensures MakeRotation(t, Vec3.FixVec3.Zero) == FixTrans3.Identity
  {
    var z := Scalar.Zero;
    ElementaryRotationsAtZero(t);
    var rx, ry, rz := MakeRotationX(t, z), MakeRotationY(t, z), MakeRotationZ(t, z);
    MakeRotationComposes(t, Vec3.FixVec3.Zero);
    IdentityLeft(rx);
    IdentityLeft(ry.Compose(rx));
  }

  /** `Rotate` as written gives the same result whatever transform it is called on. */
  lemma RotateDiscardsReceiver(t: FixMath.Tables, a: FixTrans3, degrees: FixVec3)
    requires t.Valid() && RotationDefined(degrees)
    ensures a.Rotate(t, degrees) == FixTrans3.Identity.Rotate(t, degrees)
  {
  }

  /**
   * The input that shows it: the translation by `UnitX`, rotated through
   * zero degrees, comes back as the identity and loses its translation.
   */
  lemma RotateLosesTranslation(t: FixMath.Tables)
    requires t.Valid() && FixTrig.ExactEndpoints(t)
    ensures RotationDefined(Vec3.FixVec3.Zero)
    ensures MakeTranslation(Vec3.FixVec3.UnitX).Rotate(t, Vec3.FixVec3.Zero) == FixTrans3.Identity
    ensures MakeTranslation(Vec3.FixVec3.UnitX) != FixTrans3.Identity
  {
    RotationAtZero(t);
    assert MakeTranslation(Vec3.FixVec3.UnitX).m14 != FixTrans3.Identity.m14;
  }

  /** The composed rotation by zero degrees leaves every transform unchanged. */
  lemma RotateComposedAtZero(t: FixMath.Tables, a: FixTrans3)
    requires t.Valid() && FixTrig.ExactEndpoints(t)
    ensures RotationDefined(Vec3.FixVec3.Zero)
    ensures a.RotateComposed(t, Vec3.FixVec3.Zero) == a
  {
    RotationAtZero(t);
    IdentityLeft(a);
  }
}
