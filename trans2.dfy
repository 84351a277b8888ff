/**
 * `FixTrans2`: a 2D affine transform, the top two rows of a 3x3 matrix
 * whose last row is (0, 0, 1). Composition and application multiply and
 * add with the wrapping `Fix` operators, so the laws below hold exactly,
 * not just up to rounding, only where they are stated.
 */
module Trans2 {
  import opened Machine
  import opened Scalar
  import FixMath
  import FixTrig
  import ScalarLaws
  import Vec2

  type FixVec2 = Vec2.FixVec2

  datatype FixTrans2 = FixTrans2(
    m11: Fix, m12: Fix, m13: Fix,
    m21: Fix, m22: Fix, m23: Fix)
  {
    static const Identity: FixTrans2 := FixTrans2(
      Scalar.One, Scalar.Zero, Scalar.Zero,
      Scalar.Zero, Scalar.One, Scalar.Zero)

    /** `this * rhs`: the transform that applies `rhs` first, then `this`. */
    function Compose(rhs: FixTrans2): FixTrans2 {
      FixTrans2(
        Add(Mul(m11, rhs.m11), Mul(m12, rhs.m21)),
        Add(Mul(m11, rhs.m12), Mul(m12, rhs.m22)),
        Add(Add(Mul(m11, rhs.m13), Mul(m12, rhs.m23)), m13),
        Add(Mul(m21, rhs.m11), Mul(m22, rhs.m21)),
        Add(Mul(m21, rhs.m12), Mul(m22, rhs.m22)),
        Add(Add(Mul(m21, rhs.m13), Mul(m22, rhs.m23)), m23))
    }

    /** `Apply(vec)`, the operator `this * vec`: the matrix times (x, y, 1). */
    function Apply(v: FixVec2): FixVec2 {
      Vec2.FixVec2(
        Add(Add(Mul(m11, v.x), Mul(m12, v.y)), m13),
        Add(Add(Mul(m21, v.x), Mul(m22, v.y)), m23))
    }

    /** `Rotate(degrees)`: the rotation applied after this transform. */
    function Rotate(t: FixMath.Tables, degrees: Fix): FixTrans2
      requires t.Valid() && FixTrig.TrigDefined(degrees)
    {
      MakeRotation(t, degrees).Compose(this)
    }

    /** `Scale(scale)`: the first row times `scale.X`, the second times `scale.Y`. */
    function Scale(scale: FixVec2): FixTrans2 {
      FixTrans2(
        Mul(m11, scale.x), Mul(m12, scale.x), Mul(m13, scale.x),
        Mul(m21, scale.y), Mul(m22, scale.y), Mul(m23, scale.y))
    }

    /** `Translate(delta)`: `delta` added to the translation column. */
    function Translate(delta: FixVec2): FixTrans2 {
      FixTrans2(
        m11, m12, Add(m13, delta.x),
        m21, m22, Add(m23, delta.y))
    }
  }

  /** `MakeRotation(degrees)`: (cos, -sin, 0; sin, cos, 0). */
  function MakeRotation(t: FixMath.Tables, degrees: Fix): FixTrans2
    requires t.Valid() && FixTrig.TrigDefined(degrees)
  {
    var c := FixTrig.Cos(t, degrees);
    var s := FixTrig.Sin(t, degrees);
    FixTrans2(
      c, Neg(s), Scalar.Zero,
      s, c, Scalar.Zero)
  }

  function MakeScale(scale: FixVec2): FixTrans2 {
    FixTrans2(
      scale.x, Scalar.Zero, Scalar.Zero,
      Scalar.Zero, scale.y, Scalar.Zero)
  }

  function MakeTranslation(delta: FixVec2): FixTrans2 {
    FixTrans2(
      Scalar.One, Scalar.Zero, delta.x,
      Scalar.Zero, Scalar.One, delta.y)
  }

  /**
   * The constructor from a position, a scale and a rotation: the rotation
   * rows scaled by `scale.X` and `scale.Y`, and `position` as translation.
   */
  function FromTRS(t: FixMath.Tables, position: FixVec2, scale: FixVec2, rotation: Fix): FixTrans2
    requires t.Valid() && FixTrig.TrigDefined(rotation)
  {
    var c := FixTrig.Cos(t, rotation);
    var s := FixTrig.Sin(t, rotation);
    FixTrans2(
      Mul(c, scale.x), Mul(Neg(s), scale.x), position.x,
      Mul(s, scale.y), Mul(c, scale.y), position.y)
  }

  // ----- the identity -----

  /** The identity is neutral on both sides of `*` and fixes every vector. */
  lemma IdentityLaws(a: FixTrans2, v: FixVec2)
    ensures FixTrans2.Identity.Compose(a) == a
    ensures a.Compose(FixTrans2.Identity) == a
    ensures FixTrans2.Identity.Apply(v) == v
  {
    ScalarLaws.EntryIdentities(a.m11);
    ScalarLaws.EntryIdentities(a.m12);
    ScalarLaws.EntryIdentities(a.m13);
    ScalarLaws.EntryIdentities(a.m21);
    ScalarLaws.EntryIdentities(a.m22);
    ScalarLaws.EntryIdentities(a.m23);
    ScalarLaws.EntryIdentities(v.x);
    ScalarLaws.EntryIdentities(v.y);
  }

  // ----- the elementary transforms -----

  /** A translation matrix adds its delta to every vector. */
  lemma TranslationApply(delta: FixVec2, v: FixVec2)
    ensures MakeTranslation(delta).Apply(v) == v.Add(delta)
  {
    ScalarLaws.EntryIdentities(v.x);
    ScalarLaws.EntryIdentities(v.y);
  }

  /** A scale matrix multiplies each coordinate by its factor. */
  lemma ScaleApply(scale: FixVec2, v: FixVec2)
    ensures MakeScale(scale).Apply(v) == Vec2.FixVec2(Mul(scale.x, v.x), Mul(scale.y, v.y))
  {
    ScalarLaws.EntryIdentities(v.x);
    ScalarLaws.EntryIdentities(v.y);
    ScalarLaws.EntryIdentities(Mul(scale.x, v.x));
    ScalarLaws.EntryIdentities(Mul(scale.y, v.y));
  }

  /** `Translate` is the translation matrix composed on the left, exactly. */
  lemma TranslateIsComposition(a: FixTrans2, delta: FixVec2)
    ensures a.Translate(delta) == MakeTranslation(delta).Compose(a)
  {
    ScalarLaws.EntryIdentities(a.m11);
    ScalarLaws.EntryIdentities(a.m12);
    ScalarLaws.EntryIdentities(a.m13);
    ScalarLaws.EntryIdentities(a.m21);
    ScalarLaws.EntryIdentities(a.m22);
    ScalarLaws.EntryIdentities(a.m23);
  }

  /**
   * `Translate` changes the translation column and nothing else, and
   * translating back by `-delta` undoes it exactly.
   */
  lemma TranslateOnlyMovesColumn(a: FixTrans2, delta: FixVec2)
    ensures var b := a.Translate(delta);
      b.(m13 := a.m13, m23 := a.m23) == a
    ensures a.Translate(delta).Translate(delta.Negate()) == a
  {
    ScalarLaws.SubIsAddNeg(Add(a.m13, delta.x), delta.x);
    ScalarLaws.SubIsAddNeg(Add(a.m23, delta.y), delta.y);
    Vec2.AddSubRoundTrip(Vec2.FixVec2(a.m13, a.m23), delta);
  }

  /** A translated transform moves every image by the delta. */
  lemma TranslateApply(a: FixTrans2, delta: FixVec2, v: FixVec2)
    ensures a.Translate(delta).Apply(v) == a.Apply(v).Add(delta)
  {
    ScalarLaws.AddAssociative(Add(Mul(a.m11, v.x), Mul(a.m12, v.y)), a.m13, delta.x);
    ScalarLaws.AddAssociative(Add(Mul(a.m21, v.x), Mul(a.m22, v.y)), a.m23, delta.y);
  }

  /** `Scale` is the scale matrix composed on the left, exactly. */
  lemma ScaleIsComposition(a: FixTrans2, scale: FixVec2)
    ensures a.Scale(scale) == MakeScale(scale).Compose(a)
  {
    ScaleEntry(a.m11, a.m21, scale.x);
    ScaleEntry(a.m12, a.m22, scale.x);
    ScaleEntry(a.m13, a.m23, scale.x);
    ScaleEntry(a.m21, a.m11, scale.y);
    ScaleEntry(a.m22, a.m12, scale.y);
    ScaleEntry(a.m23, a.m13, scale.y);
  }

  lemma ScaleEntry(x: Fix, other: Fix, s: Fix)
    ensures Add(Mul(s, x), Mul(Scalar.Zero, other)) == Mul(x, s)
    ensures Add(Mul(Scalar.Zero, other), Mul(s, x)) == Mul(x, s)
    ensures Add(Add(Mul(s, x), Mul(Scalar.Zero, other)), Scalar.Zero) == Mul(x, s)
    ensures Add(Add(Mul(Scalar.Zero, other), Mul(s, x)), Scalar.Zero) == Mul(x, s)
  {
    ScalarLaws.MulCommutative(s, x);
    ScalarLaws.EntryIdentities(other);
    ScalarLaws.EntryIdentities(Mul(x, s));
  }

  // ----- rotation and the TRS constructor -----

  /**
   * The TRS constructor is the rotation matrix, scaled, then translated to
   * `position`; it maps the origin to `position`.
   */
  lemma TRSDecomposes(t: FixMath.Tables, position: FixVec2, scale: FixVec2, rotation: Fix)
    requires t.Valid() && FixTrig.TrigDefined(rotation)
    ensures FromTRS(t, position, scale, rotation) ==
      MakeRotation(t, rotation).Scale(scale).Translate(position)
    ensures FromTRS(t, position, scale, rotation).Apply(Vec2.FixVec2.Zero) == position
  {
    ScalarLaws.EntryIdentities(scale.x);
    ScalarLaws.EntryIdentities(scale.y);
    ScalarLaws.EntryIdentities(position.x);
    ScalarLaws.EntryIdentities(position.y);
    var m := FromTRS(t, position, scale, rotation);
    OriginImage(m);
  }

  /** The image of the origin is the translation column. */
  lemma OriginImage(a: FixTrans2)
    ensures a.Apply(Vec2.FixVec2.Zero) == Vec2.FixVec2(a.m13, a.m23)
  {
    ScalarLaws.EntryIdentities(a.m11);
    ScalarLaws.EntryIdentities(a.m12);
    ScalarLaws.EntryIdentities(a.m13);
    ScalarLaws.EntryIdentities(a.m21);
    ScalarLaws.EntryIdentities(a.m22);
    ScalarLaws.EntryIdentities(a.m23);
  }

  /**
   * With exact table ends (cos 0 = 1, sin 0 = 0) the rotation by 0 degrees
   * is the identity, so rotating a transform by 0 leaves it unchanged.
   */
  lemma RotationByZero(t: FixMath.Tables, a: FixTrans2)
    requires t.Valid() && FixTrig.ExactEndpoints(t)
    ensures FixTrig.TrigDefined(Scalar.Zero)
    ensures MakeRotation(t, Scalar.Zero) == FixTrans2.Identity
    ensures a.Rotate(t, Scalar.Zero) == a
  {
    RotationMatrixAtZero(t);
    assert a.Rotate(t, Scalar.Zero) == MakeRotation(t, Scalar.Zero).Compose(a);
    IdentityLaws(a, Vec2.FixVec2.Zero);
  }

  lemma RotationMatrixAtZero(t: FixMath.Tables)
    requires t.Valid() && FixTrig.ExactEndpoints(t)
    ensures FixTrig.TrigDefined(Scalar.Zero)
    ensures MakeRotation(t, Scalar.Zero) == FixTrans2.Identity
  {
    var c, s := FixTrig.Cos(t, Scalar.Zero), FixTrig.Sin(t, Scalar.Zero);
    assert c == Scalar.One && s == Scalar.Zero by {
      FixTrig.TrigAtZero(t);
    }
  }

  /** A rotation matrix has the pattern (c, -s, 0; s, c, 0) and fixes the origin. */
  lemma RotationShape(t: FixMath.Tables, degrees: Fix)
    requires t.Valid() && FixTrig.TrigDefined(degrees)
    ensures var r := MakeRotation(t, degrees);
      r.m11 == r.m22 && r.m12 == Neg(r.m21) && r.m13 == Scalar.Zero && r.m23 == Scalar.Zero
    ensures MakeRotation(t, degrees).Apply(Vec2.FixVec2.Zero) == Vec2.FixVec2.Zero
  {
    OriginImage(MakeRotation(t, degrees));
  }
}
