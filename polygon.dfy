/**
 * `FixPolygon`: a closed polygon given by its points, with the edge
 * vectors between consecutive points (the last edge closes the polygon
 * back to the first point). Both are arrays: `BuildEdges` fills the edge
 * array in place, and the translation operator builds a new polygon
 * that shares no array with the old one.
 */
module Polygon {
  import opened Machine
  import opened Scalar
  import FixMath
  import FixTrig
  import ScalarLaws
  import Vec2

  type FixVec2 = Vec2.FixVec2

  // ----- the functions the methods are specified by -----

  /** Edge `i`: from point `i` to the next point, the last one wrapping to the first. */
  function Edge(ps: seq<FixVec2>, i: nat): FixVec2
    requires i < |ps|
  {
    var next := if i + 1 >= |ps| then ps[0] else ps[i + 1];
    next.Sub(ps[i])
  }

  function EdgesOf(ps: seq<FixVec2>): seq<FixVec2> {
    seq(|ps|, i requires 0 <= i < |ps| => Edge(ps, i))
  }

  /** The wrapping vector sum, added from the front as a `foreach` does. */
  function SumOf(vs: seq<FixVec2>): FixVec2 {
    if |vs| == 0 then Vec2.FixVec2.Zero
    else SumOf(vs[..|vs| - 1]).Add(vs[|vs| - 1])
  }

  /**
   * `Center`: the sum divided componentwise by the point count, which is
   * first converted to `Fix` with `n << 10`. That conversion wraps to 0
   * for every multiple of 2^22, and a zero divisor faults.
   */
  function CenterOf(ps: seq<FixVec2>): (r: Result<FixVec2>)
    requires |ps| <= MAX32
    ensures r.Err? <==> |ps| % 0x40_0000 == 0
    ensures r.Err? ==> r.fault == DivideByZero
  {
    var n := FromInt(|ps|);
    CountVanishes(|ps|);
    var total := SumOf(ps);
    match Div(total.x, n)
    case Err(f) => Err(f)
    case Ok(cx) =>
      match Div(total.y, n)
      case Err(f) => Err(f)
      case Ok(cy) => Ok(Vec2.FixVec2(cx, cy))
  }

  /** `n << 10` is 0 on 32 bits exactly when `n` is a multiple of 2^22. */
  lemma CountVanishes(n: nat)
    requires n <= MAX32
    ensures FromInt(n).raw == 0 <==> n % 0x40_0000 == 0
  {
    FromIntWraps(n);
    WrapVanishes(FromInt(n).raw, n);
  }

  /** Every point moved by `v`. */
  function Shifted(ps: seq<FixVec2>, v: FixVec2): (r: seq<FixVec2>)
    ensures |r| == |ps|
  {
    seq(|ps|, i requires 0 <= i < |ps| => ps[i].Add(v))
  }

  /** Every point rotated by `degrees`. */
  function RotatedAll(t: FixMath.Tables, ps: seq<FixVec2>, degrees: Fix): (r: seq<FixVec2>)
    requires t.Valid() && FixTrig.TrigDefined(degrees)
    ensures |r| == |ps|
  {
    seq(|ps|, i requires 0 <= i < |ps| => ps[i].Rotate(t, degrees))
  }

  class FixPolygon {
    const points: array<FixVec2>
    const edges: array<FixVec2>

    /** One edge per point, each from its point to the next one round the polygon. */
    predicate Valid()
      reads this, points, edges
    {
      points != edges && edges[..] == EdgesOf(points[..])
    }

    /** The public constructor: copies the points and builds the edges. */
    constructor (ps: seq<FixVec2>)
      ensures fresh(points) && fresh(edges)
      ensures points[..] == ps
      ensures Valid()
    {
      points := new FixVec2[|ps|](i requires 0 <= i < |ps| => ps[i]);
      edges := new FixVec2[|ps|](_ => Vec2.FixVec2.Zero);
      new;
      assert points[..] == ps;
      BuildEdges();
    }

    /** The private constructor: copies the points and the edges as given. */
    constructor FromParts(ps: seq<FixVec2>, es: seq<FixVec2>)
      ensures fresh(points) && fresh(edges) && points != edges
      ensures points[..] == ps && edges[..] == es
    {
      points := new FixVec2[|ps|](i requires 0 <= i < |ps| => ps[i]);
      edges := new FixVec2[|es|](i requires 0 <= i < |es| => es[i]);
      new;
      assert points[..] == ps;
      assert edges[..] == es;
    }

    /** `BuildEdges`: writes every edge; the points are only read. */
    method BuildEdges()
      requires points != edges && points.Length == edges.Length
      modifies edges
      ensures edges[..] == EdgesOf(points[..])
      ensures points[..] == old(points[..])
    {
      var n := points.Length;
      for p := 0 to n
        invariant edges[..p] == EdgesOf(points[..])[..p]
      {
        var p1 := points[p];
        var p2 := if p + 1 >= n then points[0] else points[p + 1];
        edges[p] := p2.Sub(p1);
        assert edges[..p + 1] == edges[..p] + [edges[p]];
        assert EdgesOf(points[..])[..p + 1] == EdgesOf(points[..])[..p] + [Edge(points[..], p)];
      }
      assert edges[..] == edges[..n];
    }

    /** The `Center` property: the two running totals, then the division. */
    method Center() returns (r: Result<FixVec2>)
      requires points.Length <= MAX32
      ensures r == CenterOf(points[..])
    {
      var totalX, totalY := Scalar.Zero, Scalar.Zero;
      for i := 0 to points.Length
        invariant Vec2.FixVec2(totalX, totalY) == SumOf(points[..i])
      {
        totalX := Add(totalX, points[i].x);
        totalY := Add(totalY, points[i].y);
        assert points[..i + 1][..i] == points[..i];
      }
      assert points[..] == points[..points.Length];
      var n := FromInt(points.Length);
      if n.raw == 0 {
        return Err(DivideByZero);
      }
      return Ok(Vec2.FixVec2(Div(totalX, n).value, Div(totalY, n).value));
    }

    /** `Rotate(degree)`: a new polygon of the rotated points, with its own edges. */
    method Rotate(t: FixMath.Tables, degree: i32) returns (r: FixPolygon)
      requires t.Valid() && FixTrig.TrigDefined(FromInt(degree))
      ensures fresh(r) && fresh(r.points) && fresh(r.edges)
      ensures r.points[..] == RotatedAll(t, points[..], FromInt(degree))
      ensures r.Valid()
    {
      var d := FromInt(degree);
      var rotated: seq<FixVec2> := [];
      for i := 0 to points.Length
        invariant rotated == RotatedAll(t, points[..i], d)
      {
        rotated := rotated + [points[i].Rotate(t, d)];
      }
      assert points[..] == points[..points.Length];
      r := new FixPolygon(rotated);
    }

    /** `polygon + vector`: the points shifted, the edges copied unchanged. */
    static method Plus(polygon: FixPolygon, vector: FixVec2) returns (r: FixPolygon)
      ensures fresh(r) && fresh(r.points) && fresh(r.edges)
      ensures r.points[..] == Shifted(polygon.points[..], vector)
      ensures r.edges[..] == polygon.edges[..]
      ensures polygon.Valid() ==> r.Valid()
    {
      var shifted: seq<FixVec2> := [];
      for i := 0 to polygon.points.Length
        invariant shifted == Shifted(polygon.points[..i], vector)
      {
        shifted := shifted + [polygon.points[i].Add(vector)];
      }
      assert polygon.points[..] == polygon.points[..polygon.points.Length];
      r := new FixPolygon.FromParts(shifted, polygon.edges[..]);
      EdgesOfShifted(polygon.points[..], vector);
    }
  }

  // ----- the edges -----

  /** There is one edge per point, and edge `i` runs to point `(i + 1) % n`. */
  lemma EdgesWrapAround(ps: seq<FixVec2>)
    ensures |EdgesOf(ps)| == |ps|
    ensures forall i :: 0 <= i < |ps| ==> EdgesOf(ps)[i] == ps[(i + 1) % |ps|].Sub(ps[i])
  {
    forall i | 0 <= i < |ps|
      ensures EdgesOf(ps)[i] == ps[(i + 1) % |ps|].Sub(ps[i])
    {
      if i + 1 < |ps| {
        assert (i + 1) % |ps| == i + 1;
      } else {
        assert (i + 1) % |ps| == 0;
      }
    }
  }

  /** Shifting every point by the same vector leaves every edge as it was. */
  lemma EdgesOfShifted(ps: seq<FixVec2>, v: FixVec2)
    ensures EdgesOf(Shifted(ps, v)) == EdgesOf(ps)
  {
    var qs := Shifted(ps, v);
    forall i | 0 <= i < |ps|
      ensures EdgesOf(qs)[i] == EdgesOf(ps)[i]
    {
      var j := if i + 1 >= |ps| then 0 else i + 1;
      FixShiftedDifference(ps[j].x, ps[i].x, v.x);
      FixShiftedDifference(ps[j].y, ps[i].y, v.y);
    }
  }

  lemma FixShiftedDifference(b: Fix, a: Fix, v: Fix)
    ensures Sub(Add(b, v), Add(a, v)) == Sub(b, a)
  {
    ShiftedDifferenceUnfolds(b, a, v);
    Wrap32ShiftedDifference(a.raw, b.raw, v.raw);
  }

  lemma ShiftedDifferenceUnfolds(b: Fix, a: Fix, v: Fix)
    ensures Sub(Add(b, v), Add(a, v)) == Fix(Wrap32(Wrap32(b.raw + v.raw) - Wrap32(a.raw + v.raw)))
  {
  }

  /** `(c - a) + (b - c) == b - a`, wrap-around included. */
  lemma Telescope(a: FixVec2, b: FixVec2, c: FixVec2)
    ensures c.Sub(a).Add(b.Sub(c)) == b.Sub(a)
  {
    FixTelescope(a.x, b.x, c.x);
    FixTelescope(a.y, b.y, c.y);
  }

  lemma FixTelescope(a: Fix, b: Fix, c: Fix)
    ensures Add(Sub(c, a), Sub(b, c)) == Sub(b, a)
  {
    TelescopeUnfolds(a, b, c);
    Wrap32Telescope(a.raw, b.raw, c.raw);
  }

  lemma TelescopeUnfolds(a: Fix, b: Fix, c: Fix)
    ensures Add(Sub(c, a), Sub(b, c)) == Fix(Wrap32(Wrap32(c.raw - a.raw) + Wrap32(b.raw - c.raw)))
  {
  }

  /** The first `k` edges add up to the vector from point 0 to point `k`. */
  lemma {:induction false} PrefixEdgeSum(ps: seq<FixVec2>, k: nat)
    requires k < |ps|
    ensures SumOf(EdgesOf(ps)[..k]) == ps[k].Sub(ps[0])
  {
    var es := EdgesOf(ps);
    if k == 0 {
      Vec2.AddSubRoundTrip(Vec2.FixVec2.Zero, ps[0]);
      assert ps[0].Sub(ps[0]) == Vec2.FixVec2.Zero;
    } else {
      PrefixEdgeSum(ps, k - 1);
      assert es[..k][..k - 1] == es[..k - 1];
      assert es[k - 1] == ps[k].Sub(ps[k - 1]);
      Telescope(ps[0], ps[k], ps[k - 1]);
    }
  }

  /** The edges of a closed polygon add up to the zero vector exactly. */
  lemma EdgesSumToZero(ps: seq<FixVec2>)
    ensures SumOf(EdgesOf(ps)) == Vec2.FixVec2.Zero
  {
    var es := EdgesOf(ps);
    var n := |ps|;
    if n > 0 {
      PrefixEdgeSum(ps, n - 1);
      assert es[..n] == es;
      assert es[..n][..n - 1] == es[..n - 1];
      assert es[n - 1] == ps[0].Sub(ps[n - 1]);
      Telescope(ps[0], ps[0], ps[n - 1]);
      Vec2.AddSubRoundTrip(Vec2.FixVec2.Zero, ps[0]);
    }
  }

  // ----- the centre -----

  /** The raw integer sum of the x coordinates and of the y coordinates. */
  function RawSumX(vs: seq<FixVec2>): int {
    if |vs| == 0 then 0 else RawSumX(vs[..|vs| - 1]) + vs[|vs| - 1].x.raw
  }

  function RawSumY(vs: seq<FixVec2>): int {
    if |vs| == 0 then 0 else RawSumY(vs[..|vs| - 1]) + vs[|vs| - 1].y.raw
  }

  /** The wrapping sum agrees with the integer sum modulo 2^32, and equals it when that fits. */
  lemma {:induction false} SumWraps(vs: seq<FixVec2>)
    ensures (SumOf(vs).x.raw - RawSumX(vs)) % TWO32 == 0
    ensures (SumOf(vs).y.raw - RawSumY(vs)) % TWO32 == 0
    ensures MIN32 <= RawSumX(vs) <= MAX32 ==> SumOf(vs).x.raw == RawSumX(vs)
    ensures MIN32 <= RawSumY(vs) <= MAX32 ==> SumOf(vs).y.raw == RawSumY(vs)
  {
    if |vs| > 0 {
      var init := vs[..|vs| - 1];
      var last := vs[|vs| - 1];
      SumWraps(init);
      var s := SumOf(init);
      CongruentStep(s.x.raw, last.x.raw, RawSumX(init), RawSumX(vs));
      CongruentStep(s.y.raw, last.y.raw, RawSumY(init), RawSumY(vs));
    }
  }

  /** `Wrap32(s + v)`, with `s` congruent to `t`, is congruent to `u == t + v`. */
  lemma CongruentStep(s: int, v: int, t: int, u: int)
    requires (s - t) % TWO32 == 0 && u == t + v
    ensures (Wrap32(s + v) - u) % TWO32 == 0
    ensures MIN32 <= u <= MAX32 ==> Wrap32(s + v) == u
  {
    Wrap32Congruent(s + v, u);
  }

  /** A single point is its own centre, and an empty polygon has none. */
  lemma CenterExamples(p: FixVec2)
    ensures CenterOf([p]) == Ok(p)
    ensures CenterOf([]) == Err(DivideByZero)
  {
    assert [p][..0] == [];
    assert SumOf([p]) == p;
    ScalarLaws.DivIdentities(p.x);
    ScalarLaws.DivIdentities(p.y);
    assert FromInt(1) == Scalar.One;
  }

  // ----- rotation -----

  /** With exact table ends, a rotation by 0 degrees keeps every point. */
  lemma RotateByZero(t: FixMath.Tables, ps: seq<FixVec2>)
    requires t.Valid() && FixTrig.ExactEndpoints(t)
    ensures FixTrig.TrigDefined(FromInt(0))
    ensures RotatedAll(t, ps, FromInt(0)) == ps
  {
    assert FromInt(0) == Scalar.Zero;
    forall i | 0 <= i < |ps|
      ensures ps[i].Rotate(t, Scalar.Zero) == ps[i]
    {
      Vec2.RotateByZero(t, ps[i]);
    }
    Vec2.RotateByZero(t, Vec2.FixVec2.Zero);
  }
}
