/**
 * The separating-axis test of `PolygonCollision`: every edge normal of
 * both polygons is an axis; the polygons intersect now when their
 * projections overlap on every axis, and will intersect when the
 * projection of A, stretched by the velocity, overlaps B's on every axis.
 * The smallest gap found gives the minimum translation vector.
 */
module Collision {
  import opened Machine
  import opened Scalar
  import FixMath
  import Vec2
  import Polygon

  type FixVec2 = Vec2.FixVec2

  /** `PolygonCollisionResult`: the two verdicts and the push-apart vector. */
  datatype PolygonCollisionResult = PolygonCollisionResult(
    willIntersect: bool, intersect: bool, minimumTranslationVector: FixVec2)

  /** A projection `[min, max]` on an axis. */
  datatype Interval = Interval(min: Fix, max: Fix)

  /** A polygon's two arrays as values. */
  datatype Shape = Shape(points: seq<FixVec2>, edges: seq<FixVec2>)

  /** The arrays of a .NET program: their length fits an `int`. */
  predicate Bounded(s: Shape) {
    |s.points| <= MAX32
  }

  // ----- intervals -----

  /** `IntervalDistance`: the gap between two intervals, negative when they overlap. */
  function IntervalDistance(minA: Fix, maxA: Fix, minB: Fix, maxB: Fix): Fix {
    if minA.raw < minB.raw then Sub(minB, maxA) else Sub(minA, maxB)
  }

  function Gap(a: Interval, b: Interval): Fix {
    IntervalDistance(a.min, a.max, b.min, b.max)
  }

  predicate WellFormed(a: Interval) {
    a.min.raw <= a.max.raw
  }

  /**
   * For well-formed intervals whose differences fit 32 bits, the gap is
   * positive exactly when the intervals are disjoint.
   */
  lemma GapPositiveIffDisjoint(a: Interval, b: Interval)
    requires WellFormed(a) && WellFormed(b)
    requires MIN32 <= b.min.raw - a.max.raw <= MAX32
    requires MIN32 <= a.min.raw - b.max.raw <= MAX32
    ensures Gap(a, b).raw > 0 <==> (a.max.raw < b.min.raw || b.max.raw < a.min.raw)
  {
  }

  /** The projection of A during the movement: stretched towards the velocity's side. */
  function Swept(a: Interval, velocityProjection: Fix): Interval {
    if velocityProjection.raw < 0 then Interval(Add(a.min, velocityProjection), a.max)
    else Interval(a.min, Add(a.max, velocityProjection))
  }

  /**
   * Without wrap-around the swept interval contains both the interval and
   * the interval moved by the velocity projection.
   */
  lemma SweptContains(a: Interval, vp: Fix)
    requires WellFormed(a)
    requires MIN32 <= a.min.raw + vp.raw <= MAX32 && MIN32 <= a.max.raw + vp.raw <= MAX32
    ensures var s := Swept(a, vp);
      WellFormed(s) && s.min.raw <= a.min.raw && a.max.raw <= s.max.raw &&
      s.min.raw <= a.min.raw + vp.raw && a.max.raw + vp.raw <= s.max.raw
  {
  }

  // ----- projection -----

  /** The projection of point `i` on the axis, as the loop computes it. */
  function Projection(axis: FixVec2, ps: seq<FixVec2>, i: nat): Fix
    requires i < |ps|
  {
    ps[i].Dot(axis)
  }

  /** One step of the projection loop: lower the minimum, or else raise the maximum. */
  function Widen(iv: Interval, d: Fix): Interval {
    if d.raw < iv.min.raw then Interval(d, iv.max)
    else if d.raw > iv.max.raw then Interval(iv.min, d)
    else iv
  }

  /** The interval after the first `k` loop steps; it starts at `axis.Dot(Points[0])`. */
  function Scan(axis: FixVec2, ps: seq<FixVec2>, k: nat): Interval
    requires 1 <= |ps| && k <= |ps|
  {
    if k == 0 then Interval(axis.Dot(ps[0]), axis.Dot(ps[0]))
    else Widen(Scan(axis, ps, k - 1), Projection(axis, ps, k - 1))
  }

  /** `ProjectPolygon`: reading `Points[0]` of an empty polygon is out of range. */
  function ProjectionOf(axis: FixVec2, ps: seq<FixVec2>): (r: Result<Interval>)
    ensures r.Err? <==> |ps| == 0
    ensures r.Err? ==> r.fault == IndexOutOfRange
  {
    if |ps| == 0 then Err(IndexOutOfRange) else Ok(Scan(axis, ps, |ps|))
  }

  /**
   * The projection interval is the tightest one: every point projects into
   * it, and both ends are the projection of some point.
   */
  lemma ProjectionTight(axis: FixVec2, ps: seq<FixVec2>)
    requires |ps| >= 1
    ensures var iv := ProjectionOf(axis, ps).value;
      WellFormed(iv) &&
      (forall i :: 0 <= i < |ps| ==> iv.min.raw <= Projection(axis, ps, i).raw <= iv.max.raw) &&
      (exists i :: 0 <= i < |ps| && Projection(axis, ps, i) == iv.min) &&
      (exists i :: 0 <= i < |ps| && Projection(axis, ps, i) == iv.max)
  {
    ScanTight(axis, ps, |ps|);
  }

  lemma {:induction false} ScanTight(axis: FixVec2, ps: seq<FixVec2>, k: nat)
    requires 1 <= |ps| && k <= |ps|
    ensures var iv := Scan(axis, ps, k);
      WellFormed(iv) &&
      (forall i :: 0 <= i < k ==> iv.min.raw <= Projection(axis, ps, i).raw <= iv.max.raw) &&
      (exists i :: 0 <= i < |ps| && Projection(axis, ps, i) == iv.min) &&
      (exists i :: 0 <= i < |ps| && Projection(axis, ps, i) == iv.max)
  {
    if k == 0 {
      Vec2.DotSymmetric(axis, ps[0]);
      assert Projection(axis, ps, 0) == axis.Dot(ps[0]);
    } else {
      ScanTight(axis, ps, k - 1);
      var iv := Scan(axis, ps, k - 1);
      var d := Projection(axis, ps, k - 1);
      if d.raw < iv.min.raw {
        assert Scan(axis, ps, k).min == Projection(axis, ps, k - 1);
      } else if d.raw > iv.max.raw {
        assert Scan(axis, ps, k).max == Projection(axis, ps, k - 1);
      }
    }
  }

  /** The `ProjectPolygon` loop. */
  method ProjectPolygon(axis: FixVec2, polygon: Polygon.FixPolygon) returns (r: Result<Interval>)
    ensures r == ProjectionOf(axis, polygon.points[..])
  {
    var n := polygon.points.Length;
    if n == 0 {
      return Err(IndexOutOfRange);
    }
    ghost var ps := polygon.points[..];
    var d := axis.Dot(polygon.points[0]);
    var min, max := d, d;
    for i := 0 to n
      invariant Interval(min, max) == Scan(axis, ps, i)
    {
      d := polygon.points[i].Dot(axis);
      assert d == Projection(axis, ps, i);
      assert Scan(axis, ps, i + 1) == Widen(Interval(min, max), d);
      if d.raw < min.raw {
        min := d;
      } else if d.raw > max.raw {
        max := d;
      }
    }
    return Ok(Interval(min, max));
  }

  // ----- the sweep over the edges -----

  /** What the loop carries from one edge to the next. */
  datatype SweepState = SweepState(
    intersect: bool, willIntersect: bool, minDistance: Fix, translationAxis: FixVec2)

  /** The state after one edge, and whether the loop exits there. */
  datatype Step = Step(state: SweepState, stop: bool)

  const Start: SweepState := SweepState(true, true, MaxValue, Vec2.FixVec2.Zero)

  /**
   * What `Center()` of each polygon returns. It is the same for every
   * edge; the loop only asks for it when it records a new best axis.
   */
  datatype Centres = Centres(ofA: Result<FixVec2>, ofB: Result<FixVec2>)

  function CentresOf(a: Shape, b: Shape): Centres
    requires Bounded(a) && Bounded(b)
  {
    Centres(Polygon.CenterOf(a.points), Polygon.CenterOf(b.points))
  }

  function EdgeCount(a: Shape, b: Shape): nat {
    |a.edges| + |b.edges|
  }

  /** Edge `i` of the combined list: A's edges, then B's. */
  function EdgeAt(a: Shape, b: Shape, i: nat): FixVec2
    requires i < EdgeCount(a, b)
  {
    if i < |a.edges| then a.edges[i] else b.edges[i - |a.edges|]
  }

  /** The normalised normal `(-edge.Y, edge.X)`. */
  function AxisOf(edge: FixVec2): Result<FixVec2> {
    Vec2.FixVec2(Neg(edge.y), edge.x).Normalize()
  }

  /** What one edge's axis shows: both projections and the velocity's. */
  datatype Probe = Probe(axis: FixVec2, projectionA: Interval, projectionB: Interval, velocityProjection: Fix)

  /** The normal of the edge, then the two projections on it; each can fail. */
  function ProbeOf(a: Shape, b: Shape, velocity: FixVec2, edge: FixVec2): Result<Probe> {
    match AxisOf(edge)
    case Err(f) => Err(f)
    case Ok(axis) =>
      match ProjectionOf(axis, a.points)
      case Err(f) => Err(f)
      case Ok(pa) =>
        match ProjectionOf(axis, b.points)
        case Err(f) => Err(f)
        case Ok(pb) => Ok(Probe(axis, pa, pb, axis.Dot(velocity)))
  }

  /** The probe of every edge, in loop order. */
  function Probes(a: Shape, b: Shape, velocity: FixVec2): (r: seq<Result<Probe>>)
    ensures |r| == EdgeCount(a, b)
  {
    seq(EdgeCount(a, b), j requires 0 <= j < EdgeCount(a, b) => ProbeOf(a, b, velocity, EdgeAt(a, b, j)))
  }

  /** The current projections are disjoint on this axis. */
  predicate Separated(p: Probe) {
    Gap(p.projectionA, p.projectionB).raw > 0
  }

  /** B's projection is disjoint from A's projection swept by the velocity. */
  predicate SweptSeparated(p: Probe) {
    Gap(Swept(p.projectionA, p.velocityProjection), p.projectionB).raw > 0
  }

  /** The two overlap tests, the early exit and the minimum-distance update. */
  function Judge(c: Centres, p: Probe, s: SweepState): Result<Step> {
    var intersect := s.intersect && !Separated(p);
    var will := s.willIntersect && !SweptSeparated(p);
    if !intersect && !will then Ok(Step(SweepState(intersect, will, s.minDistance, s.translationAxis), true))
    else
      var gap := FixMath.Abs(Gap(Swept(p.projectionA, p.velocityProjection), p.projectionB));
      if gap.raw < s.minDistance.raw then Recenter(c, p.axis, SweepState(intersect, will, gap, p.axis))
      else Ok(Step(SweepState(intersect, will, s.minDistance, s.translationAxis), false))
  }

  /** The new best axis points from B's centre towards A's. */
  function Recenter(c: Centres, axis: FixVec2, s: SweepState): (r: Result<Step>)
    ensures r.Err? <==> c.ofA.Err? || c.ofB.Err?
    ensures r.Ok? ==> !r.value.stop && r.value.state == s.(translationAxis := r.value.state.translationAxis)
    ensures r.Ok? ==> r.value.state.translationAxis == axis || r.value.state.translationAxis == axis.Negate()
    ensures r.Ok? && c.ofA.value.Sub(c.ofB.value).Dot(axis).raw >= 0 ==> r.value.state.translationAxis == axis
  {
    match c.ofA
    case Err(f) => Err(f)
    case Ok(ca) =>
      match c.ofB
      case Err(f) => Err(f)
      case Ok(cb) =>
        var axis' := if ca.Sub(cb).Dot(axis).raw < 0 then axis.Negate() else axis;
        Ok(Step(s.(translationAxis := axis'), false))
  }

  /** The loop from edge `i` on, until the last edge, a fault or the early exit. */
  function Sweep(probes: seq<Result<Probe>>, c: Centres, i: nat, s: SweepState): Result<SweepState>
    requires i <= |probes|
    decreases |probes| - i
  {
    if i == |probes| then Ok(s)
    else
      match probes[i]
      case Err(f) => Err(f)
      case Ok(p) =>
        match Judge(c, p, s)
        case Err(f) => Err(f)
        case Ok(step) => if step.stop then Ok(step.state) else Sweep(probes, c, i + 1, step.state)
  }

  /** An edge that neither fails nor exits hands its state to the next edge. */
  lemma SweepAdvances(probes: seq<Result<Probe>>, c: Centres, i: nat, s: SweepState, next: SweepState,
                       target: Result<SweepState>)
    requires i < |probes| && probes[i].Ok?
    requires Judge(c, probes[i].value, s) == Ok(Step(next, false))
    requires Sweep(probes, c, i, s) == target
    ensures Sweep(probes, c, i + 1, next) == target
  {
  }

  /** `CheckCollision` on the polygons' contents. */
  function CheckCollisionSpec(a: Shape, b: Shape, velocity: FixVec2): (r: Result<PolygonCollisionResult>)
    requires Bounded(a) && Bounded(b)
    ensures r.Ok? && !r.value.willIntersect ==> r.value.minimumTranslationVector == Vec2.FixVec2.Zero
  {
    match Sweep(Probes(a, b, velocity), CentresOf(a, b), 0, Start)
    case Err(f) => Err(f)
    case Ok(s) =>
      var mtv := if s.willIntersect then s.translationAxis.ScalarMultiply(s.minDistance) else Vec2.FixVec2.Zero;
      Ok(PolygonCollisionResult(s.willIntersect, s.intersect, mtv))
  }

  /**
   * The start of the loop body for edge `edgeIndex` (A's edges, then B's):
   * its normal, then both projections and the velocity's.
   */
  method ProbeEdge(polygonA: Polygon.FixPolygon, polygonB: Polygon.FixPolygon, velocity: FixVec2, edgeIndex: nat)
    returns (r: Result<Probe>)
    requires edgeIndex < polygonA.edges.Length + polygonB.edges.Length
    ensures r == Probes(Shape(polygonA.points[..], polygonA.edges[..]), Shape(polygonB.points[..], polygonB.edges[..]),
      velocity)[edgeIndex]
  {
    ghost var a := Shape(polygonA.points[..], polygonA.edges[..]);
    ghost var b := Shape(polygonB.points[..], polygonB.edges[..]);
    var edge := if edgeIndex < polygonA.edges.Length then polygonA.edges[edgeIndex]
      else polygonB.edges[edgeIndex - polygonA.edges.Length];
    assert edge == EdgeAt(a, b, edgeIndex);
    var axisOrFault := Vec2.FixVec2(Neg(edge.y), edge.x).Normalize();
    if axisOrFault.Err? {
      return Err(axisOrFault.fault);
    }
    var axis := axisOrFault.value;
    var projectionA := ProjectPolygon(axis, polygonA);
    if projectionA.Err? {
      return Err(projectionA.fault);
    }
    var projectionB := ProjectPolygon(axis, polygonB);
    if projectionB.Err? {
      return Err(projectionB.fault);
    }
    return Ok(Probe(axis, projectionA.value, projectionB.value, axis.Dot(velocity)));
  }

  /**
   * The rest of the loop body for one edge: the two overlap tests, the
   * early exit when both fail, and the minimum-distance update, which
   * asks both polygons for their centre.
   */
  method JudgeEdge(polygonA: Polygon.FixPolygon, polygonB: Polygon.FixPolygon, p: Probe, s: SweepState)
    returns (r: Result<Step>)
    requires polygonA.points.Length <= MAX32 && polygonB.points.Length <= MAX32
    ensures r == Judge(CentresOf(Shape(polygonA.points[..], polygonA.edges[..]),
      Shape(polygonB.points[..], polygonB.edges[..])), p, s)
  {
    var intersect, willIntersect := s.intersect, s.willIntersect;
    var minA, maxA := p.projectionA.min, p.projectionA.max;
    var minB, maxB := p.projectionB.min, p.projectionB.max;
    if IntervalDistance(minA, maxA, minB, maxB).raw > 0 {
      intersect := false;
    }
    assert intersect == (s.intersect && !Separated(p));
    if p.velocityProjection.raw < 0 {
      minA := Add(minA, p.velocityProjection);
    } else {
      maxA := Add(maxA, p.velocityProjection);
    }
    assert Interval(minA, maxA) == Swept(p.projectionA, p.velocityProjection);
    var intervalDistance := IntervalDistance(minA, maxA, minB, maxB);
    if intervalDistance.raw > 0 {
      willIntersect := false;
    }
    assert willIntersect == (s.willIntersect && !SweptSeparated(p));
    ghost var c := CentresOf(Shape(polygonA.points[..], polygonA.edges[..]),
      Shape(polygonB.points[..], polygonB.edges[..]));
    if !intersect && !willIntersect {
      return Ok(Step(SweepState(intersect, willIntersect, s.minDistance, s.translationAxis), true));
    }
    intervalDistance := FixMath.Abs(intervalDistance);
    if intervalDistance.raw < s.minDistance.raw {
      assert Judge(c, p, s) == Recenter(c, p.axis, SweepState(intersect, willIntersect, intervalDistance, p.axis));
      var translationAxis := p.axis;
      var centerA := polygonA.Center();
      if centerA.Err? {
        return Err(centerA.fault);
      }
      var centerB := polygonB.Center();
      if centerB.Err? {
        return Err(centerB.fault);
      }
      var d := centerA.value.Sub(centerB.value);
      if d.Dot(translationAxis).raw < 0 {
        translationAxis := translationAxis.Negate();
      }
      return Ok(Step(SweepState(intersect, willIntersect, intervalDistance, translationAxis), false));
    }
    return Ok(Step(SweepState(intersect, willIntersect, s.minDistance, s.translationAxis), false));
  }

  /** The `CheckCollision` loop, with its early exit and its faults. */
  method CheckCollision(polygonA: Polygon.FixPolygon, polygonB: Polygon.FixPolygon, velocity: FixVec2)
    returns (r: Result<PolygonCollisionResult>)
    requires polygonA.points.Length <= MAX32 && polygonB.points.Length <= MAX32
    ensures r == CheckCollisionSpec(
      Shape(polygonA.points[..], polygonA.edges[..]), Shape(polygonB.points[..], polygonB.edges[..]), velocity)
  {
    ghost var a := Shape(polygonA.points[..], polygonA.edges[..]);
    ghost var b := Shape(polygonB.points[..], polygonB.edges[..]);
    ghost var probes := Probes(a, b, velocity);
    ghost var c := CentresOf(a, b);
    ghost var target := Sweep(probes, c, 0, Start);
    var state := Start;
    var edgeCountA := polygonA.edges.Length;
    var edgeCountB := polygonB.edges.Length;
    var edgeIndex := 0;
    while edgeIndex < edgeCountA + edgeCountB
      invariant edgeIndex <= edgeCountA + edgeCountB
      invariant Sweep(probes, c, edgeIndex, state) == target
      decreases edgeCountA + edgeCountB - edgeIndex
    {
      var probe := ProbeEdge(polygonA, polygonB, velocity, edgeIndex);
      if probe.Err? {
        return Err(probe.fault);
      }
      var step := JudgeEdge(polygonA, polygonB, probe.value, state);
      if step.Err? {
        return Err(step.fault);
      }
      if step.value.stop {
        state := step.value.state;
        break;
      }
      SweepAdvances(probes, c, edgeIndex, state, step.value.state, target);
      state := step.value.state;
      edgeIndex := edgeIndex + 1;
    }
    var mtv := Vec2.FixVec2.Zero;
    if state.willIntersect {
      mtv := state.translationAxis.ScalarMultiply(state.minDistance);
    }
    return Ok(PolygonCollisionResult(state.willIntersect, state.intersect, mtv));
  }

  // ----- what the sweep promises -----

  /** The probe at `j` succeeded and its axis separates the polygons now. */
  predicate SeparatedAt(probes: seq<Result<Probe>>, j: nat)
    requires j < |probes|
  {
    probes[j].Ok? && Separated(probes[j].value)
  }

  /** The probe at `j` succeeded and its axis separates them over the movement. */
  predicate SweptSeparatedAt(probes: seq<Result<Probe>>, j: nat)
    requires j < |probes|
  {
    probes[j].Ok? && SweptSeparated(probes[j].value)
  }

  /** What one edge does to the flags and the smallest gap. */
  lemma StepVerdict(c: Centres, p: Probe, s: SweepState)
    requires Judge(c, p, s).Ok?
    ensures var step := Judge(c, p, s).value;
      (step.state.intersect <==> s.intersect && !Separated(p)) &&
      (step.state.willIntersect <==> s.willIntersect && !SweptSeparated(p)) &&
      step.state.minDistance.raw <= s.minDistance.raw &&
      (step.stop <==> !step.state.intersect && !step.state.willIntersect)
  {
  }

  /**
   * The separating-axis verdicts of the loop from edge `i` on: it ends
   * with "intersecting" exactly when no remaining axis separates the
   * polygons now, and "will intersect" exactly when none separates them
   * over the movement. The flags only ever fall, and the smallest gap
   * never grows.
   */
  lemma {:induction false} SweepVerdicts(probes: seq<Result<Probe>>, c: Centres, i: nat, s: SweepState)
    requires i <= |probes|
    requires Sweep(probes, c, i, s).Ok?
    ensures var e := Sweep(probes, c, i, s).value;
      (e.intersect <==> s.intersect && forall j :: i <= j < |probes| ==> !SeparatedAt(probes, j)) &&
      (e.willIntersect <==> s.willIntersect && forall j :: i <= j < |probes| ==> !SweptSeparatedAt(probes, j)) &&
      e.minDistance.raw <= s.minDistance.raw
    decreases |probes| - i
  {
    if i < |probes| {
      var p := probes[i].value;
      var step := Judge(c, p, s).value;
      StepVerdict(c, p, s);
      assert SeparatedAt(probes, i) == Separated(p) && SweptSeparatedAt(probes, i) == SweptSeparated(p);
      if step.stop {
        assert Sweep(probes, c, i, s) == Ok(step.state);
      } else {
        assert Sweep(probes, c, i, s) == Sweep(probes, c, i + 1, step.state);
        SweepVerdicts(probes, c, i + 1, step.state);
        assert (forall j :: i <= j < |probes| ==> !SeparatedAt(probes, j)) <==>
          !SeparatedAt(probes, i) && forall j :: i + 1 <= j < |probes| ==> !SeparatedAt(probes, j);
        assert (forall j :: i <= j < |probes| ==> !SweptSeparatedAt(probes, j)) <==>
          !SweptSeparatedAt(probes, i) && forall j :: i + 1 <= j < |probes| ==> !SweptSeparatedAt(probes, j);
      }
    }
  }

  /**
   * The verdicts of `CheckCollision`: "intersect" exactly when no edge
   * normal of either polygon separates their projections, "will
   * intersect" exactly when none separates them once A's projection is
   * stretched by the velocity, and no push-apart vector otherwise.
   */
  lemma CollisionVerdicts(a: Shape, b: Shape, velocity: FixVec2)
    requires Bounded(a) && Bounded(b)
    requires CheckCollisionSpec(a, b, velocity).Ok?
    ensures var r := CheckCollisionSpec(a, b, velocity).value;
      var probes := Probes(a, b, velocity);
      (r.intersect <==> forall j :: 0 <= j < EdgeCount(a, b) ==> !SeparatedAt(probes, j)) &&
      (r.willIntersect <==> forall j :: 0 <= j < EdgeCount(a, b) ==> !SweptSeparatedAt(probes, j)) &&
      (!r.willIntersect ==> r.minimumTranslationVector == Vec2.FixVec2.Zero)
  {
    SweepVerdicts(Probes(a, b, velocity), CentresOf(a, b), 0, Start);
  }

  /** Two polygons without edges are reported as intersecting, with no push. */
  lemma NoEdges(a: Shape, b: Shape, velocity: FixVec2)
    requires Bounded(a) && Bounded(b) && |a.edges| == 0 && |b.edges| == 0
    ensures CheckCollisionSpec(a, b, velocity) == Ok(PolygonCollisionResult(true, true, Vec2.FixVec2.Zero))
  {
    assert Vec2.FixVec2.Zero.ScalarMultiply(MaxValue) == Vec2.FixVec2.Zero by {
      ScalarZero(MaxValue);
    }
  }

  lemma ScalarZero(v: Fix)
    ensures Mul(Scalar.Zero, v) == Scalar.Zero
  {
    assert (0 * v.raw + 512) / FRACTION_RANGE == 0;
  }
}
