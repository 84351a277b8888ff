/**
 * The table-driven trigonometry of `FixMath`: angles are in degrees, the
 * quarter-sine table has 2^p entries per degree, and `CosRaw` mirrors the
 * quarter wave into four quadrants and interpolates linearly between
 * neighbouring entries, rounding half up.
 */
module FixTrig {
  import opened Machine
  import opened Scalar
  import opened FixMath
  import ScalarLaws

  /** The width of one table step in raw units: `1 << (10 - p)`. */
  function StepBits(t: Tables): (s: nat)
    requires t.Valid()
    ensures 1 <= s <= FRACTIONAL_BITS
  {
    FRACTIONAL_BITS - t.resPower
  }

  function Step(t: Tables): (w: nat)
    requires t.Valid()
    ensures 2 <= w <= FRACTION_RANGE && w % 2 == 0
  {
    StepTimesResolution(t);
    Pow2(StepBits(t))
  }

  /** A table step times the table steps per degree is one degree, 1024 raw units. */
  lemma StepTimesResolution(t: Tables)
    requires t.Valid()
    ensures Pow2(StepBits(t)) * Pow2(t.resPower) == FRACTION_RANGE
    ensures 2 <= Pow2(StepBits(t)) <= FRACTION_RANGE && Pow2(StepBits(t)) % 2 == 0
  {
    Pow2Add(StepBits(t), t.resPower);
    Pow2Value22();
    Pow2Monotone(StepBits(t), FRACTIONAL_BITS);
    Pow2Monotone(1, StepBits(t));
  }

  /** Table steps in a quarter turn: `90 * (1 << p)`, i.e. 90 degrees. */
  function Quarter(t: Tables): (q: nat)
    requires t.Valid()
    ensures q + 1 == |t.quarterSineConsts| && q >= 90
  {
    90 * Pow2(t.resPower)
  }

  /** A quarter of the table spans 90 degrees: `Quarter * Step == 90 << 10`. */
  lemma QuarterTurn(t: Tables)
    requires t.Valid()
    ensures Quarter(t) * Step(t) == 90 * FRACTION_RANGE
  {
    StepTimesResolution(t);
    ScaleProduct(90, Pow2(t.resPower), Step(t));
  }

  lemma ScaleProduct(c: int, r: int, w: int)
    requires w * r == FRACTION_RANGE
    ensures (c * r) * w == c * FRACTION_RANGE
  {
    assert (c * r) * w == c * (w * r);
  }

  /** Euclidean remainder is determined by any split with a remainder in range. */
  lemma ModUnique(x: int, n: nat, q: int, r: int)
    requires n > 0 && x == q * n + r && 0 <= r < n
    ensures x % n == r
  {
    SplitUnique(x, x / n, x % n, q, r, n);
  }

  /**
   * `CosRawLookup(raw)` for a non-negative table position: reduces modulo a
   * full turn (`raw %= 360 * (1 << p)`) and reads the quadrant.
   */
  function CosRawLookup(t: Tables, raw: int): (r: Fix)
    requires t.Valid() && raw >= 0
  {
    var m := raw % (4 * Quarter(t));
    var v := t.QuarterSine(QuadrantIndex(t, m));
    if QuadrantNegated(t, m) then Neg(v) else v
  }

  /**
   * The entry a position within one turn reads: the quarter table backwards,
   * then forwards, backwards, and forwards again. It never leaves the table.
   */
  function QuadrantIndex(t: Tables, m: int): (i: nat)
    requires t.Valid() && 0 <= m < 4 * Quarter(t)
    ensures i <= Quarter(t)
    ensures m < Quarter(t) ==> i == Quarter(t) - m
    ensures Quarter(t) <= m < 2 * Quarter(t) ==> i == m - Quarter(t)
  {
    var q := Quarter(t);
    if m < q then q - m
    else if m < 2 * q then m - q
    else if m < 3 * q then q - (m - 2 * q)
    else m - 3 * q
  }

  /** The second and third quadrants negate the entry. */
  function QuadrantNegated(t: Tables, m: int): bool
    requires t.Valid() && 0 <= m < 4 * Quarter(t)
  {
    Quarter(t) <= m < 3 * Quarter(t)
  }

  /** The lookup repeats every full turn. */
  lemma LookupPeriodic(t: Tables, k: nat, j: nat)
    requires t.Valid() && j == k + 4 * Quarter(t)
    ensures CosRawLookup(t, j) == CosRawLookup(t, k)
  {
    var q := Quarter(t);
    ModUnique(j, 4 * q, k / (4 * q) + 1, k % (4 * q));
  }

  /**
   * Half a turn later the lookup gives the negated value, exactly: the
   * quadrant mirroring is consistent, whatever the table holds.
   */
  lemma LookupHalfTurn(t: Tables, k: nat)
    requires t.Valid()
    ensures CosRawLookup(t, k + 2 * Quarter(t)) == Neg(CosRawLookup(t, k))
  {
    var q := Quarter(t);
    var m := k % (4 * q);
    var m2 := HalfTurnRemainder(k, q);
    QuadrantHalfTurn(t, m, m2);
    ScalarLaws.NegWraps(t.QuarterSine(QuadrantIndex(t, m)));
  }

  /** Half a turn on, the position within the turn moves by half a turn, cyclically. */
  lemma HalfTurnRemainder(k: nat, q: nat) returns (m2: int)
    requires q > 0
    ensures m2 == (k + 2 * q) % (4 * q)
    ensures m2 == if k % (4 * q) < 2 * q then k % (4 * q) + 2 * q else k % (4 * q) - 2 * q
  {
    var n := 4 * q;
    var d, m := k / n, k % n;
    assert k == d * n + m;
    if m < 2 * q {
      m2 := m + 2 * q;
      ModUnique(k + 2 * q, n, d, m2);
    } else {
      m2 := m - 2 * q;
      assert (d + 1) * n == d * n + n;
      ModUnique(k + 2 * q, n, d + 1, m2);
    }
  }

  /** Positions half a turn apart read the same entry, with opposite signs. */
  lemma QuadrantHalfTurn(t: Tables, m: int, m2: int)
    requires t.Valid() && 0 <= m < 4 * Quarter(t)
    requires m2 == (if m < 2 * Quarter(t) then m + 2 * Quarter(t) else m - 2 * Quarter(t))
    ensures 0 <= m2 < 4 * Quarter(t)
    ensures QuadrantIndex(t, m2) == QuadrantIndex(t, m)
    ensures QuadrantNegated(t, m2) == !QuadrantNegated(t, m)
  {
  }

  /** At the start of the table: cos 0 is the last entry, the lookup at 90 degrees the negated first. */
  lemma LookupEndpoints(t: Tables)
    requires t.Valid()
    ensures CosRawLookup(t, 0) == t.QuarterSine(Quarter(t))
    ensures CosRawLookup(t, Quarter(t)) == Neg(t.QuarterSine(0))
  {
    var q := Quarter(t);
    ModUnique(0, 4 * q, 0, 0);
    ModUnique(q, 4 * q, 0, q);
  }

  /**
   * The rounded linear interpolation
   * `(v1 * (2^s - f) + v2 * f + 2^(s-1)) >> s` on `long`, cast to `int`: it
   * never leaves the interval between the two table values.
   */
  function Interpolate(v1: i32, v2: i32, f: int, s: nat): (r: i32)
    requires 1 <= s <= FRACTIONAL_BITS && 0 < f < Pow2(s)
    ensures v1 <= v2 ==> v1 <= r <= v2
    ensures v2 <= v1 ==> v2 <= r <= v1
  {
    var n := v1 * (Pow2(s) - f) + v2 * f + Pow2(s - 1);
    InterpolateShift(v1, v2, f, s, n);
    Wrap32(Shr64(n, s))
  }

  /** The interpolation sum fits a `long`, and shifting it lands between the two values. */
  lemma InterpolateShift(v1: i32, v2: i32, f: int, s: nat, n: int)
    requires 1 <= s <= FRACTIONAL_BITS && 0 < f < Pow2(s)
    requires n == v1 * (Pow2(s) - f) + v2 * f + Pow2(s - 1)
    ensures MIN64 <= n <= MAX64
    ensures v1 <= v2 ==> v1 <= Shr64(n, s) <= v2
    ensures v2 <= v1 ==> v2 <= Shr64(n, s) <= v1
  {
    var w, h := Pow2(s), Pow2(s - 1);
    assert w == 2 * h && w / 2 == h;
    assert w <= FRACTION_RANGE by {
      Pow2Monotone(s, FRACTIONAL_BITS);
      Pow2Value22();
    }
    InterpolateBounds(v1, v2, f, w, n);
    Shr64Floor(n, s);
    InterpolateQuotient(v1, v2, w, n, Shr64(n, s));
  }

  lemma InterpolateBounds(v1: i32, v2: i32, f: int, w: nat, n: int)
    requires 2 <= w <= FRACTION_RANGE && 0 < f < w && w % 2 == 0
    requires n == v1 * (w - f) + v2 * f + w / 2
    ensures v1 <= v2 ==> v1 * w + w / 2 <= n <= v2 * w + w / 2
    ensures v2 <= v1 ==> v2 * w + w / 2 <= n <= v1 * w + w / 2
    ensures MIN64 <= n <= MAX64
  {
    Distribute(v1, v2, f, w);
    if v1 <= v2 {
      MulBetween(v2 - v1, f, w);
    } else {
      MulBetween(v1 - v2, w - f, w);
    }
    ScaledRange(v1, w);
    ScaledRange(v2, w);
  }

  /** The interpolated sum, measured from either end. */
  lemma Distribute(v1: int, v2: int, f: int, w: int)
    ensures v1 * (w - f) + v2 * f == v1 * w + (v2 - v1) * f
    ensures v1 * (w - f) + v2 * f == v2 * w + (v1 - v2) * (w - f)
  {
  }

  /** An `int` times a table step stays far inside the `long` range. */
  lemma ScaledRange(v: i32, w: nat)
    requires w <= FRACTION_RANGE
    ensures MIN32 * FRACTION_RANGE <= v * w <= MAX32 * FRACTION_RANGE
  {
    if v >= 0 {
      MulBetween(v, w, FRACTION_RANGE);
      MulOrder(v, MAX32, FRACTION_RANGE);
    } else {
      var a: int := -(v as int);
      MulBetween(a, w, FRACTION_RANGE);
      MulOrder(a, TWO31, FRACTION_RANGE);
    }
  }

  lemma MulBetween(a: nat, f: nat, w: nat)
    requires f <= w
    ensures 0 <= a * f <= a * w
  {
  }

  lemma InterpolateQuotient(v1: int, v2: int, w: nat, n: int, q: int)
    requires w >= 2 && q * w <= n < (q + 1) * w
    requires v1 <= v2 ==> v1 * w + w / 2 <= n <= v2 * w + w / 2
    requires v2 <= v1 ==> v2 * w + w / 2 <= n <= v1 * w + w / 2
    ensures v1 <= v2 ==> v1 <= q <= v2
    ensures v2 <= v1 ==> v2 <= q <= v1
  {
    var lo, hi := if v1 <= v2 then v1 else v2, if v1 <= v2 then v2 else v1;
    if q < lo {
      MulOrder(q + 1, lo, w);
    }
    if q > hi {
      MulOrder(hi + 1, q, w);
    }
  }

  lemma MulOrder(a: int, b: int, w: nat)
    requires a <= b
    ensures a * w <= b * w
  {
  }

  /** `|raw|`, which is what `CosRaw` starts from; `-int.MinValue` would wrap. */
  function AbsRaw(raw: i32): (a: nat)
    requires raw != MIN32
    ensures a == Machine.Abs(raw)
  {
    if raw < 0 then Wrap32(-(raw as int)) else raw
  }

  /** The table position of a magnitude `a`: `a >> (10 - p)`. */
  function Position(t: Tables, a: nat): (k: nat)
    requires t.Valid() && a <= MAX32
  {
    assert StepBits(t) % 32 == StepBits(t);
    Shr32(a, StepBits(t))
  }

  /** The offset from that position: `a & ((1 << (10 - p)) - 1)`. */
  function Offset(t: Tables, a: nat): (f: int)
    requires t.Valid() && a <= MAX32
  {
    a % Step(t)
  }

  /** Position and offset split a magnitude into whole table steps and a remainder. */
  lemma PositionSplits(t: Tables, a: nat)
    requires t.Valid() && a <= MAX32
    ensures 0 <= Offset(t, a) < Step(t)
    ensures a == Position(t, a) * Step(t) + Offset(t, a)
  {
    assert StepBits(t) % 32 == StepBits(t);
    assert Position(t, a) == a / Step(t);
  }

  /**
   * The part of `CosRaw` after `raw = raw < 0 ? -raw : raw`: on a table
   * point the cosine is the lookup there; between points it lies between
   * the two neighbouring lookups.
   */
  function CosOfMagnitude(t: Tables, a: nat): (r: Fix)
    requires t.Valid() && a <= MAX32
    ensures Offset(t, a) == 0 ==> r == CosRawLookup(t, Position(t, a))
    ensures var v1, v2 := CosRawLookup(t, Position(t, a)).raw, CosRawLookup(t, Position(t, a) + 1).raw;
      (v1 <= v2 ==> v1 <= r.raw <= v2) && (v2 <= v1 ==> v2 <= r.raw <= v1)
  {
    PositionSplits(t, a);
    var k := Position(t, a);
    var f := Offset(t, a);
    if f == 0 then CosRawLookup(t, k)
    else
      Fix(Interpolate(CosRawLookup(t, k).raw, CosRawLookup(t, k + 1).raw, f, StepBits(t)))
  }

  /**
   * `CosRaw(raw)`: `raw` is an angle in raw degrees, read at its magnitude
   * (the cosine is even). On a table point it is the lookup there; between
   * points it lies between the two neighbouring lookups. `raw ==
   * int.MinValue` is excluded: `-raw` wraps to a negative index there,
   * which would read outside the table.
   */
  function CosRaw(t: Tables, raw: i32): (r: Fix)
    requires t.Valid() && raw != MIN32
    ensures var k := Position(t, AbsRaw(raw));
      Offset(t, AbsRaw(raw)) == 0 ==> r == CosRawLookup(t, k)
    ensures var k := Position(t, AbsRaw(raw));
      var v1, v2 := CosRawLookup(t, k).raw, CosRawLookup(t, k + 1).raw;
      (v1 <= v2 ==> v1 <= r.raw <= v2) && (v2 <= v1 ==> v2 <= r.raw <= v1)
  {
    CosOfMagnitude(t, AbsRaw(raw))
  }

  /** `Cos(degrees)` reads the wave at `degrees.Raw`. */
  function Cos(t: Tables, degrees: Fix): (r: Fix)
    requires t.Valid() && degrees.raw != MIN32
    ensures var a := AbsRaw(degrees.raw);
      Offset(t, a) == 0 ==> r == CosRawLookup(t, Position(t, a))
    ensures var k := Position(t, AbsRaw(degrees.raw));
      var v1, v2 := CosRawLookup(t, k).raw, CosRawLookup(t, k + 1).raw;
      (v1 <= v2 ==> v1 <= r.raw <= v2) && (v2 <= v1 ==> v2 <= r.raw <= v1)
  {
    CosRaw(t, degrees.raw)
  }

  /** The raw argument `Sin` hands to `CosRaw`: `degrees.Raw - (90 << 10)`, wrapping. */
  function SinArgument(degrees: Fix): i32 {
    Wrap32(degrees.raw - 90 * FRACTION_RANGE)
  }

  /** `Sin(degrees)` is the cosine a quarter turn earlier. */
  function Sin(t: Tables, degrees: Fix): (r: Fix)
    requires t.Valid() && SinArgument(degrees) != MIN32
    ensures degrees.raw >= MIN32 + 90 * FRACTION_RANGE + 1 ==>
      r == Cos(t, Sub(degrees, FromInt(90)))
    ensures var a := AbsRaw(SinArgument(degrees));
      Offset(t, a) == 0 ==> r == CosRawLookup(t, Position(t, a))
    ensures var k := Position(t, AbsRaw(SinArgument(degrees)));
      var v1, v2 := CosRawLookup(t, k).raw, CosRawLookup(t, k + 1).raw;
      (v1 <= v2 ==> v1 <= r.raw <= v2) && (v2 <= v1 ==> v2 <= r.raw <= v1)
  {
    CosRaw(t, SinArgument(degrees))
  }

  /**
   * The angles whose cosine and sine both stay inside the table: neither
   * raw argument handed to `CosRaw` is `int.MinValue`.
   */
  predicate TrigDefined(degrees: Fix) {
    degrees.raw != MIN32 && SinArgument(degrees) != MIN32
  }

  /** Tables whose quarter-sine ends are exactly sin 0 == 0 and sin 90 == 1. */
  predicate ExactEndpoints(t: Tables)
    requires t.Valid()
  {
    t.QuarterSine(0) == Zero && t.QuarterSine(Quarter(t)) == One
  }

  /** `Tan(degrees)`: sine over cosine; a zero cosine raises divide-by-zero. */
  function Tan(t: Tables, degrees: Fix): (r: Result<Fix>)
    requires t.Valid() && degrees.raw != MIN32 && SinArgument(degrees) != MIN32
    ensures r.Err? <==> Cos(t, degrees).raw == 0
    ensures r.Ok? ==> r == Div(Sin(t, degrees), Cos(t, degrees))
  {
    Div(Sin(t, degrees), Cos(t, degrees))
  }

  /** The cosine is even: `Cos(-d) == Cos(d)`. */
  lemma CosEven(t: Tables, d: Fix)
    requires t.Valid() && d.raw != MIN32
    ensures Neg(d).raw != MIN32
    ensures Cos(t, Neg(d)) == Cos(t, d)
  {
    assert AbsRaw(Neg(d).raw) == AbsRaw(d.raw);
  }

  /** The cosine has period 360 degrees on the non-negative angles. */
  lemma CosPeriodic(t: Tables, d: Fix)
    requires t.Valid() && 0 <= d.raw <= MAX32 - 360 * FRACTION_RANGE
    ensures Add(d, FromInt(360)).raw == d.raw + 360 * FRACTION_RANGE
    ensures Cos(t, Add(d, FromInt(360))) == Cos(t, d)
  {
    var e := Add(d, FromInt(360));
    assert e.raw == d.raw + 360 * FRACTION_RANGE;
    CosMagnitudePeriodic(t, d.raw, e.raw);
  }

  /** The cosine of magnitudes a full turn apart. */
  lemma CosMagnitudePeriodic(t: Tables, a: nat, b: nat)
    requires t.Valid() && b == a + 360 * FRACTION_RANGE <= MAX32
    ensures CosOfMagnitude(t, b) == CosOfMagnitude(t, a)
  {
    NeighboursShift(t, a, b);
    CosSameSplit(t, a, b);
  }

  /** A full turn on, the offset and both neighbouring lookups are the same. */
  lemma NeighboursShift(t: Tables, a: nat, b: nat)
    requires t.Valid() && b == a + 360 * FRACTION_RANGE <= MAX32
    ensures Offset(t, a) == Offset(t, b)
    ensures CosRawLookup(t, Position(t, a)) == CosRawLookup(t, Position(t, b))
    ensures CosRawLookup(t, Position(t, a) + 1) == CosRawLookup(t, Position(t, b) + 1)
  {
    PositionShift(t, a, b);
    NeighbourLookupsPeriodic(t, Position(t, a), Position(t, b));
  }

  /** Both neighbouring lookups repeat a full turn of the table on. */
  lemma NeighbourLookupsPeriodic(t: Tables, ka: nat, kb: nat)
    requires t.Valid() && kb == ka + 4 * Quarter(t)
    ensures CosRawLookup(t, ka) == CosRawLookup(t, kb)
    ensures CosRawLookup(t, ka + 1) == CosRawLookup(t, kb + 1)
  {
    LookupPeriodic(t, ka, kb);
    LookupPeriodic(t, ka + 1, kb + 1);
  }

  /** Two magnitudes with the same offset and the same neighbouring lookups have the same cosine. */
  lemma CosSameSplit(t: Tables, a: nat, b: nat)
    requires t.Valid() && a <= MAX32 && b <= MAX32
    requires Offset(t, a) == Offset(t, b)
    requires CosRawLookup(t, Position(t, a)) == CosRawLookup(t, Position(t, b))
    requires CosRawLookup(t, Position(t, a) + 1) == CosRawLookup(t, Position(t, b) + 1)
    ensures CosOfMagnitude(t, a) == CosOfMagnitude(t, b)
  {
  }

  /** A full turn more moves the position by a full turn of the table and keeps the offset. */
  lemma PositionShift(t: Tables, a: nat, b: nat)
    requires t.Valid() && b == a + 360 * FRACTION_RANGE <= MAX32
    ensures Position(t, b) == Position(t, a) + 4 * Quarter(t)
    ensures Offset(t, b) == Offset(t, a)
  {
    QuarterTurn(t);
    PositionSplits(t, a);
    PositionSplits(t, b);
    TurnSplit(a, b, Position(t, a), Offset(t, a), Position(t, b), Offset(t, b), Quarter(t), Step(t));
  }

  /** Splitting a full turn further on into steps of width w, q steps per quarter. */
  lemma TurnSplit(a: int, b: int, ka: int, fa: int, kb: int, fb: int, q: int, w: nat)
    requires q * w == 90 * FRACTION_RANGE && b == a + 360 * FRACTION_RANGE
    requires a == ka * w + fa && 0 <= fa < w
    requires b == kb * w + fb && 0 <= fb < w
    ensures kb == ka + 4 * q && fb == fa
  {
    assert (4 * q) * w == 4 * (q * w);
    ReSplit(b, a, ka, fa, 4 * q, w);
    SplitUnique(b, kb, fb, ka + 4 * q, fa, w);
  }

  lemma ReSplit(a: int, b: int, k: int, f: int, n: int, w: int)
    requires b == k * w + f && a == b + n * w
    ensures a == (k + n) * w + f
  {
  }

  /** A split into whole steps and an offset below one step is unique. */
  lemma SplitUnique(a: int, k1: int, f1: int, k2: int, f2: int, w: nat)
    requires a == k1 * w + f1 && a == k2 * w + f2
    requires 0 <= f1 < w && 0 <= f2 < w
    ensures k1 == k2 && f1 == f2
  {
    if k1 < k2 {
      MulOrder(k1 + 1, k2, w);
    } else if k2 < k1 {
      MulOrder(k2 + 1, k1, w);
    }
  }

  /**
   * At zero: `Cos(0)` is the last table entry and `Sin(0)` the negated
   * first; with the table ends at 0 and 1 they are exactly 1 and 0.
   */
  lemma TrigAtZero(t: Tables)
    requires t.Valid()
    ensures Cos(t, Zero) == t.QuarterSine(Quarter(t))
    ensures Sin(t, Zero) == Neg(t.QuarterSine(0))
    ensures t.QuarterSine(0) == Zero && t.QuarterSine(Quarter(t)) == One ==>
      Cos(t, Zero) == One && Sin(t, Zero) == Zero
  {
    var w := Step(t);
    var a := 90 * FRACTION_RANGE;
    QuarterTurn(t);
    assert AbsRaw(SinArgument(Zero)) == a;
    PositionSplits(t, a);
    PositionSplits(t, 0);
    SplitUnique(a, Position(t, a), Offset(t, a), Quarter(t), 0, w);
    SplitUnique(0, Position(t, 0), Offset(t, 0), 0, 0, w);
    LookupEndpoints(t);
  }
}
