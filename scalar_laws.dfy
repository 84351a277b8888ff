/**
 * Laws of the `Fix` operators: the raw round trip, the wrap-around group
 * laws of addition and negation, exactness of multiplication and division
 * on the cases the library relies on, `Mix`/`Ratio` examples, and what the
 * decimal rendering denotes.
 */
module ScalarLaws {
  import opened Machine
  import opened Decimal
  import opened Scalar

  /** Equality of `Fix` values is equality of their raw values. */
  lemma RawIdentity(a: Fix, b: Fix)
    ensures a == b <==> a.raw == b.raw
  {
  }

  /** Negation wraps: `-MinValue == MinValue`; it is still an involution. */
  lemma NegWraps(a: Fix)
    ensures Neg(MinValue) == MinValue
    ensures Neg(Neg(a)) == a
  {
    Wrap32Neg(-(a.raw as int));
  }

  lemma AddCommutative(a: Fix, b: Fix)
    ensures Add(a, b) == Add(b, a)
  {
  }

  lemma AddAssociative(a: Fix, b: Fix, c: Fix)
    ensures Add(Add(a, b), c) == Add(a, Add(b, c))
  {
    Wrap32Associative(a.raw, b.raw, c.raw);
  }

  /** Subtraction is addition of the negation, wrap-around included. */
  lemma SubIsAddNeg(a: Fix, b: Fix)
    ensures Sub(a, b) == Add(a, Neg(b))
  {
    Wrap32AddRight(a.raw, -(b.raw as int));
  }

  lemma MulCommutative(a: Fix, b: Fix)
    ensures Mul(a, b) == Mul(b, a)
  {
    assert a.raw * b.raw == b.raw * a.raw;
  }

  /** `One * x == x`, `x * One == x` and `0 * x == 0`, exactly. */
  lemma MulIdentities(x: Fix)
    ensures Mul(One, x) == x && Mul(x, One) == x
    ensures Mul(Zero, x) == Zero && Mul(x, Zero) == Zero
  {
    assert (FRACTION_RANGE * x.raw + 512) / FRACTION_RANGE == x.raw;
    assert (x.raw * FRACTION_RANGE + 512) / FRACTION_RANGE == x.raw;
  }

  /** The products with One and Zero and the sums with Zero that identity matrix entries cause. */
  lemma EntryIdentities(x: Fix)
    ensures Mul(One, x) == x && Mul(x, One) == x
    ensures Mul(Zero, x) == Zero && Mul(x, Zero) == Zero
    ensures Add(x, Zero) == x && Add(Zero, x) == x
  {
    MulIdentities(x);
  }

  /** `Fix(a) * Fix(b) == Fix(a * b)` whenever the product fits the integer range. */
  lemma MulIntegers(a: i32, b: i32)
    requires MIN_INTEGER <= a <= MAX_INTEGER && MIN_INTEGER <= b <= MAX_INTEGER
    requires MIN_INTEGER <= a * b <= MAX_INTEGER
    ensures Mul(FromInt(a), FromInt(b)) == FromInt(a * b)
  {
    var p := (a * FRACTION_RANGE) * (b * FRACTION_RANGE);
    assert p == (a * b * FRACTION_RANGE) * FRACTION_RANGE;
    assert (p + 512) / FRACTION_RANGE == a * b * FRACTION_RANGE;
  }

  /** `x / One == x` exactly; a zero denominator faults. */
  lemma DivIdentities(x: Fix)
    ensures Div(x, One) == Ok(x)
    ensures Div(x, Zero) == Err(DivideByZero)
  {
    var a := x.raw * 2048;
    assert TruncDiv(a, FRACTION_RANGE) == 2 * x.raw by {
      if a >= 0 {
        assert a / FRACTION_RANGE == 2 * x.raw;
      } else {
        assert Abs(a) / FRACTION_RANGE == -2 * x.raw;
      }
    }
    assert (2 * x.raw + 1) / 2 == x.raw;
  }

  /** `Ratio(n, d)` is the division of the raw values `n` and `d`. */
  lemma RatioIsDivision(n: i32, d: i32)
    ensures Ratio(n, d) == Div(Fix(n), Fix(d))
  {
  }

  /** `Ratio(1, 2)` has raw 512: one half, rounded to nearest. */
  lemma RatioHalf()
    ensures Ratio(1, 2) == Ok(Fix(512))
  {
    assert TruncDiv(2048, 2) == 1024;
  }

  /** `Mix(1, 1, 2)` has raw 1536 (1.5); with a negative integer part the fraction is negated. */
  lemma MixExamples()
    ensures Mix(1, 1, 2) == Ok(Fix(1536))
    ensures Mix(-1, 1, 2) == Ok(Fix(-1536))
  {
    assert FRACTION_RANGE * 1 / 2 == 512;
    MixValue(1, 1, 2);
    MixValue(-1, 1, 2);
  }

  /** A ratio of one or more loses its whole part: `Mix(0, 3, 2)` is 0.5. */
  lemma MixDropsWholePart()
    ensures Mix(0, 3, 2) == Ok(Fix(512))
  {
    assert TruncDiv(3072, 2) == 1536;
    assert Wrap32(1536) % FRACTION_RANGE == 512;
    assert Shl32(0, 10) == 0;
  }

  /**
   * For a proper fraction num/den and an integer part that fits, `Mix` is
   * integer + num/den truncated to 1/1024, the fraction taking the sign of
   * `integer`.
   */
  lemma MixValue(integer: i32, num: i32, den: i32)
    requires MIN_INTEGER < integer <= MAX_INTEGER
    requires 0 <= num < den
    ensures Mix(integer, num, den).Ok?
    ensures var f := FRACTION_RANGE * num / den;
      0 <= f < FRACTION_RANGE &&
      Mix(integer, num, den).value.raw == integer * FRACTION_RANGE + (if integer < 0 then -f else f)
  {
    var f := FRACTION_RANGE * num / den;
    ProperFraction(num, den);
    assert TruncDiv(FRACTION_RANGE * num, den) == f;
    var fraction := Wrap32(f) % FRACTION_RANGE;
    assert fraction == f;
    var signed := if integer < 0 then -f else f;
    var hi := Shl32(integer, 10);
    assert hi == integer * FRACTION_RANGE;
    assert MIN32 <= hi + signed <= MAX32;
  }

  /** num/den scaled by 1024 and truncated stays below 1024 for a proper fraction. */
  lemma ProperFraction(num: int, den: int)
    requires 0 <= num < den
    ensures 0 <= FRACTION_RANGE * num / den < FRACTION_RANGE
  {
    var f := FRACTION_RANGE * num / den;
    assert f * den <= FRACTION_RANGE * num;
    assert FRACTION_RANGE * num < FRACTION_RANGE * den;
  }

  /** The integer conversion undoes the conversion from an integer. */
  lemma ToIntFromInt(v: i32)
    requires MIN_INTEGER <= v <= MAX_INTEGER
    ensures ToInt(FromInt(v)) == v
  {
    var a := v * FRACTION_RANGE;
    if a < 0 {
      assert Abs(a) / FRACTION_RANGE == -v;
    }
  }

  /** The rendering starts with "-" exactly when raw is negative. */
  lemma ToStringSign(v: Fix)
    ensures |ToString(v)| >= 1
    ensures ToString(v)[0] == '-' <==> v.raw < 0
  {
    var w := WholeText(v);
    assert IsDigit(w[0]);
  }

  /**
   * The whole-number digits read back as |(int)v|, and together with the
   * fraction bits of |v| they make up |raw| exactly.
   */
  lemma WholeTextDenotes(v: Fix)
    ensures AllDigits(WholeText(v))
    ensures DigitsValue(WholeText(v)) == Abs(ToInt(v))
    ensures Abs(ToInt(v)) * FRACTION_RANGE + AbsFractionBits(v) == Abs(v.raw) ||
            (AbsFractionBits(v) == FRACTION_RANGE && Abs(ToInt(v)) * FRACTION_RANGE == Abs(v.raw))
  {
    NatToStringValue(Abs(ToInt(v)));
    WholeAndFraction(v.raw, ToInt(v), AbsFractionBits(v));
  }

  lemma WholeAndFraction(r: int, q: int, f: int)
    requires q == TruncDiv(r, FRACTION_RANGE)
    requires f == if r < 0 then FRACTION_RANGE - r % FRACTION_RANGE else r % FRACTION_RANGE
    ensures Abs(q) * FRACTION_RANGE + f == Abs(r) || (f == FRACTION_RANGE && Abs(q) * FRACTION_RANGE == Abs(r))
  {
    assert r >= 0 ==> 0 <= r - q * FRACTION_RANGE < FRACTION_RANGE;
    assert r < 0 ==> -FRACTION_RANGE < r - q * FRACTION_RANGE <= 0;
  }

  /**
   * The six fraction digits are |v|'s fraction rounded half up; for a value
   * with a fraction they lie in [977, 999023], so they never carry into the
   * integer part.
   */
  lemma ScaledFractionRounds(v: Fix)
    requires v.raw % FRACTION_RANGE != 0
    ensures 977 <= ScaledFraction(v) <= 999023
    ensures var f, s := AbsFractionBits(v), ScaledFraction(v);
      s * FRACTION_RANGE - 512 <= f * 1000000 < s * FRACTION_RANGE + 512
  {
    var f := AbsFractionBits(v);
    assert 1 <= f <= 1023;
    assert (1 * 1000000 + 512) / FRACTION_RANGE == 977;
    assert (1023 * 1000000 + 512) / FRACTION_RANGE == 999023;
    MonotoneScale(1, f);
    MonotoneScale(f, 1023);
  }

  lemma MonotoneScale(a: int, b: int)
    requires 0 <= a <= b
    ensures (a * 1000000 + 512) / FRACTION_RANGE <= (b * 1000000 + 512) / FRACTION_RANGE
  {
  }

  /**
   * A value with a fraction renders "." and then one to six digits, the
   * last of them not '0', that read back (scaled to six places) as the
   * rounded fraction; a value without one renders nothing after the digits.
   */
  lemma FractionTextDenotes(v: Fix)
    ensures v.raw % FRACTION_RANGE == 0 <==> FractionText(v) == ""
    ensures v.raw % FRACTION_RANGE != 0 ==>
      var t := FractionText(v)[1..];
      FractionText(v)[0] == '.' && 1 <= |t| <= 6 && t[|t| - 1] != '0' &&
      AllDigits(t) && DigitsValue(t) * Pow10(6 - |t|) == ScaledFraction(v)
  {
    if v.raw % FRACTION_RANGE != 0 {
      ScaledFractionRounds(v);
      var s := ScaledFraction(v);
      assert Pow10(6) == 1000000;
      NatToStringLength(s, 6);
      var d := PadDigits(s, 6);
      assert |d| == 6;
      var t := TrimEndZeros(d);
      assert FractionText(v)[1..] == t;
      TrimEndZerosValue(d);
      PadDigitsValue(s, 6);
    }
  }
}
