/**
 * `FixConst`: a Q32.32 fixed-point number held in one 64-bit `long`
 * (`raw`), whose value is raw / 2^32. The library keeps its constants and
 * tables in this format and narrows them to `Fix`, rounding half up.
 */
module HighPrecision {
  import opened Machine
  import opened Decimal
  import Scalar

  datatype FixConst = FixConst(raw: i64)

  /** The weight of one `Fix` ulp in `FixConst` raw units: 2^(32-10). */
  const FIX_ULP: int := 0x40_0000
  const HALF_FIX_ULP: int := 0x20_0000

  // ----- narrowing to Fix -----

  /**
   * `implicit operator Fix(FixConst)`: `(int)((raw + 2^21) >> 22)`. Inside
   * the range where the result fits an `int`, it is the nearest `Fix`,
   * halves upward.
   */
  function ToFix(c: FixConst): (f: Scalar.Fix)
    ensures MIN32 * FIX_ULP - HALF_FIX_ULP <= c.raw < TWO31 * FIX_ULP - HALF_FIX_ULP ==>
      f.raw * FIX_ULP - HALF_FIX_ULP <= c.raw < f.raw * FIX_ULP + HALF_FIX_ULP
  {
    var r := Shr64(Wrap64(c.raw + HALF_FIX_ULP), 22);
    NarrowRounds(c.raw, r);
    Scalar.Fix(Wrap32(r))
  }

  /** The shifted raw is the nearest `Fix` raw, when it fits an `int`. */
  lemma NarrowRounds(x: i64, r: i64)
    requires r == Shr64(Wrap64(x + HALF_FIX_ULP), 22)
    ensures MIN32 * FIX_ULP - HALF_FIX_ULP <= x < TWO31 * FIX_ULP - HALF_FIX_ULP ==>
      MIN32 <= r <= MAX32 && r * FIX_ULP - HALF_FIX_ULP <= x < r * FIX_ULP + HALF_FIX_ULP
  {
    var y := x + HALF_FIX_ULP;
    if MIN32 * FIX_ULP - HALF_FIX_ULP <= x < TWO31 * FIX_ULP - HALF_FIX_ULP {
      assert Wrap64(y) == y;
      Shr64Floor(y, 22);
      Pow2Value22();
      QuotientRange(y, r);
    }
  }

  /** The floor quotient by 2^22 of a value in [-2^53, 2^53) fits an `int`. */
  lemma QuotientRange(y: int, r: int)
    requires r * FIX_ULP <= y < (r + 1) * FIX_ULP
    requires MIN32 * FIX_ULP <= y < TWO31 * FIX_ULP
    ensures MIN32 <= r <= MAX32
  {
    if r < MIN32 {
      MulLeft(MIN32, r + 1, FIX_ULP);
    } else if r > MAX32 {
      MulLeft(r, TWO31, FIX_ULP);
    }
  }

  /** A raw that is a whole number of `Fix` ulps narrows exactly. */
  lemma NarrowExact(k: i32)
    ensures ToFix(FixConst(k * FIX_ULP)).raw == k
  {
    var x := k * FIX_ULP;
    var r := Shr64(Wrap64(x + HALF_FIX_ULP), 22);
    NarrowRounds(x, r);
    NearestMultiple(k, r);
  }

  lemma NearestMultiple(k: int, r: int)
    requires r * FIX_ULP - HALF_FIX_ULP <= k * FIX_ULP < r * FIX_ULP + HALF_FIX_ULP
    ensures r == k
  {
    assert (r - k) * FIX_ULP < HALF_FIX_ULP;
    assert (k - r) * FIX_ULP <= HALF_FIX_ULP;
  }

  // ----- conversion to int -----

  /**
   * `explicit operator int(FixConst)`: `raw >> 32` for a positive raw and
   * `(raw + uint.MaxValue) >> 32` otherwise, i.e. truncation toward zero.
   */
  function ToInt(c: FixConst): (r: i32)
    ensures r == TruncDiv(c.raw, TWO32)
  {
    ShiftedWhole(c.raw);
    Wrap32(if c.raw > 0 then Shr64(c.raw, 32) else Shr64(c.raw + (TWO32 - 1), 32))
  }

  lemma ShiftedWhole(x: i64)
    ensures var q := if x > 0 then Shr64(x, 32) else Shr64(x + (TWO32 - 1), 32);
      q == TruncDiv(x, TWO32) && MIN32 <= q <= MAX32
  {
    Pow2Value32();
    var q := if x > 0 then Shr64(x, 32) else Shr64(x + (TWO32 - 1), 32);
    if x > 0 { Shr64Floor(x, 32); } else { Shr64Floor(x + (TWO32 - 1), 32); }
    ShiftTruncates(x, TWO32, q);
  }

  // ----- conversion from int -----

  /**
   * `implicit operator FixConst(int)` as written: `value << 32` is a shift
   * of an `int`, whose count C# masks to 32 & 31 == 0, so the raw value is
   * the integer itself rather than the integer times 2^32.
   */
  function FromIntAsWritten(v: i32): (c: FixConst)
    ensures c.raw == v
  {
    assert Pow2(32 % 32) == 1;
    FixConst(Shl32(v, 32))
  }

  /** The conversion as written turns 1 into 2^-32, which truncates to 0. */
  lemma FromIntAsWrittenLosesValue()
    ensures ToInt(FromIntAsWritten(1)) == 0
    ensures TruncDiv(FromIntAsWritten(1).raw, TWO32) != 1
  {
  }

  /** The conversion as intended: `(long)value << 32`. */
  function FromInt(v: i32): (c: FixConst)
    ensures c.raw == v * TWO32
  {
    FixConst(v * TWO32)
  }

  /** The intended conversion is undone by `(int)` and agrees with Fix's own conversion. */
  lemma FromIntRoundTrip(v: i32)
    ensures ToInt(FromInt(v)) == v
    ensures Scalar.MIN_INTEGER <= v <= Scalar.MAX_INTEGER ==> ToFix(FromInt(v)) == Scalar.FromInt(v)
  {
    var c := FromInt(v);
    if c.raw < 0 {
      assert Abs(c.raw) == (-(v as int)) * TWO32;
    } else {
      assert Abs(c.raw) == v * TWO32;
    }
    assert c.raw == (v * Scalar.FRACTION_RANGE) * FIX_ULP;
    if Scalar.MIN_INTEGER <= v <= Scalar.MAX_INTEGER {
      NarrowExact(v * Scalar.FRACTION_RANGE);
    }
  }

  // ----- comparisons and negation -----

  predicate Less(a: FixConst, b: FixConst) { a.raw < b.raw }
  predicate LessEq(a: FixConst, b: FixConst) { a.raw <= b.raw }
  predicate Greater(a: FixConst, b: FixConst) { a.raw > b.raw }
  predicate GreaterEq(a: FixConst, b: FixConst) { a.raw >= b.raw }

  /** Unary minus: `-raw` on a `long`, wrapping at `long.MinValue`. */
  function Neg(c: FixConst): (r: FixConst)
    ensures c.raw != MIN64 ==> r.raw == -c.raw
  {
    FixConst(Wrap64(-(c.raw as int)))
  }

  /** Negation is the raw negation modulo 2^64. */
  lemma NegWraps(c: FixConst)
    ensures (Neg(c).raw + c.raw) % TWO64 == 0
  {
    Wrap64Mod(-(c.raw as int));
  }

  /**
   * Negation reverses the order and commutes with `(int)`, because the
   * conversion truncates toward zero; only `long.MinValue` is its own
   * negation.
   */
  lemma NegLaws(a: FixConst, b: FixConst)
    requires a.raw != MIN64 && b.raw != MIN64
    ensures Less(a, b) <==> Less(Neg(b), Neg(a))
    ensures Neg(Neg(a)) == a
    ensures ToInt(Neg(a)) == -ToInt(a)
    ensures Neg(FixConst(MIN64)) == FixConst(MIN64)
  {
    NegToInt(a);
    NegMin();
  }

  lemma NegMin()
    ensures Neg(FixConst(MIN64)) == FixConst(MIN64)
  {
    assert Wrap64(-(MIN64 as int)) == MIN64;
  }

  lemma NegToInt(a: FixConst)
    requires a.raw != MIN64
    ensures ToInt(Neg(a)) == -ToInt(a)
  {
    TruncDivNeg(a.raw, TWO32);
  }

  // ----- the range check of the double conversion -----

  /**
   * The guard of `implicit operator FixConst(double)`: values outside
   * [int.MinValue, int.MaxValue + 1) raise `OverflowException`.
   */
  function CheckRange(value: real): (r: Outcome)
    ensures r == Pass ==> MIN32 <= value.Floor <= MAX32
    ensures r != Pass ==> r == Fail(Overflow) && (value.Floor < MIN32 || value.Floor > MAX32)
  {
    if value < MIN32 as real || value >= (MAX32 + 1) as real then Fail(Overflow) else Pass
  }

  // ----- text -----

  /** The fraction bits of |value|: `2^32 - (raw & uint.MaxValue)` when negative. */
  function AbsFractionBits(c: FixConst): (f: int)
    ensures 0 <= f <= TWO32
    ensures (f == 0 || f == TWO32) <==> c.raw % TWO32 == 0
  {
    var bits := c.raw % TWO32;
    if c.raw < 0 then TWO32 - bits else bits
  }

  /** |raw| splits into the truncated integer part and the fraction bits of |value|. */
  lemma AbsSplits(c: FixConst)
    ensures c.raw % TWO32 != 0 ==> Abs(c.raw) == Abs(ToInt(c)) * TWO32 + AbsFractionBits(c)
    ensures c.raw % TWO32 == 0 ==> Abs(c.raw) == Abs(ToInt(c)) * TWO32
  {
    var q := ToInt(c);
    var rem := c.raw - q * TWO32;
    if c.raw >= 0 {
      assert 0 <= rem < TWO32;
      ModUnique32(c.raw, q, rem);
    } else {
      assert -TWO32 < rem <= 0;
      if rem == 0 {
        ModUnique32(c.raw, q, 0);
      } else {
        ModUnique32(c.raw, q - 1, TWO32 + rem);
      }
    }
  }

  /** Euclidean division by 2^32 is unique. */
  lemma ModUnique32(x: int, q: int, r: int)
    requires x == q * TWO32 + r && 0 <= r < TWO32
    ensures x % TWO32 == r
  {
  }

  /**
   * `(fraction * 1000000000 + 2^31) >> 32` on `ulong`: nine decimal digits,
   * half up. The product stays below 2^62, so it never wraps.
   */
  function ScaledFraction(c: FixConst): nat
  {
    (AbsFractionBits(c) * 1_000_000_000 + TWO31) / TWO32
  }

  /**
   * The scaled fraction is the fraction rounded half up to nine places; it
   * reaches 10^9, a carry into the integer part, exactly for the two largest
   * fractions 1 - 2^-31 and 1 - 2^-32.
   */
  lemma ScaledFractionRounds(c: FixConst)
    requires c.raw % TWO32 != 0
    ensures ScaledFraction(c) <= 1_000_000_000
    ensures ScaledFraction(c) == 1_000_000_000 <==> AbsFractionBits(c) >= TWO32 - 2
    ensures var f, s := AbsFractionBits(c), ScaledFraction(c);
      s * TWO32 - TWO31 <= f * 1_000_000_000 < s * TWO32 + TWO31
  {
    var f := AbsFractionBits(c);
    var x := f * 1_000_000_000 + TWO31;
    var q := x / TWO32;
    assert q * TWO32 <= x < q * TWO32 + TWO32;
    assert x < (1_000_000_000 + 1) * TWO32;
    if f >= TWO32 - 2 {
      assert x >= 1_000_000_000 * TWO32;
    } else {
      assert x < 1_000_000_000 * TWO32;
    }
  }

  function SignText(c: FixConst): string {
    if c.raw < 0 then "-" else ""
  }

  /** `long abs = (int)this`, made non-negative. */
  function WholeText(c: FixConst): string {
    NatToString(Abs(ToInt(c)))
  }

  function FractionText(c: FixConst): string {
    if c.raw % TWO32 == 0 then ""
    else "." + TrimEndZeros(PadDigits(ScaledFraction(c), 9))
  }

  /**
   * `ToString()` as written, with the invariant culture's "-" and ".": the
   * nine-digit fraction is printed without looking for a carry, so a
   * rounded fraction of 10^9 prints as ".1".
   */
  function ToStringAsWritten(c: FixConst): string {
    SignText(c) + WholeText(c) + FractionText(c)
  }

  /** (2^32 - 1) / 2^32, just below one, renders as "0.1". */
  lemma ToStringAsWrittenDropsCarry()
    ensures ScaledFraction(FixConst(TWO32 - 1)) == 1_000_000_000
    ensures ToStringAsWritten(FixConst(TWO32 - 1)) == "0.1"
  {
    AlmostOneParts();
    NatToStringTenDigits();
    assert PadDigits(1_000_000_000, 9) == "1000000000";
    TrimEndLeavesOne();
  }

  /** The whole part of (2^32 - 1) / 2^32 is 0 and its fraction rounds up to 10^9. */
  lemma AlmostOneParts()
    ensures WholeText(FixConst(TWO32 - 1)) == "0"
    ensures ScaledFraction(FixConst(TWO32 - 1)) == 1_000_000_000
  {
    var c := FixConst(TWO32 - 1);
    Pow2Value32();
    assert ToInt(c) == 0;
  }

  lemma NatToStringTenDigits()
    ensures NatToString(1_000_000_000) == "1000000000"
  {
    assert NatToString(1) == "1";
    assert NatToString(10) == "10";
    assert NatToString(100) == "100";
    assert NatToString(1000) == "1000";
    assert NatToString(10000) == "10000";
    assert NatToString(100000) == "100000";
    assert NatToString(1000000) == "1000000";
    assert NatToString(10000000) == "10000000";
    assert NatToString(100000000) == "100000000";
  }

  lemma TrimEndLeavesOne()
    ensures TrimEndZeros("1000000000") == "1"
  {
    var s := "1000000000";
    var k := 9;
    while k > 0
      invariant 0 <= k <= 9
      invariant TrimEndZeros(s[..k + 1]) == TrimEndZeros(s)
    {
      assert s[..k + 1][..k] == s[..k];
      k := k - 1;
    }
    assert s[..1] == "1";
  }

  /** Whether the rounded nine-digit fraction carries into the integer part. */
  predicate Carries(c: FixConst) {
    c.raw % TWO32 != 0 && ScaledFraction(c) == 1_000_000_000
  }

  /** The integer digits of the corrected rendering, a carry included. */
  function RoundedWholeText(c: FixConst): string {
    NatToString(Abs(ToInt(c)) + if Carries(c) then 1 else 0)
  }

  /** The fraction of the corrected rendering: omitted when it carried. */
  function RoundedFractionText(c: FixConst): string {
    if Carries(c) then "" else FractionText(c)
  }

  /** `ToString()` as evidently intended: a carry moves into the integer part. */
  function ToString(c: FixConst): string {
    SignText(c) + RoundedWholeText(c) + RoundedFractionText(c)
  }

  /**
   * The corrected rendering denotes |value| rounded half up to nine decimal
   * places: reading the integer digits and the fraction digits back gives N
   * with |raw|·10^9 within half a 2^32 step of N·2^32. The sign is "-"
   * exactly for a negative raw, and the fraction digits never end in '0'.
   */
  lemma ToStringRounds(c: FixConst)
    ensures ToString(c) == SignText(c) + RoundedWholeText(c) + RoundedFractionText(c)
    ensures SignText(c) == (if c.raw < 0 then "-" else "")
    ensures AllDigits(RoundedWholeText(c)) && |RoundedWholeText(c)| >= 1
    ensures FractionForm(RoundedFractionText(c), 9)
    ensures var t := RoundedFractionText(c); t == [] || t[|t| - 1] != '0'
    ensures var n := DigitsValue(RoundedWholeText(c)) * 1_000_000_000 + FractionUnits(RoundedFractionText(c), 9);
      n * TWO32 - TWO31 <= Abs(c.raw) * 1_000_000_000 < n * TWO32 + TWO31
  {
    var w := Abs(ToInt(c));
    AbsSplits(c);
    if Carries(c) {
      ScaledFractionRounds(c);
      NatToStringValue(w + 1);
      var f := AbsFractionBits(c);
      assert Abs(c.raw) * 1_000_000_000 == w * 1_000_000_000 * TWO32 + f * 1_000_000_000;
    } else {
      NatToStringValue(w);
      if c.raw % TWO32 != 0 {
        ScaledFractionRounds(c);
        FractionTextDigits(c);
        var f := AbsFractionBits(c);
        assert Abs(c.raw) * 1_000_000_000 == w * 1_000_000_000 * TWO32 + f * 1_000_000_000;
      } else {
        assert Abs(c.raw) * 1_000_000_000 == w * 1_000_000_000 * TWO32;
      }
    }
  }

  /**
   * Without a carry the fraction text is "." and at most nine digits, the
   * last not '0', that read back as the scaled fraction; a fraction that
   * rounds to zero leaves a bare ".".
   */
  lemma FractionTextDigits(c: FixConst)
    requires c.raw % TWO32 != 0 && ScaledFraction(c) < 1_000_000_000
    ensures FractionForm(FractionText(c), 9)
    ensures var t := FractionText(c); t[|t| - 1] != '0' || t == "."
    ensures FractionUnits(FractionText(c), 9) == ScaledFraction(c)
    ensures ScaledFraction(c) == 0 ==> FractionText(c) == "."
  {
    var s := ScaledFraction(c);
    assert Pow10(9) == 1_000_000_000;
    NatToStringLength(s, 9);
    var d := PadDigits(s, 9);
    assert |d| == 9;
    var t := TrimEndZeros(d);
    assert FractionText(c)[1..] == t;
    TrimEndZerosValue(d);
    PadDigitsValue(s, 9);
    if s == 0 && t != [] {
      DigitsValueLastNonZero(t);
    }
  }

  /** A digit string ending in a non-zero digit denotes a positive number. */
  lemma DigitsValueLastNonZero(t: string)
    requires t != [] && AllDigits(t) && t[|t| - 1] != '0'
    ensures DigitsValue(t) > 0
  {
  }
}
