# FixedPointy in Dafny

FixedPointy is a C# library of deterministic fixed-point arithmetic for games.
Its number type `Fix` is a 32-bit signed integer read as a 22.10 binary
fraction: 22 integer bits and 10 fraction bits, so one unit of `Raw` is
1/1024. `FixConst` is a 64-bit 32.32 form used to hold the library's
constants. On top of them the library provides:

- `FixMath`: absolute value, sign, rounding, square root, table-driven sine
  and cosine, a CORDIC `Atan2`, `Log2` by bit extraction, `Pow` and `Exp`;
- `FixVec2` and `FixVec3` vectors;
- the `FixTrans2` and `FixTrans3` affine matrices;
- convex `FixPolygon`s;
- a separating-axis polygon collision test that also finds a minimum
  translation vector.

This project models that core, with every wrap-around, truncation and C#
exception written out. It proves the properties the library's arithmetic
promises.

Modules follow the source:

| module | models |
|---|---|
| `Machine` | C# `int`, `long`, `uint` and `ulong` as subset types; two's-complement wrap-around (`Wrap32`, `Wrap64`, `ToU32`, `ToU64`); shifts; integer division that truncates toward zero. Exceptions become `Result`/`Outcome` values whose `Fault` names the exception (`DivideByZero`, `ArgumentOutOfRange`, `InvalidArgument`, `Overflow`, `IndexOutOfRange`). |
| `Scalar`, `ScalarLaws` | `Fix.cs` |
| `Decimal` | the digit formatting that the `ToString` methods share |
| `HighPrecision` | `FixConst.cs` |
| `FixMath` | the constant tables and the elementary part of `FixMath.cs` |
| `FixTrig` | `FixMath.cs` sine, cosine and tangent |
| `FixAtan` | `FixMath.cs` arc tangent and arc sine/cosine |
| `FixLog` | `FixMath.cs` logarithms |
| `FixPow` | `FixMath.cs` powers and `Exp` |
| `Vec2`, `Vec3` | `FixVec2.cs`, `FixVec3.cs` |
| `Trans2`, `Trans3` | `FixTrans2.cs`, `FixTrans3.cs` |
| `Polygon` | `FixPolygon.cs`, as a class over two arrays |
| `Collision` | `Collisions/PolygonCollision.cs` and `Collisions/PolygonCollisionResult.cs` |

How the model takes the source's form:

- The value types (`Fix`, `FixConst`, the vectors, the matrices,
  `PolygonCollisionResult`) are datatypes.
- `FixPolygon` keeps its two arrays. Its constructor fills them and
  `BuildEdges` writes the edge array in place.
- The loops of the source are methods with loop invariants:
  - `SqrtULong`, `Atan2`, `Log2` with its three loops, `Pow` with its two
    loops, `Center`, `Rotate`, `ProjectPolygon` and `CheckCollision`;
  - each method is proved equal to a specification function;
  - the library's promises are proved as lemmas about that function.

The constant tables (quarter-sine values, CORDIC angles, inverse
factorials, pi, e, ln 2, log10 2) are defined in a file that is not part of
this model. They form a `FixMath.Tables` parameter. Its `Valid` predicate
states the shape the static constructor checks. Results that depend on the
table values are stated for every valid table.

## Model

| member | source | states |
|---|---|---|
| Scalar.ClearFraction | FixMath.cs:74-76 | clearing the fraction bits gives the largest multiple of 1024 not above the input |
| Scalar.FromInt | Fix.cs:92-94 | `v << 10` equals v·1024 when v is within the integer range |
| Scalar.FromIntWraps | Fix.cs:92-94 | out of that range `v << 10` wraps: it is congruent to v·1024 modulo 2^32 |
| Scalar.ToInt | Fix.cs:85-90 | the explicit `(int)` conversion divides the raw value by 1024 truncating toward zero; results lie in the integer range |
| Scalar.Neg | Fix.cs:132-134 | unary minus is the raw negation, exact except at the minimum raw value |
| Scalar.Less | Fix.cs:120-122 | `<` compares raw values; no contract of its own, it is the raw order the ordering lemmas below use |
| Scalar.LessEq | Fix.cs:124-126 | `<=` compares raw values; no contract of its own |
| Scalar.Greater | Fix.cs:112-114 | `>` compares raw values; no contract of its own |
| Scalar.GreaterEq | Fix.cs:116-118 | `>=` compares raw values; no contract of its own |
| Scalar.Add | Fix.cs:136-138 | no contract of its own: characterised by Scalar.AddSubExact, Scalar.OperatorsWrap, ScalarLaws.AddCommutative and ScalarLaws.AddAssociative |
| Scalar.Sub | Fix.cs:140-142 | no contract of its own: characterised by Scalar.AddSubExact, Scalar.OperatorsWrap and ScalarLaws.SubIsAddNeg |
| Scalar.AddSubExact | Fix.cs:136-142 | addition and subtraction give the exact raw sum and difference when they fit |
| Scalar.Mul | Fix.cs:144-146 | the product is the 64-bit raw product shifted right by 10 with rounding, so it is nearest to the exact product whenever that fits |
| Scalar.DivRoundsToNearest | Fix.cs:148-150 | when the dividend and divisor do not have opposite signs (the exact quotient is not negative), the rounded quotient is within half a unit of the exact quotient, halves upward; one clause per sign of the divisor |
| Scalar.DivRoundsNegativeUp | Fix.cs:148-150 | when the operands have opposite signs, the `long` division truncates toward zero and `(t + 1) >> 1` then floors, so the quotient is the CEILING of the exact quotient in 1/1024 steps, not the nearest value |
| Scalar.DivNegativeNotNearest | Fix.cs:148-150 | example: -1/1024 divided by 1366/1024 (about -0.75/1024) gives 0, although -1/1024 is within half a unit and 0 is not |
| Scalar.Div | Fix.cs:148-150 | division fails with divide-by-zero exactly when the divisor is zero, else yields the rounded quotient when it fits |
| Scalar.Mod | Fix.cs:152-154 | remainder: divide-by-zero for a zero divisor, overflow for MinValue % -1; otherwise smaller than the divisor in magnitude, with the dividend's sign, and consistent with truncating division |
| Scalar.OperatorsWrap | Fix.cs:132-158 | negation, addition, subtraction and `<<` agree with the exact raw results modulo 2^32 |
| Scalar.ShiftLeft | Fix.cs:156-158 | no contract of its own: Scalar.OperatorsWrap states `<<` as the exact product by 2^(n mod 32) modulo 2^32 |
| Scalar.ShiftRight | Fix.cs:160-162 | `>>` is the arithmetic shift: the floor of raw / 2^(n mod 32) |
| Scalar.Mix | Fix.cs:63-71 | a negative numerator or denominator is an invalid argument, a zero denominator divides by zero, anything else succeeds |
| Scalar.Ratio | Fix.cs:73-75 | numerator/denominator fails exactly for a zero denominator and otherwise yields the rounded quotient |
| Scalar.AbsFractionBits | Fix.cs:178-197 | the fraction bits of the magnitude lie in [0, 1024] and are 0 or 1024 exactly for whole values |
| Scalar.ToString | Fix.cs:178-197 | no contract of its own: ScalarLaws.ToStringSign, ScalarLaws.WholeTextDenotes and ScalarLaws.FractionTextDenotes give its sign, whole digits and fraction digits |
| ScalarLaws.RawIdentity | Fix.cs:104-110 | equality of `Fix` values is equality of their raw values |
| ScalarLaws.NegWraps | Fix.cs:132-134 | negation is an involution and maps MinValue to itself |
| ScalarLaws.AddCommutative | Fix.cs:136-138 | addition commutes |
| ScalarLaws.AddAssociative | Fix.cs:136-138 | wrapping addition is associative |
| ScalarLaws.SubIsAddNeg | Fix.cs:140-142 | a − b equals a + (−b) |
| ScalarLaws.MulCommutative | Fix.cs:144-146 | multiplication commutes |
| ScalarLaws.MulIdentities | Fix.cs:144-146 | One is the multiplicative identity and Zero annihilates |
| ScalarLaws.EntryIdentities | FixTrans2.cs:32-41 | the entry arithmetic that composing with identity matrix entries relies on: One and Zero in products, Zero in sums |
| ScalarLaws.MulIntegers | Fix.cs:144-146 | products of whole numbers are exact when the product fits |
| ScalarLaws.DivIdentities | Fix.cs:148-150 | dividing by One is the identity; dividing by Zero raises divide-by-zero |
| ScalarLaws.RatioIsDivision | Fix.cs:73-75 | Ratio(n, d) is the division of the two raw values |
| ScalarLaws.RatioHalf | Fix.cs:73-75 | example: Ratio(1, 2) is 512/1024 |
| ScalarLaws.MixExamples | Fix.cs:63-71 | example: Mix(1,1,2) is 1.5 and Mix(−1,1,2) is −1.5 |
| ScalarLaws.MixDropsWholePart | Fix.cs:63-71 | the masked fraction keeps only the fractional part of an improper fraction |
| ScalarLaws.MixValue | Fix.cs:63-71 | for a proper fraction, Mix is the integer plus or minus the truncated fraction according to the integer's sign |
| ScalarLaws.ToIntFromInt | Fix.cs:85-94 | converting a whole number in range to `Fix` and back returns it |
| ScalarLaws.ToStringSign | Fix.cs:178-197 | the text is never empty and starts with '-' exactly for negative values |
| ScalarLaws.WholeTextDenotes | Fix.cs:178-184 | the integer digits denote the magnitude of the truncated value, which with the fraction bits rebuilds the magnitude |
| ScalarLaws.ScaledFractionRounds | Fix.cs:185-192 | a non-zero fraction is rounded to millionths within [977, 999023], so no carry into the integer part can occur |
| ScalarLaws.FractionTextDenotes | Fix.cs:186-197 | the fraction text is empty exactly for whole values, and otherwise starts with '.' and reads as the rounded millionths |
| Decimal.NatToString | Fix.cs:184 | `ToString()` of a non-negative integer is a non-empty digit string without a leading zero |
| Decimal.NatToStringValue | Fix.cs:184 | those digits read back as the integer |
| Decimal.PadDigitsValue | Fix.cs:195 | the "D6" and "D9" formats pad with zeros to the width and still read back as the integer |
| Decimal.TrimEndZeros | Fix.cs:195 | `TrimEnd('0')` removes exactly the trailing zeros: a prefix, not ending in '0', followed only by zeros |
| Decimal.TrimEndZerosValue | FixConst.cs:121 | trimming k trailing zeros divides the digits' value by 10^k |
| HighPrecision.ToFix | FixConst.cs:43-45 | narrowing to `Fix` rounds the 32.32 value to the nearest 1/1024, half up, when it is in range |
| HighPrecision.NarrowRounds | FixConst.cs:43-45 | the rounding shift by 22 gives the nearest `Fix` raw, within half a unit, whenever it fits an `int` |
| HighPrecision.NarrowExact | FixConst.cs:43-45 | a 32.32 value that is an exact multiple of 1/1024 narrows exactly |
| HighPrecision.ToInt | FixConst.cs:47-52 | `(int)` divides the raw value by 2^32 truncating toward zero |
| HighPrecision.FromIntAsWritten | FixConst.cs:54-56 | the conversion as written: the raw value is the integer itself |
| HighPrecision.FromIntAsWrittenLosesValue | FixConst.cs:54-56 | converting 1 as written and back gives 0, not 1 |
| HighPrecision.FromInt | FixConst.cs:54-56 | the corrected conversion scales by 2^32 |
| HighPrecision.FromIntRoundTrip | FixConst.cs:47-56 | the corrected conversion round-trips through `(int)` and agrees with `Fix`'s conversion after narrowing |
| HighPrecision.Neg | FixConst.cs:86-88 | negation is the raw negation, exact except at the minimum |
| HighPrecision.NegWraps | FixConst.cs:86-88 | negation is the raw negation modulo 2^64 |
| HighPrecision.NegLaws | FixConst.cs:58-88 | negation reverses order, is an involution, commutes with `(int)` and fixes the minimum |
| HighPrecision.CheckRange | FixConst.cs:35-41 | the conversion from double passes exactly when the value's floor is within the 32-bit range, else raises overflow |
| HighPrecision.AbsFractionBits | FixConst.cs:104-123 | the fraction bits of the magnitude lie in [0, 2^32] and are 0 or 2^32 exactly for whole values |
| HighPrecision.AbsSplits | FixConst.cs:104-114 | the magnitude is the whole part times 2^32 plus the fraction bits |
| HighPrecision.ToStringAsWritten | FixConst.cs:104-123 | the rendering as written; no contract of its own: HighPrecision.ToStringAsWrittenDropsCarry exhibits the dropped carry |
| HighPrecision.ToString | FixConst.cs:104-123 | the corrected rendering; no contract of its own: HighPrecision.ToStringRounds and HighPrecision.FractionTextDigits state what it denotes |
| HighPrecision.ScaledFractionRounds | FixConst.cs:115-121 | the fraction rounded to 10^9ths reaches 10^9 exactly when the fraction bits are at least 2^32 − 2 |
| HighPrecision.ToStringAsWrittenDropsCarry | FixConst.cs:115-121 | as written, the value 2^32 − 1 (just below one) renders as "0.1" |
| HighPrecision.ToStringRounds | FixConst.cs:104-123 | the corrected text is the sign, whole digits and trimmed nine-digit fraction whose value is the magnitude rounded to 10^9ths, carrying into the whole part |
| HighPrecision.FractionTextDigits | FixConst.cs:115-121 | without a carry the fraction text is '.' and at most nine digits without trailing zeros reading as the rounded fraction |
| FixMath.Abs | FixMath.cs:57-59 | the magnitude, except that MinValue stays MinValue |
| FixMath.Sign | FixMath.cs:61-68 | −1, 0 or 1 exactly for negative, zero and positive values |
| FixMath.SignTimesAbs | FixMath.cs:57-68 | Sign(v) · Abs(v) == v away from MinValue |
| FixMath.Min | FixMath.cs:89-91 | the smaller argument, one of the two |
| FixMath.Max | FixMath.cs:93-95 | the larger argument, one of the two |
| FixMath.MinMaxPartition | FixMath.cs:89-95 | Min and Max together are the two arguments |
| FixMath.Floor | FixMath.cs:74-76 | the largest whole value not above the input |
| FixMath.Ceiling | FixMath.cs:70-72 | a whole value; the smallest one not below the input when no wrap-around occurs |
| FixMath.Round | FixMath.cs:85-87 | the whole value nearest the input, halves rounded up, when no wrap-around occurs |
| FixMath.RoundHalvesUp | FixMath.cs:85-87 | example: −0.5 rounds to 0 and 0.5 rounds to 1 |
| FixMath.TruncateAsWritten | FixMath.cs:78-83 | as written: negative values move toward zero, and so do negative whole values, by one |
| FixMath.TruncateAsWrittenMovesIntegers | FixMath.cs:78-83 | Truncate(−1) is 0 as written |
| FixMath.Truncate | FixMath.cs:78-83 | corrected: the fraction is dropped toward zero and whole values are unchanged |
| FixMath.TruncateIsIntRoundTrip | FixMath.cs:78-90 | the corrected truncation equals converting to `int` and back |
| FixMath.ISqrtBounds | FixMath.cs:97-116 | the integer square root: r² ≤ n < (r+1)² |
| FixMath.ISqrtUnique | FixMath.cs:97-116 | any r with r² ≤ n < (r+1)² is the integer square root |
| FixMath.SqrtCapped | FixMath.cs:107-116 | the Newton iteration's result: the integer square root, capped at the starting guess |
| FixMath.SqrtCappedBounds | FixMath.cs:107-116 | the capped root squares to at most n, and below the cap it is the integer square root |
| FixMath.SqrtULong | FixMath.cs:107-116 | the Newton loop on `ulong` stops at the capped integer square root |
| FixMath.NewtonStops | FixMath.cs:109-114 | when a Newton step no longer decreases, the current guess is the result |
| FixMath.NewtonStaysAbove | FixMath.cs:109-114 | a Newton step from above the root stays above it and positive |
| FixMath.SumFits | FixMath.cs:110 | the sum x + n/x does not overflow `ulong` |
| FixMath.NewtonAbove | FixMath.cs:110 | the Newton mean of a positive guess is never below the integer root |
| FixMath.Sqrt | FixMath.cs:97-105 | negative input raises argument-out-of-range; zero gives zero; a positive input gives the square root to the nearest 1/1024 |
| FixMath.SqrtRawRounds | FixMath.cs:104 | the raw result h is the rounded root: (2h−1)² ≤ 4096·raw < (2h+1)² |
| FixMath.HalfUp | FixMath.cs:104 | `(s + 1) >> 1` is half of s + 1 rounded down |
| FixMath.SqrtBelowCap | FixMath.cs:107-116 | below the cap, the capped root is the integer root |
| FixMath.SqrtRounds | FixMath.cs:104 | rounding the doubled root by `(s + 1) >> 1` lands on the nearest half-step |
| FixMath.SqrtOfSquare | FixMath.cs:97-105 | the square root of a perfect square k² is k |
| FixMath.SqrtExamples | FixMath.cs:97-105 | example: the square roots of 1, 4 and 0 are 1, 2 and 0 |
| FixTrig.StepTimesResolution | FixMath.cs:39-55 | the lookup step 2^(10 − resolution power) times the table resolution is one degree |
| FixTrig.Quarter | FixMath.cs:39-55 | the table has one entry per step across 90 degrees plus one |
| FixTrig.QuarterTurn | FixMath.cs:39-55 | the table spans exactly 90 degrees |
| FixTrig.QuadrantIndex | FixMath.cs:147-165 | the table index is read backwards in the first quadrant and forwards in the second |
| FixTrig.CosRawLookup | FixMath.cs:147-165 | no contract of its own: FixTrig.LookupPeriodic, FixTrig.LookupHalfTurn and FixTrig.LookupEndpoints characterise it |
| FixTrig.LookupPeriodic | FixMath.cs:147-165 | the wave lookup repeats every 360 degrees |
| FixTrig.LookupHalfTurn | FixMath.cs:147-165 | half a turn on, the lookup is negated |
| FixTrig.QuadrantHalfTurn | FixMath.cs:147-165 | half a turn on, the same table index is read with the opposite sign |
| FixTrig.LookupEndpoints | FixMath.cs:147-165 | the lookup at 0 degrees is the sine of 90 and at 90 degrees is minus the sine of 0 |
| FixTrig.Interpolate | FixMath.cs:137-144 | the rounded linear interpolation lies between its two neighbours |
| FixTrig.PositionSplits | FixMath.cs:127-129 | the magnitude of the angle splits into a table position and an offset below one step |
| FixTrig.CosRaw | FixMath.cs:126-145 | on a table point the cosine is that lookup; between points it lies between the two neighbouring lookups |
| FixTrig.CosOfMagnitude | FixMath.cs:127-145 | on a table point the cosine of a magnitude is that lookup; between points it lies between the two neighbouring lookups |
| FixTrig.CosMagnitudePeriodic | FixMath.cs:127-165 | magnitudes a full turn apart have the same cosine |
| FixTrig.Cos | FixMath.cs:122-124 | Cos reads the wave at the angle's raw value |
| FixTrig.Sin | FixMath.cs:118-120 | Sin is the cosine a quarter turn earlier when no wrap-around occurs |
| FixTrig.Tan | FixMath.cs:167-169 | the tangent fails exactly when the cosine is zero and otherwise divides sine by cosine |
| FixTrig.CosEven | FixMath.cs:126-145 | cos(−d) == cos(d) |
| FixTrig.CosPeriodic | FixMath.cs:126-165 | cos(d + 360) == cos(d) |
| FixTrig.PositionShift | FixMath.cs:127-129 | adding 360 degrees moves the table position by four quarters and keeps the offset |
| FixTrig.TrigAtZero | FixMath.cs:118-124 | cos 0 and sin 0 are the table's end entries, and exactly 1 and 0 for exact tables |
| FixAtan.PreRotate | FixMath.cs:190-209 | the pre-rotation leaves the right half-plane alone and records a turn of 0, ±90 or 180 degrees |
| FixAtan.PreRotateHalfPlane | FixMath.cs:190-209 | for y ≠ int.MinValue, after the pre-rotation the vector is in the right half-plane or on the x-axis |
| FixAtan.CordicFrom | FixMath.cs:211-228 | the CORDIC loop leaves a vector on the x-axis unchanged |
| FixAtan.CordicAngleShift | FixMath.cs:211-228 | the loop's accumulated angle is a sum of table angles that shifts with the starting angle |
| FixAtan.Atan2Spec | FixMath.cs:183-231 | Atan2 raises argument-out-of-range exactly when both arguments are zero |
| FixAtan.Atan2 | FixMath.cs:183-231 | the pre-rotation and the CORDIC loop compute `Atan2Spec` |
| FixAtan.Atan2OnAxis | FixMath.cs:183-231 | on the positive x-axis the angle is 0; on the negative x-axis it is 180 |
| FixAtan.Atan2SecondQuadrant | FixMath.cs:196-200 | in the second quadrant Atan2 is 90 plus the angle of the vector turned back a quarter |
| FixAtan.Atan2ThirdQuadrant | FixMath.cs:191-195 | in the third quadrant Atan2 is −90 plus the angle of the vector turned a quarter |
| FixAtan.Atan | FixMath.cs:179-181 | Atan(v) is Atan2(v, 1) |
| FixAtan.Asin | FixMath.cs:171-173 | Asin fails only with argument-out-of-range |
| FixAtan.Acos | FixMath.cs:175-177 | Acos fails only with argument-out-of-range |
| FixAtan.InverseTrigDomain | FixMath.cs:171-177 | Asin and Acos succeed on [−1, 1] |
| FixAtan.InverseTrigOutside | FixMath.cs:171-177 | outside [−1, 1], up to magnitude 1024, both raise argument-out-of-range |
| FixAtan.InverseTrigAtZero | FixMath.cs:171-181 | asin 0 = 0, acos 1 = 0 and atan 0 = 0 |
| FixLog.NormUp | FixMath.cs:324-327 | doubling a value below one normalises it into [1, 2) and lowers the exponent |
| FixLog.NormUpScales | FixMath.cs:324-327 | the normalised mantissa is the input times 2 to the exponent drop |
| FixLog.NormDown | FixMath.cs:329-332 | halving a value at or above two normalises it into [1, 2) and raises the exponent |
| FixLog.NormDownScales | FixMath.cs:329-332 | the normalised mantissa is the input halved by the exponent gain, truncated |
| FixLog.FractionBits | FixMath.cs:336-344 | the remaining squaring steps produce fewer bits than the current bit weight, and none for a mantissa of exactly one |
| FixLog.Log2Fraction | FixMath.cs:336-344 | the fraction bits of the logarithm are below one, and zero for a mantissa of one |
| FixLog.Normalized | FixMath.cs:320-332 | the normalised mantissa lies in [1, 2) |
| FixLog.Log2Spec | FixMath.cs:316-347 | Log2 raises argument-out-of-range exactly for non-positive input |
| FixLog.Log2 | FixMath.cs:316-347 | the three loops compute `Log2Spec` |
| FixLog.ShiftUp | FixMath.cs:324-327 | the first loop computes the upward normalisation, with the exponent tracked in the `uint` result |
| FixLog.ShiftDown | FixMath.cs:329-332 | the second loop computes the downward normalisation |
| FixLog.ExtractBits | FixMath.cs:336-344 | the squaring loop adds exactly the fraction bits of the logarithm |
| FixLog.BitPass | FixMath.cs:336-344 | one pass of the squaring loop preserves the loop invariant: the bits found so far plus the bits still to come from the mantissa are the fraction bits of the logarithm |
| FixLog.OctaveDown | FixMath.cs:324-327 | one step of the first loop preserves the normalisation it leads to |
| FixLog.OctaveUp | FixMath.cs:329-332 | one step of the second loop preserves the normalisation it leads to |
| FixLog.BitStep | FixMath.cs:336-344 | one squaring step emits one bit and keeps the mantissa in [1, 2) |
| FixLog.CastBack | FixMath.cs:346 | the final cast to `int` of the `uint` result is the specified logarithm |
| FixLog.NormalizedOctave | FixMath.cs:316-347 | the exponent e places the raw input in [2^(e+10), 2^(e+11)) |
| FixLog.Log2Exponent | FixMath.cs:316-347 | the whole part of Log2 is the normalisation exponent |
| FixLog.Log2Octave | FixMath.cs:316-347 | the whole part e of Log2(v) satisfies 2^e ≤ v < 2^(e+1) |
| FixLog.ExponentRange | FixMath.cs:316-347 | the exponent lies in [−10, 20] for every positive value |
| FixLog.Log2OfPowerOfTwo | FixMath.cs:316-347 | Log2 of 2^k / 1024 is exactly k − 10 |
| FixLog.Log2OfNormal | FixMath.cs:316-347 | Log2 of a positive value is its exponent plus the fraction bits of its mantissa |
| FixLog.Log2OfUnitMantissa | FixMath.cs:316-347 | a value whose mantissa is exactly one has a whole logarithm |
| FixLog.NormalizedPower | FixMath.cs:320-332 | powers of two normalise to mantissa one |
| FixLog.PowerExponent | FixMath.cs:320-332 | the exponent of 2^k is k − 10 |
| FixLog.OctaveUnique | FixMath.cs:316-347 | a positive number lies in only one octave |
| FixLog.Log | FixMath.cs:296-298 | the natural logarithm fails exactly for non-positive input |
| FixLog.Log10 | FixMath.cs:312-314 | the common logarithm fails exactly for non-positive input |
| FixLog.LogBaseProperties | FixMath.cs:300-310 | base 2 is Log2; non-positive values fail with argument-out-of-range; base one divides by zero |
| FixLog.LogBase | FixMath.cs:300-310 | no contract of its own: FixLog.LogBaseProperties states its cases |
| FixPow.RoundedWhole | FixMath.cs:268 | for raw values up to int.MaxValue − 512, the exponent rounded to the nearest whole number, halves upward; always in the integer range (above that bound `exp.Raw + 512` wraps and the result is a large negative power) |
| FixPow.PowSpec | FixMath.cs:237-294 | b^0 and 1^e are one; a whole exponent fails with divide-by-zero only for a negative power of zero; a fractional one fails with argument-out-of-range exactly for a non-positive base |
| FixPow.WholePower | FixMath.cs:243-265 | whole powers fail exactly for negative powers of zero |
| FixPow.Pow | FixMath.cs:237-294 | the loops compute `PowSpec` |
| FixPow.WholePowerLoop | FixMath.cs:243-265 | the whole-exponent branch, reciprocal then loop, computes `WholePower` |
| FixPow.FractionalPowerLoop | FixMath.cs:267-293 | the fractional branch with its series loop computes `FractionalPower` |
| FixPow.PowThroughLog | FixMath.cs:267 | a fractional exponent fails, with argument-out-of-range, exactly when the base is not positive |
| FixPow.WholeExponentSign | FixMath.cs:244-253 | a whole exponent rounds to a whole number of the same sign, so the reciprocal is taken exactly for negative exponents |
| FixPow.SquareAndMultiply | FixMath.cs:256-262 | square-and-multiply computes the repeated product it specifies |
| FixPow.SquareMultiply | FixMath.cs:256-262 | no contract of its own: FixPow.SquareMultiplyExact equates it with the exact power for whole inputs that fit, and FixPow.SquareMultiplyOfZero fixes a zero accumulator |
| FixPow.TaylorFrom | FixMath.cs:278-291 | no contract of its own: the series the loop of FixPow.TaylorSum is proved to compute |
| FixPow.FractionalPower | FixMath.cs:267-293 | no contract of its own: FixPow.ExpArgumentScales, FixPow.FractionalPowerOfWhole and FixPow.PowWholeOctave characterise it |
| FixPow.TaylorSum | FixMath.cs:278-291 | the series loop computes the Taylor sum with 32.32 products |
| FixPow.Exp | FixMath.cs:233-235 | e^0 = 1 and e^1 = e, and the result is defined whenever e is positive |
| FixPow.RoundedWholeOfInteger | FixMath.cs:244 | whole numbers round to themselves |
| FixPow.PowFirst | FixMath.cs:237-265 | b^1 == b |
| FixPow.PowMinusFirst | FixMath.cs:237-265 | b^−1 == 1 / b, including its divide-by-zero |
| FixPow.PowOfWhole | FixMath.cs:243-265 | positive whole exponents are square-and-multiply |
| FixPow.PowOfInteger | FixMath.cs:243-265 | whole powers of whole numbers are exact when they fit |
| FixPow.SquareMultiplyOfZero | FixMath.cs:256-262 | a zero accumulator stays zero |
| FixPow.SquareMultiplyExact | FixMath.cs:256-262 | square-and-multiply of whole numbers is the exact power when it fits |
| FixPow.FractionalSplit | FixMath.cs:268-272 | the remaining fraction after rounding lies in [−0.5, 0.5) without wrap-around |
| FixPow.ExpArgumentScales | FixMath.cs:271-274 | the Taylor argument is the fraction times ln 2 in 32.32 form, rounded |
| FixPow.ShiftedOne | FixMath.cs:269 | the power of two for a non-negative exponent is One shifted left |
| FixPow.HalvedOne | FixMath.cs:269 | the power of two for a negative exponent is One shifted right |
| FixPow.ExpArgumentOfWhole | FixMath.cs:267-276 | a whole input leaves a zero Taylor argument |
| FixPow.PowOfFraction | FixMath.cs:267-293 | a fractional power is 2 to the power exponent · log2(base) |
| FixPow.FractionalPowerOfWhole | FixMath.cs:267-293 | 2^n over the fractional path is exact for whole n in [0, 20] |
| FixPow.PowWholeOctave | FixMath.cs:267-293 | when exponent · log2(base) is whole, the fractional power is an exact power of two |
| FixPow.PowSquareRootOfFour | FixMath.cs:237-294 | example: 4^0.5 == 2 |
| Vec2.HalfRoot | FixVec2.cs:105-112 | half the capped Newton root of the shifted sum of squares, rounded half up; the nearest-value fact holds only below the 2048 cap and is stated by Vec2.HalfRootRounds (through FixMath.CappedRounds) |
| Vec2.HalfRootRounds | FixVec2.cs:105-112 | below the cap the halved root is the root of the raw sum rounded to the nearest half-step |
| Vec2.FixVec2.Negate | FixVec2.cs:36-38 | no contract of its own: Vec2.NegateTwice and Vec2.SubIsNegatedSwap |
| Vec2.FixVec2.Add | FixVec2.cs:40-42 | no contract of its own: Vec2.AddLaws and Vec2.AddSubRoundTrip |
| Vec2.FixVec2.Sub | FixVec2.cs:44-46 | no contract of its own: Vec2.AddSubRoundTrip and Vec2.SubIsNegatedSwap |
| Vec2.FixVec2.ScalarAdd | FixVec2.cs:48-54 | no contract of its own: Vec2.ScalarAddSubRoundTrip |
| Vec2.FixVec2.ScalarSub | FixVec2.cs:56-58 | no contract of its own: Vec2.ScalarAddSubRoundTrip |
| Vec2.FixVec2.ScalarMultiply | FixVec2.cs:60-66 | no contract of its own: Vec2.ScalarIdentities |
| Vec2.FixVec2.Dot | FixVec2.cs:89-91 | no contract of its own: Vec2.DotSymmetric |
| Vec2.FixVec2.Cross | FixVec2.cs:93-95 | no contract of its own: Vec2.CrossAntisymmetric |
| Vec2.FixVec2.Rotate | FixVec2.cs:123-127 | no contract of its own: Vec2.RotateByZero and Vec2.TurnByUnit |
| Vec2.FixVec2.ScalarDivide | FixVec2.cs:68-70 | dividing by a scalar fails exactly for zero with divide-by-zero |
| Vec2.FixVec2.GetMagnitude | FixVec2.cs:105-112 | the magnitude is non-negative and zero only for the zero vector; divide-by-zero exactly when the `ulong` square sum wraps to zero for a non-zero vector |
| Vec2.FixVec2.Normalize | FixVec2.cs:114-121 | normalising fails exactly when the magnitude does; the zero vector stays zero |
| Vec2.AddSubRoundTrip | FixVec2.cs:40-46 | adding and subtracting the same vector cancel, in both orders |
| Vec2.FixAddSub | Fix.cs:136-142 | adding and subtracting the same `Fix` cancel |
| Vec2.ScalarAddSubRoundTrip | FixVec2.cs:48-58 | adding and subtracting the same scalar cancel |
| Vec2.AddLaws | FixVec2.cs:36-46 | vector addition commutes and subtraction is addition of the negation |
| Vec2.NegateTwice | FixVec2.cs:36-38 | negation is an involution |
| Vec2.ScalarIdentities | FixVec2.cs:60-70 | scaling by one is the identity; division by one succeeds unchanged and by zero fails |
| Vec2.DotSymmetric | FixVec2.cs:89-91 | the dot product is symmetric |
| Vec2.CrossAntisymmetric | FixVec2.cs:93-95 | the cross product is antisymmetric and zero on equal vectors |
| Vec2.SubIsNegatedSwap | Fix.cs:132-142 | a − b == −(b − a) |
| Vec2.ZeroMagnitude | FixVec2.cs:105-121 | the zero vector has magnitude zero and normalises to itself |
| Vec2.AxisMagnitude | FixVec2.cs:105-112 | a vector on an axis has the absolute coordinate as its magnitude |
| Vec2.MagnitudeOfSquare | FixVec2.cs:105-112 | a non-zero vector whose raw square sum is k² has raw magnitude k |
| Vec2.AxisNormalize | FixVec2.cs:114-121 | a vector on the x-axis normalises to its sign |
| Vec2.UnitMagnitudes | FixVec2.cs:105-112 | the unit vectors have magnitude one |
| Vec2.RotateByZero | FixVec2.cs:123-127 | with exact tables, turning by zero degrees is the identity |
| Vec2.TurnByUnit | FixVec2.cs:123-127 | the rotation formula with cosine one and sine zero returns the vector |
| Vec3.FixVec3.ScalarDivide | FixVec3.cs:73-75 | dividing by a scalar fails exactly for zero with divide-by-zero |
| Vec3.FixVec3.GetMagnitude | FixVec3.cs:109-116 | the magnitude is non-negative and zero only for the zero vector; divide-by-zero exactly when the square sum wraps to zero |
| Vec3.FixVec3.Normalize | FixVec3.cs:118-124 | normalising fails exactly when the magnitude does; the zero vector stays zero |
| Vec3.FixVec3.Negate | FixVec3.cs:41-43 | no contract of its own: Vec3.NegateTwice |
| Vec3.FixVec3.Add | FixVec3.cs:45-47 | no contract of its own: Vec3.AddSubRoundTrip and Vec3.FromVec2Operations |
| Vec3.FixVec3.Sub | FixVec3.cs:49-51 | no contract of its own: Vec3.AddSubRoundTrip |
| Vec3.FixVec3.ScalarAdd | FixVec3.cs:53-59 | no contract of its own: Vec3.ScalarAddSubRoundTrip |
| Vec3.FixVec3.ScalarSub | FixVec3.cs:61-63 | no contract of its own: Vec3.ScalarAddSubRoundTrip |
| Vec3.FixVec3.ScalarMultiply | FixVec3.cs:65-71 | no contract of its own: Vec3.ScalarIdentities |
| Vec3.FixVec3.Dot | FixVec3.cs:89-91 | no contract of its own: Vec3.DotSymmetric, Vec3.DotOfUnits and Vec3.FromVec2Dot |
| Vec3.FixVec3.Cross | FixVec3.cs:93-99 | no contract of its own: Vec3.CrossAntisymmetric, Vec3.CrossOfUnits and Vec3.FromVec2Cross |
| Vec3.FromVec2 | FixVec3.cs:33-35 | the implicit conversion has z = 0 |
| Vec3.AddSubRoundTrip | FixVec3.cs:45-51 | adding and subtracting the same vector cancel |
| Vec3.ScalarAddSubRoundTrip | FixVec3.cs:53-63 | adding and subtracting the same scalar cancel |
| Vec3.NegateTwice | FixVec3.cs:41-43 | negation is an involution |
| Vec3.ScalarIdentities | FixVec3.cs:65-75 | scaling by one is the identity; division by one succeeds and by zero fails |
| Vec3.DotSymmetric | FixVec3.cs:89-91 | the dot product is symmetric |
| Vec3.CrossAntisymmetric | FixVec3.cs:93-99 | the cross product is antisymmetric and zero on equal vectors |
| Vec3.CrossOfUnits | FixVec3.cs:93-99 | X × Y = Z, Y × Z = X, Z × X = Y |
| Vec3.DotOfUnits | FixVec3.cs:89-91 | the unit vectors are orthonormal |
| Vec3.FromVec2Dot | FixVec3.cs:33-35 | the conversion preserves dot products |
| Vec3.FromVec2Cross | FixVec3.cs:93-99 | the 3-D cross product of converted vectors is the 2-D cross product on z |
| Vec3.FromVec2Magnitude | FixVec3.cs:109-116 | the conversion preserves the magnitude |
| Vec3.FromVec2Operations | FixVec3.cs:33-75 | the conversion commutes with addition, subtraction, negation and scaling |
| Vec3.ZeroMagnitude | FixVec3.cs:109-124 | the zero vector has magnitude zero and normalises to itself |
| Vec3.MagnitudeOfSquare | FixVec3.cs:109-116 | a non-zero vector whose raw square sum is k² has raw magnitude k |
| Vec3.AxisMagnitude | FixVec3.cs:109-116 | a vector on an axis has the absolute coordinate as its magnitude |
| Vec3.UnitMagnitudes | FixVec3.cs:109-124 | the unit vectors have magnitude one, and Z normalises to itself |
| Trans2.IdentityLaws | FixTrans2.cs:27-48 | Identity is a two-sided unit of composition and fixes every vector |
| Trans2.TranslationApply | FixTrans2.cs:43-48 | a translation matrix adds its offset |
| Trans2.ScaleApply | FixTrans2.cs:59-64 | a scale matrix multiplies componentwise |
| Trans2.TranslateIsComposition | FixTrans2.cs:120-125 | Translate is composition with a translation matrix on the left |
| Trans2.TranslateOnlyMovesColumn | FixTrans2.cs:120-125 | Translate changes only the translation column and is undone by the opposite offset |
| Trans2.TranslateApply | FixTrans2.cs:120-129 | applying a translated transform is applying then translating |
| Trans2.ScaleIsComposition | FixTrans2.cs:113-118 | Scale is composition with a scale matrix on the left |
| Trans2.ScaleEntry | FixTrans2.cs:113-118 | the entry arithmetic of the scale composition |
| Trans2.TRSDecomposes | FixTrans2.cs:85-95 | TRS composes translation, rotation and scale, and maps the origin to the position |
| Trans2.OriginImage | FixTrans2.cs:43-48 | the origin maps to the translation column |
| Trans2.RotationByZero | FixTrans2.cs:50-57 | with exact tables the zero rotation is the identity and turning by zero changes nothing |
| Trans2.RotationMatrixAtZero | FixTrans2.cs:50-57 | with exact tables the zero rotation matrix is the identity |
| Trans2.RotationShape | FixTrans2.cs:50-57 | a rotation matrix is the cosine/sine pattern with no translation |
| Trans2.FixTrans2.Compose | FixTrans2.cs:32-41 | no contract of its own: Trans2.IdentityLaws, Trans2.TranslateIsComposition and Trans2.ScaleIsComposition |
| Trans2.FixTrans2.Apply | FixTrans2.cs:43-48 | no contract of its own: Trans2.IdentityLaws, Trans2.TranslationApply, Trans2.ScaleApply and Trans2.OriginImage |
| Trans2.MakeRotation | FixTrans2.cs:50-57 | no contract of its own: Trans2.RotationShape and Trans2.RotationMatrixAtZero |
| Trans2.MakeScale | FixTrans2.cs:59-64 | no contract of its own: Trans2.ScaleApply |
| Trans2.MakeTranslation | FixTrans2.cs:66-71 | no contract of its own: Trans2.TranslationApply |
| Trans2.FromTRS | FixTrans2.cs:85-95 | no contract of its own: Trans2.TRSDecomposes |
| Trans2.FixTrans2.Rotate | FixTrans2.cs:109-111 | no contract of its own: Trans2.RotationByZero |
| Trans2.FixTrans2.Scale | FixTrans2.cs:113-118 | no contract of its own: Trans2.ScaleIsComposition and Trans2.ScaleEntry |
| Trans2.FixTrans2.Translate | FixTrans2.cs:120-125 | no contract of its own: Trans2.TranslateIsComposition, Trans2.TranslateOnlyMovesColumn and Trans2.TranslateApply |
| Trans3.UnitSums | FixTrans3.cs:33-56 | a row of the identity picks one coordinate |
| Trans3.IdentityLeft | FixTrans3.cs:27-48 | Identity is a left unit of composition |
| Trans3.IdentityRight | FixTrans3.cs:27-48 | Identity is a right unit of composition |
| Trans3.ZeroSum | FixTrans3.cs:33-48 | a zero row adds nothing |
| Trans3.IdentityApply | FixTrans3.cs:50-56 | Identity fixes every vector |
| Trans3.TranslationApply | FixTrans3.cs:102-108 | a translation matrix adds its offset |
| Trans3.ScaleApply | FixTrans3.cs:94-100 | a scale matrix multiplies componentwise |
| Trans3.ScaledSum | FixTrans3.cs:94-100 | the entry arithmetic of applying a scale matrix |
| Trans3.TranslateOnlyMovesColumn | FixTrans3.cs:175-181 | Translate changes only the translation column and is undone by the opposite offset |
| Trans3.TranslateApply | FixTrans3.cs:175-185 | applying a translated transform is applying then translating |
| Trans3.ScaleIsComposition | FixTrans3.cs:167-173 | Scale is composition with a scale matrix on the left |
| Trans3.ScaleColumn | FixTrans3.cs:167-173 | the entry arithmetic of the scale composition |
| Trans3.RotationKeepsAxis | FixTrans3.cs:58-86 | each elementary rotation fixes the coordinate of its axis |
| Trans3.ComposeLinear | FixTrans3.cs:33-48 | composing linear transforms gives a linear transform |
| Trans3.RotationLinear | FixTrans3.cs:88-92 | rotations are linear, and TRS maps the origin to the position |
| Trans3.OriginImage | FixTrans3.cs:50-56 | the origin maps to the translation column |
| Trans3.MakeRotationComposes | FixTrans3.cs:88-92 | the rotation is Z after Y after X in that order of composition |
| Trans3.ElementaryRotationsAtZero | FixTrans3.cs:58-86 | with exact tables each elementary zero rotation is the identity |
| Trans3.RotationAtZero | FixTrans3.cs:88-92 | with exact tables the zero rotation is the identity |
| Trans3.RotateDiscardsReceiver | FixTrans3.cs:163-165 | as written, Rotate's result does not depend on the matrix it is called on |
| Trans3.RotateLosesTranslation | FixTrans3.cs:163-165 | as written, turning a translation by zero degrees gives the identity |
| Trans3.RotateComposedAtZero | FixTrans3.cs:151-165 | the corrected Rotate, which composes like RotateX/Y/Z, turns by zero without change |
| Trans3.FixTrans3.Compose | FixTrans3.cs:33-48 | no contract of its own: Trans3.IdentityLeft, Trans3.IdentityRight and Trans3.ComposeLinear |
| Trans3.FixTrans3.Apply | FixTrans3.cs:50-56 | no contract of its own: Trans3.IdentityApply, Trans3.TranslationApply, Trans3.ScaleApply and Trans3.OriginImage |
| Trans3.MakeRotationZ | FixTrans3.cs:58-66 | no contract of its own: Trans3.RotationKeepsAxis and Trans3.ElementaryRotationsAtZero |
| Trans3.MakeRotationY | FixTrans3.cs:68-76 | no contract of its own: Trans3.RotationKeepsAxis and Trans3.ElementaryRotationsAtZero |
| Trans3.MakeRotationX | FixTrans3.cs:78-86 | no contract of its own: Trans3.RotationKeepsAxis and Trans3.ElementaryRotationsAtZero |
| Trans3.MakeRotation | FixTrans3.cs:88-92 | no contract of its own: Trans3.MakeRotationComposes, Trans3.RotationLinear and Trans3.RotationAtZero |
| Trans3.MakeScale | FixTrans3.cs:94-100 | no contract of its own: Trans3.ScaleApply |
| Trans3.MakeTranslation | FixTrans3.cs:102-108 | no contract of its own: Trans3.TranslationApply |
| Trans3.FromTRS | FixTrans3.cs:130-149 | no contract of its own: Trans3.RotationLinear maps the origin to the position |
| Trans3.FixTrans3.RotateZ | FixTrans3.cs:151-153 | no contract of its own: Trans3.MakeRotationComposes |
| Trans3.FixTrans3.RotateY | FixTrans3.cs:155-157 | no contract of its own: Trans3.MakeRotationComposes |
| Trans3.FixTrans3.RotateX | FixTrans3.cs:159-161 | no contract of its own: Trans3.MakeRotationComposes |
| Trans3.FixTrans3.Rotate | FixTrans3.cs:163-165 | as written; no contract of its own: Trans3.RotateDiscardsReceiver and Trans3.RotateLosesTranslation |
| Trans3.FixTrans3.RotateComposed | FixTrans3.cs:163-165 | corrected; no contract of its own: Trans3.RotateComposedAtZero |
| Trans3.FixTrans3.Scale | FixTrans3.cs:167-173 | no contract of its own: Trans3.ScaleIsComposition and Trans3.ScaleColumn |
| Trans3.FixTrans3.Translate | FixTrans3.cs:175-181 | no contract of its own: Trans3.TranslateOnlyMovesColumn and Trans3.TranslateApply |
| Polygon.CenterOf | FixPolygon.cs:53-64 | the centre divides the wrapped coordinate sums by the point count, failing with divide-by-zero exactly when the count converts to raw zero |
| Polygon.CountVanishes | FixPolygon.cs:62 | the point count converts to `Fix` zero exactly when it is a multiple of 2^22 |
| Polygon.Shifted | FixPolygon.cs:72-75 | shifting keeps the number of points |
| Polygon.RotatedAll | FixPolygon.cs:66-70 | rotating keeps the number of points |
| Polygon.FixPolygon.constructor | FixPolygon.cs:34-38 | the points are copied into a new array and the edges are built |
| Polygon.FixPolygon.FromParts | FixPolygon.cs:40-43 | points and edges are copied into two new arrays |
| Polygon.FixPolygon.BuildEdges | FixPolygon.cs:45-51 | each edge is the next point minus this one, wrapping to the first, and the points are untouched |
| Polygon.FixPolygon.Center | FixPolygon.cs:53-64 | the summing loop computes `CenterOf` |
| Polygon.FixPolygon.Rotate | FixPolygon.cs:66-70 | a new polygon of the rotated points with rebuilt edges |
| Polygon.FixPolygon.Plus | FixPolygon.cs:72-75 | a new polygon of the shifted points with the old edges copied |
| Polygon.EdgesWrapAround | FixPolygon.cs:45-51 | there is one edge per point, from each point to the next, cyclically |
| Polygon.EdgesOf | FixPolygon.cs:45-51 | no contract of its own: the edges `BuildEdges` writes; Polygon.EdgesWrapAround, Polygon.PrefixEdgeSum and Polygon.EdgesSumToZero characterise them |
| Polygon.EdgesOfShifted | FixPolygon.cs:72-75 | shifting a polygon leaves its edges unchanged, so copying them is sound |
| Polygon.FixShiftedDifference | FixPolygon.cs:72-75 | (b + v) − (a + v) == b − a under wrap-around |
| Polygon.Telescope | FixPolygon.cs:45-51 | consecutive edge differences telescope |
| Polygon.FixTelescope | FixPolygon.cs:45-51 | (c − a) + (b − c) == b − a under wrap-around |
| Polygon.PrefixEdgeSum | FixPolygon.cs:45-51 | the first k edges sum to point k minus point 0 |
| Polygon.EdgesSumToZero | FixPolygon.cs:45-51 | the edges of a closed polygon sum to zero |
| Polygon.SumWraps | FixPolygon.cs:55-60 | the wrapping coordinate totals are congruent to the true sums and equal them when they fit |
| Polygon.CenterExamples | FixPolygon.cs:53-64 | example: one point is its own centre; no points divide by zero |
| Polygon.RotateByZero | FixPolygon.cs:66-70 | with exact tables, rotating every point by zero keeps them |
| Collision.GapPositiveIffDisjoint | Collisions/PolygonCollision.cs:79-84 | without wrap-around the interval distance is positive exactly when the intervals are disjoint |
| Collision.IntervalDistance | Collisions/PolygonCollision.cs:79-84 | no contract of its own: Collision.GapPositiveIffDisjoint |
| Collision.SweptContains | Collisions/PolygonCollision.cs:40-43 | the swept interval is well formed and contains both the interval and its shift by the velocity projection |
| Collision.ProjectionOf | Collisions/PolygonCollision.cs:87-99 | projecting fails with index-out-of-range exactly for a polygon without points |
| Collision.ProjectionTight | Collisions/PolygonCollision.cs:87-99 | the projection interval contains every point's projection and both ends are attained |
| Collision.ScanTight | Collisions/PolygonCollision.cs:89-98 | after k points the running interval contains their projections and both its ends are attained |
| Collision.ProjectPolygon | Collisions/PolygonCollision.cs:87-99 | the min/max loop computes `ProjectionOf` |
| Collision.Probes | Collisions/PolygonCollision.cs:14-37 | one probe (axis, the two projections, the velocity projection) per edge of A then B |
| Collision.SweepAdvances | Collisions/PolygonCollision.cs:14-66 | an edge that does not stop the loop passes the remaining work on unchanged |
| Collision.CheckCollisionSpec | Collisions/PolygonCollision.cs:5-75 | the minimum translation vector is zero whenever no future intersection is found |
| Collision.ProbeEdge | Collisions/PolygonCollision.cs:15-37 | the edge selection, normal and projections of one loop iteration compute its probe |
| Collision.JudgeEdge | Collisions/PolygonCollision.cs:31-65 | the tests, early exit and centre-based update of one iteration compute its step |
| Collision.CheckCollision | Collisions/PolygonCollision.cs:5-75 | the edge loop computes `CheckCollisionSpec` |
| Collision.StepVerdict | Collisions/PolygonCollision.cs:31-65 | one step clears each flag exactly when that edge separates, never increases the minimum distance, and stops exactly when both flags are clear |
| Collision.Judge | Collisions/PolygonCollision.cs:31-65 | no contract of its own: Collision.StepVerdict states its flags, distance and exit |
| Collision.Recenter | Collisions/PolygonCollision.cs:58-64 | fails exactly when a polygon centre faults; otherwise changes only the translation axis, to the axis or its negation, and keeps the axis whenever the centre difference A − B does not point against it |
| Collision.SweepVerdicts | Collisions/PolygonCollision.cs:14-66 | the loop's intersect flag holds exactly when no remaining axis separates the polygons, its will-intersect flag exactly when no axis separates them after sweeping, and the minimum distance never grows |
| Collision.CollisionVerdicts | Collisions/PolygonCollision.cs:5-75 | the polygons intersect exactly when no edge normal separates them, will intersect exactly when no normal separates them after the move along the velocity, and otherwise the translation vector is zero |
| Collision.NoEdges | Collisions/PolygonCollision.cs:5-75 | with no edges at all both flags stay true and the translation vector is zero |

## Left out

- Floating point: the conversions of `Fix` and `FixConst` to and from `double` and `float` are not modelled. The conversion from `double` to `FixConst` is reduced to its range guard, stated on `real` (`HighPrecision.CheckRange`).
- Culture: the `ToString` methods use the invariant culture's "-" and "." and nothing else.
- `Equals`, `GetHashCode` and `ToString` of the vectors, matrices and polygon are left out: they are object plumbing, and `==`/`!=` are datatype equality (`ScalarLaws.RawIdentity`).
- Unary `+` on `Fix`, `FixConst` and the vectors is the identity and has no member of its own.
- The static constructors: the tables are a `FixMath.Tables` parameter. `Tables.Valid` is the shape the constructor checks. The exceptions it throws on a malformed table, and the actual constant values, are not modelled. The check in the `Fix` static constructor is not modelled either.
- FixTrig.CosRaw, FixTrig.Cos, FixTrig.Sin: at a raw argument of `int.MinValue` the source indexes outside the table; the model excludes that one raw value by a precondition instead of modelling the `IndexOutOfRangeException`.
- FixTrig.Tan, Vec2.FixVec2.Rotate, Trans2.MakeRotation, Trans2.FromTRS, Trans2.FixTrans2.Rotate, Trans3.MakeRotationZ, Trans3.MakeRotationY, Trans3.MakeRotationX, Trans3.MakeRotation, Trans3.FromTRS, Trans3.FixTrans3.RotateZ, Trans3.FixTrans3.RotateY, Trans3.FixTrans3.RotateX, Trans3.FixTrans3.Rotate, Trans3.FixTrans3.RotateComposed, Polygon.RotatedAll, Polygon.FixPolygon.Rotate: inherit that precondition (`FixTrig.TrigDefined`, or `Trans3.RotationDefined` for all three angles), as do the lemmas about them (FixTrig.CosEven, Trans2.TRSDecomposes, Trans2.RotationShape, Trans3.RotationKeepsAxis, Trans3.RotationLinear, Trans3.MakeRotationComposes, Trans3.RotateDiscardsReceiver).
- Scalar.Div: the quotient is the nearest 1/1024 only when the exact quotient is not negative; for a negative exact quotient the source's truncating `long` division followed by `>> 1` gives the ceiling, and the model states that behaviour (Scalar.DivRoundsNegativeUp) rather than a nearest-value bound. The same holds for Scalar.Ratio, Vec2/Vec3 ScalarDivide and Polygon.CenterOf, which divide the same way.
- FixPow.RoundedWhole: the nearest-whole clause covers raw exponents up to int.MaxValue − 512 only; above that `exp.Raw + 512` wraps, the shift gives a large negative power (-2097152 for int.MaxValue), and the model computes that wrapped value without stating a rounding property for it.
- FixAtan.PreRotateHalfPlane: requires y ≠ int.MinValue, because there `-y` wraps back to int.MinValue and the pre-rotated vector leaves the right half-plane.
- FixMath.SqrtULong: requires n > 0. Its one caller (`Sqrt`) handles zero first. The vectors' `GetMagnitude`, which divides by zero for a zero `ulong` sum, is modelled as `Err(DivideByZero)`.
- Collision.CheckCollision, Collision.JudgeEdge: require point arrays of at most `int.MaxValue` elements, as C# arrays have.
- Collision.CheckCollision: one loop iteration is split into the two helper methods `ProbeEdge` and `JudgeEdge`. The polygon centres are computed lazily in the source and passed as values here. The same results and faults arise wherever the source would compute them.
- Collision.CheckCollisionSpec: states only that the vector is zero without a future intersection. The flags are characterised by `Collision.CollisionVerdicts`. The magnitude of the translation vector is not characterised beyond its construction from the minimum interval distance.
- Polygon.FixPolygon: the source copies arrays with `ToArray()` in both constructors and builds fresh lists in `+`, so the library itself shares no arrays; the model does the same with fresh arrays. What it does not follow is a caller mutating the arrays exposed by the public `Points` and `Edges` getters (FixPolygon.cs:30-31), which would break the edge invariant the model keeps.
- The `Atan2` CORDIC table angles, inverse factorials and logarithm constants are uninterpreted table entries. Results that depend on their numeric values (for example atan 1 = 45) are not stated.
- FixAtan.Asin, FixAtan.Acos: characterised by their domain and a few exact values, not by an accuracy bound.
- FixLog.LogBase: has no ensures of its own; `FixLog.LogBaseProperties` states its cases.

## Findings

| source | as written | input that shows it | evidently intended | confidence | as-written member | corrected member |
|---|---|---|---|---|---|---|
| FixMath.cs:78-83 | `Truncate` adds one to any negative value after masking, even when the fraction is already zero | `Truncate(-1)` returns 0 | truncation toward zero, which leaves whole values unchanged | not executed | FixMath.TruncateAsWrittenMovesIntegers | FixMath.TruncateIsIntRoundTrip |
| FixConst.cs:54-56 | the implicit conversion from `int` shifts an `int` by 32, which C# reduces to a shift by 0 | `(int)(FixConst)1` is 0 | scale the value by 2^32 in `long` | not executed | HighPrecision.FromIntAsWrittenLosesValue | HighPrecision.FromIntRoundTrip |
| FixConst.cs:115-121 | `ToString` rounds the fraction to nine digits but drops a carry into the whole part | `new FixConst(0xFFFFFFFF)` renders as "0.1" | carry into the whole part, giving "1" | not executed | HighPrecision.ToStringAsWrittenDropsCarry | HighPrecision.ToStringRounds |
| FixTrans3.cs:163-165 | `Rotate` returns the rotation matrix alone and discards the matrix it is called on | `MakeTranslation(UnitX).Rotate(Zero)` is the identity | compose the rotation with the receiver, as `RotateX`, `RotateY` and `RotateZ` do | not executed | Trans3.RotateLosesTranslation | Trans3.RotateComposedAtZero |
