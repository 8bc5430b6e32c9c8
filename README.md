# Grisu-Exact and its limb bigint, modelled in Dafny

This project models the runtime core of Grisu-Exact. Grisu-Exact converts a
finite IEEE-754 binary32 or binary64 value into a decimal
significand and a power-of-ten exponent, `(significand, exponent)`, that lies
inside the rounding interval of the input. The model covers the whole
pipeline:

- the bit-level inspectors of the input;
- the boundaries of the rounding interval, and which of its ends are included under each rounding mode;
- the cache index `minus_k` and the shift `beta`;
- the wide multiplications `umul128`, `umul192_upper128` and `umul96_upper64`;
- `compute_mul` and `compute_delta`;
- the integer checks (`is_product_integer`, `is_z2_smaller_than_delta2`, ...);
- the binary searches for kappa (`increasing_search` and `decreasing_search`), with their lazily filled `z2_vs_delta2` memo;
- the trailing-zero removal loops.

A search specification (`SearchSpec`) states which kappa the searches must
find. `Fits(ctx, d)` holds when cutting the scaled upper boundary `z` at
`10^d` stays inside the interval. `Fits` is antitone in `d`. `Best` is the
largest fitting `d` in the window that the binary searches can reach.
`ExpectedResult` is the answer the algorithm must return. The entry point
`GrisuExact.Convert` is proved to return `ExpectedResult` for every finite,
nonzero input under every rounding mode.

The project also models the fixed-size bigint `bigint_impl` (from `bigint.h`):

- an array of 64-bit limbs, plus the position of the leading one (`element_pos`, `bit_pos`);
- each operation is a method of the class `BigIntImpl.BigInt`, which updates the limbs in place and is proved against the mathematical value `Value()` of the limbs;
- `operator*` and `long_division` are separate modules: `BigIntMul` and `BigIntDiv`.

Conventions:

- C++ unsigned words are `nat` subset types (`U32`, `U64`).
- Every wrap-around is written as a `% 2^w`.
- The limb value of a sequence is `LimbValues.Val`.
- `log2p1` is `LimbValues.BitLength`.

In `increasing_search`, the code uses lambdas 8, 4, 2, 1 for binary64 and
4, 2, 1 for binary32. `decreasing_search` uses 2, 1 for binary64 and 1 for
binary32. The model follows the code. The search windows that follow from
this are:

- binary64: `kappa-4 .. kappa+15`;
- binary32: `kappa-2 .. kappa+7`.

## Model

| member | source | states |
|---|---|---|
| WideMul.Umul128 | old_files/grisu_exact_backup2.h:60-85 | the 128-bit product has value x*y; its high and low words are the quotient and remainder of x*y by 2^64 |
| WideMul.PortablePath | old_files/grisu_exact_backup2.h:68-83 | the portable four-partial-product computation, with its 32-bit carries, yields exactly the high and low words of x*y |
| WideMul.Umul128Upper64 | old_files/grisu_exact_backup2.h:87-110 | the result is the upper 64 bits of x*y |
| WideMul.Upper64IsHighWord | old_files/grisu_exact_backup2.h:87-110 | umul128_upper64 agrees with the high word of umul128 |
| WideMul.Umul192Upper128 | old_files/grisu_exact_backup2.h:113-128 | the result is the upper 128 bits of the 192-bit product x*y |
| WideMul.Umul192Of | old_files/grisu_exact_backup2.h:113-128 | combining the two partial products with the carry yields floor(x*y / 2^64) |
| WideMul.Umul192Carry | old_files/grisu_exact_backup2.h:125-126 | the carry test `intermediate < g10` detects the wrap of the middle word, and adding it to g0.high cannot overflow |
| WideMul.Upper128Carry | old_files/grisu_exact_backup2.h:125-126 | the same carry argument, on the words of y |
| WideMul.Umul96Upper64 | old_files/grisu_exact_backup2.h:131-135 | the result is floor(x*y / 2^32) for a 32-bit x and a 64-bit y |
| WideMul.Upper64Of96 | old_files/grisu_exact_backup2.h:131-135 | the two partial products and their sum fit in 64 bits and equal floor(x*y / 2^32) |
| LogEstimates.FloorLog10Pow2 | old_files/grisu_exact_backup2.h:144-153 | the fixed-point formula equals floor(e*log10(2)) for abs(e) <= 2620 |
| LogEstimates.FloorLog2Pow10 | old_files/grisu_exact_backup2.h:157-166 | the fixed-point formula equals floor(e*log2(10)) for abs(e) <= 642 |
| LogEstimates.Log10Pow2Bracket | old_files/grisu_exact_backup2.h:144-153 | 10^r <= 2^e < 10^(r+1) for the computed r, for positive and negative e |
| LogEstimates.Log2Pow10Bracket | old_files/grisu_exact_backup2.h:157-166 | 2^r <= 10^e < 2^(r+1) for the computed r |
| LogEstimates.Log10FixedPoint | old_files/grisu_exact_backup2.h:148-152 | for positive e the multiply-and-shift equals the rational bound 643e/2136 and never lands on an exact multiple of 2^32 |
| LogEstimates.Log2FixedPoint | old_files/grisu_exact_backup2.h:161-165 | for positive e the integer part 3e plus the fractional multiply equals 485e/146 and is never exact |
| LogEstimates.FloorLog10Pow2Monotone | old_files/grisu_exact_backup2.h:144-153 | floor_log10_pow2 is monotone in e |
| LogEstimates.BetaInRange | old_files/grisu_exact_backup2.h:1416-1418 | for every exponent of either format, minus_k is within 642 in absolute value and beta = e + floor_log2_pow10(-minus_k) + 1 lies in 1..4 |
| LogEstimates.BetaOf | old_files/grisu_exact_backup2.h:1416-1418 | beta lies in 1..4 whenever minus_k and the log2 estimate are exact floors |
| CommonInfo.FormulaConstants | old_files/grisu_exact_backup2.h:174-222 | each derived constant satisfies its defining formula and the static_asserts of common_info hold |
| CommonInfo.ComputePower | old_files/grisu_exact_backup2.h:240-247 | the loop computes b^e modulo the word size |
| CommonInfo.PowersFitInWord | old_files/grisu_exact_backup2.h:249-252 | the powers of 5 and 10 that are tabulated fit in the word without wrapping |
| CacheTables.CacheTableSizes | old_files/grisu_exact_backup2.h:264-965 | each table has exactly max_k - min_k + 1 entries |
| CacheTables.GetCache | old_files/grisu_exact_backup2.h:968-973 | every index in min_k..max_k yields an entry of the right width with its top bit set |
| CacheTables.NormalizedRange | old_files/grisu_exact_backup2.h:264-965 | a normalised entry lies in [2^(w-1), 2^w) |
| MulHelper.ComputeMul | old_files/grisu_exact_backup2.h:987-997 | the integer part is the upper word of f*cache and integer part plus beta fraction bits equal the product shifted down by the cache precision minus beta |
| MulHelper.ComputeMul32 | old_files/grisu_exact_backup2.h:987-997 | binary32: integer part floor(f*c/2^64), beta fraction bits of the same product |
| MulHelper.ComputeMul64 | old_files/grisu_exact_backup2.h:1020-1028 | binary64: integer part floor(f*c/2^128), beta fraction bits of the same product |
| MulHelper.ComputeDelta | old_files/grisu_exact_backup2.h:999-1013 | the delta fits in q_mp_m1 + 1 integer bits and beta fraction bits and is the head of the cache shifted down |
| MulHelper.DeltaNormalCase | old_files/grisu_exact_backup2.h:999-1044 | in the normal case, delta equals the scaled product of the interval length 2^(q-p) with the cache, exactly |
| MulHelper.DeltaEdgeCase | old_files/grisu_exact_backup2.h:999-1044 | in the edge case (3/4 of the cache head), delta is within 1 of the scaled product of the edge interval length |
| MulHelper.DeltaLowerBound | old_files/grisu_exact_backup2.h:999-1044 | for a normalised cache entry the delta, with its beta fraction bits, is at least 2^(q+beta-1) in the normal case and 3*2^(q+beta-3) in the edge case |
| MulHelper.ScaledMonotone | old_files/grisu_exact_backup2.h:987-997 | the scaled product is monotone in the significand |
| MulHelper.ScaledGap | old_files/grisu_exact_backup2.h:987-997 | significands that differ enough give scaled products that differ by at least one |
| MulHelper.IntervalLengths | old_files/grisu_exact_backup2.h:202-205 | the interval length and boundary bits are the powers of two the delta computation assumes |
| Exactness.PowerOf5Exact | old_files/grisu_exact_backup2.h:1173-1175 | the tabulated power_of_5 equals 5^e for every index the integer checks use |
| Exactness.IsZ2SmallerThanDelta2 | old_files/grisu_exact_backup2.h:1180-1186 | true exactly when the scaled product of fminus is odd |
| Exactness.IsProductInteger | old_files/grisu_exact_backup2.h:1188-1273 | true exactly when the exponent is in the k >= 0 range, or in the table range and 5^minus_k divides f |
| Exactness.ProductIntegerMeaning | old_files/grisu_exact_backup2.h:1188-1273 | 10^k divides f*2^e exactly when 5^k divides f, which is the check the table range performs |
| Exactness.IsZ2SameAsDelta2 | old_files/grisu_exact_backup2.h:1275-1289 | for the edge-case fminus it is the exponent test, otherwise the product-integer test of fminus |
| Exactness.IsDeltaInteger | old_files/grisu_exact_backup2.h:1291-1302 | an integral left end needs exponent <= 3; every exponent accepted in the edge case is accepted in the normal case; the normal case accepts every exponent from zero_fractional_part_min_exponent_delta_normal to 3, and the edge case every exponent from zero_fractional_part_min_exponent_edge to 3 |
| Exactness.DeltaIntegerMeaning | old_files/grisu_exact_backup2.h:1291-1302 | for every exponent of the format, is_delta_integer holds exactly when the interval width fplus - fminus, scaled by 2^exponent * 10^(-minus_k) as z is, is an integer, that is, when the left end z - delta is integral |
| Exactness.MinusKOfExponent | old_files/grisu_exact_backup2.h:144-153 | on abs(e) <= 2620, floor_log10_pow2(e) is floor(643e/2136) for e >= 0 and -floor(643(-e)/2136) - 1 below 0 |
| FloatBits.FieldConstants | old_files/grisu_exact_backup2.h:174-205 | the masks are the powers of two of the IEEE layout: sign bit, exponent field, hidden bit, boundary bits |
| FloatBits.ExtractSignificand | old_files/grisu_exact_backup2.h:1311-1315 | the significand field is below the hidden bit and is what remains after the exponent and sign fields |
| FloatBits.FieldsRecombine | old_files/grisu_exact_backup2.h:1311-1339 | a bit pattern is the sum of its sign, exponent and significand fields |
| FloatBits.FieldsSeparate | old_files/grisu_exact_backup2.h:1311-1339 | composing fields and extracting them again gives the same fields |
| FloatBits.IsNonzero | old_files/grisu_exact_backup2.h:1321-1323 | true exactly when the exponent or the significand field is nonzero |
| FloatBits.IsPositive | old_files/grisu_exact_backup2.h:1337-1339 | true exactly when the sign bit is clear, the negation of is_negative |
| FloatBits.IsPositiveInfinity | old_files/grisu_exact_backup2.h:1341-1344 | true exactly for the non-finite pattern with an empty significand and a clear sign |
| FloatBits.IsNegativeInfinity | old_files/grisu_exact_backup2.h:1346-1350 | true exactly for the non-finite pattern with an empty significand and a set sign |
| FloatBits.IsInfinity | old_files/grisu_exact_backup2.h:1353-1355 | true exactly for a non-finite pattern with an empty significand |
| FloatBits.ClassificationPartition | old_files/grisu_exact_backup2.h:1317-1358 | every pattern is exactly one of finite, infinite or NaN, and subnormals are finite |
| FloatBits.GetNanPayload | old_files/grisu_exact_backup2.h:1380-1385 | the payload is below the quiet bit and together with it makes up the significand field |
| FloatBits.NanKinds | old_files/grisu_exact_backup2.h:1357-1378 | a NaN is quiet or signalling and never both |
| FloatBits.Decompose | old_files/grisu_exact_backup2.h:1389-1403 | the significand is the field shifted to the top of the word with the hidden bit for normal inputs; the exponent is the biased field (1 for subnormals) with the bias and the precision removed |
| FloatBits.SubnormalExponent | old_files/grisu_exact_backup2.h:1396-1403 | subnormal inputs share the binary exponent of the smallest normal exponent field |
| FloatBits.ExponentInRange | old_files/grisu_exact_backup2.h:1396-1403 | every finite input has an exponent in min_exponent..max_exponent |
| FloatBits.ComputeBoundaries | old_files/grisu_exact_backup2.h:1405-1411 | fplus is significand plus the boundary bit; the edge case is exactly a significand holding only the hidden bit; fminus is significand minus the boundary bit, or minus the edge-case bit in the edge case |
| FloatBits.BoundariesOfInput | old_files/grisu_exact_backup2.h:1392-1411 | for a finite nonzero input 0 < fminus < significand < fplus fit in the word, the edge case is a normal input with an empty significand field, and fplus is at least the interval length plus the boundary bit |
| RoundingModes.ContainBoundaries | old_files/grisu_exact_backup2.h:1094-1139 | nearest_fast includes both ends, and nearest_to_even includes both ends exactly for an even significand |
| RoundingModes.DirectedModesContainOneBoundary | old_files/grisu_exact_backup2.h:1101-1130 | toward-zero, downward and upward include exactly one end |
| RoundingModes.UpwardMirrorsDownward | old_files/grisu_exact_backup2.h:1108-1130 | upward includes the opposite end from downward |
| RoundingModes.DirectedModesBySign | old_files/grisu_exact_backup2.h:1108-1130 | which end downward and upward include is decided by the sign bit |
| SearchSpec.Best | old_files/grisu_exact_backup2.h:1456-1476 | the search target lies between the bottom of the search window and the given top |
| SearchSpec.BestCharacterised | old_files/grisu_exact_backup2.h:1456-1565 | the target is in the window, fits unless it is the bottom, nothing above it fits, and everything below a fitting target fits |
| SearchSpec.BestFromBracket | old_files/grisu_exact_backup2.h:1456-1565 | any k in the window that fits (or is the bottom) and whose successor does not fit (or is the top) is the target |
| SearchSpec.FitsAntitone | old_files/grisu_exact_backup2.h:1575-1667 | if cutting at 10^d2 stays inside the interval, so does cutting at any smaller power |
| SearchSpec.FitsMeaning | old_files/grisu_exact_backup2.h:1575-1667 | Fits(d) says that z rounded down to a multiple of 10^d is above the left end, or on it with the end included |
| SearchSpec.FitsNeedsDigits | old_files/grisu_exact_backup2.h:1575-1667 | a fitting cut keeps at least one nonzero digit |
| SearchSpec.ShrinkCharacterised | old_files/grisu_exact_backup2.h:1486-1506 | the trailing-zero removal stops at the first position where another digit cannot be dropped |
| SearchSpec.ContinueNeedsDigits | old_files/grisu_exact_backup2.h:1486-1506 | removal continues only while at least three digits remain above the cut |
| SearchSpec.QuotientFits | old_files/grisu_exact_backup2.h:1456-1565 | the significand for any kappa in the window fits in the word |
| SearchSpec.ExactQuotientPositive | old_files/grisu_exact_backup2.h:1477-1510 | an exact cut at 10^d0 stays exact at every smaller power and leaves a positive quotient |
| GrisuExact.PowerOf10Exact | old_files/grisu_exact_backup2.h:1177-1178 | the tabulated power_of_10 equals 10^e for every lambda and kappa used |
| GrisuExact.UpRemainder | old_files/grisu_exact_backup2.h:1429-1437 | the quotient and remainder of z11 by the divisor give z cut at 10^D |
| GrisuExact.UpCandidate | old_files/grisu_exact_backup2.h:1578-1622 | the comparisons of new_r with delta decide whether z mod 10^(D+lambda) is above or equal to delta, and on acceptance the state moves to D+lambda; new_r, computed even on rejection, is at most z11 and so never wraps |
| GrisuExact.TieVerdict | old_files/grisu_exact_backup2.h:1447-1452 | the tie test computes whether the left end belongs to the interval |
| GrisuExact.UpperProductInteger | old_files/grisu_exact_backup2.h:1486-1487 | the exactness test of fplus is the product-integer predicate |
| GrisuExact.IncreasingSearch | old_files/grisu_exact_backup2.h:1578-1622 | the step accepts exactly when kappa + lambda fits, updates the state to D+lambda, and keeps the memo coherent and unchanged once set; on acceptance the new quotient, remainder and divisor (`divisor *= power_of_10<lambda>`) stay at most z11, below 2^W |
| GrisuExact.UpSteps | old_files/grisu_exact_backup2.h:1456-1476 | the sequence of increasing steps ends at the target kappa |
| GrisuExact.UpwardSearch | old_files/grisu_exact_backup2.h:1456-1510 | starting from an initial kappa that fits, the upward path returns the expected result |
| GrisuExact.DecreasingSearch | old_files/grisu_exact_backup2.h:1627-1667 | the step stays exactly when kappa - lambda fits, otherwise moves the state down by lambda with the scaled digits appended; the new significand, r and delta1 stay below 2^W |
| GrisuExact.DownCompare | old_files/grisu_exact_backup2.h:1640-1667 | new_r compared with delta1 decides z mod 10^(D-lambda) against delta, and the moved state is the state at D-lambda, with delta1 <= r below 2^W |
| GrisuExact.DecreasingStep | old_files/grisu_exact_backup2.h:1640-1667 | the quotient and remainder of r by 10^(kappa-lambda) are the next digits and the remainder at D-lambda |
| GrisuExact.DownSteps | old_files/grisu_exact_backup2.h:1520-1528 | the sequence of decreasing steps keeps a consistent state and narrows to a bracket |
| GrisuExact.DownwardSearch | old_files/grisu_exact_backup2.h:1512-1565 | starting from an initial kappa that does not fit, the downward path returns the expected result |
| GrisuExact.LastDigitDown | old_files/grisu_exact_backup2.h:1530-1535 | the final one-digit step lands on the target kappa, below the initial kappa, with the right significand and remainder |
| GrisuExact.UpLoopTest | old_files/grisu_exact_backup2.h:1486-1500 | the loop test on the divisor and delta is the continuation condition of the removal |
| GrisuExact.UpLoopTestExact | old_files/grisu_exact_backup2.h:1486-1500 | when the divisor is exact, comparing it with delta11 compares 10^K with delta |
| GrisuExact.UpLoopTestSmall | old_files/grisu_exact_backup2.h:1486-1500 | when K is below beta the divisor and 10^K are both below delta |
| GrisuExact.ShrinkUp | old_files/grisu_exact_backup2.h:1477-1510 | the upward trailing-zero removal returns the significand one below the cut at the stopping point, with the exponent moved by the digits dropped |
| GrisuExact.DownLoopTest | old_files/grisu_exact_backup2.h:1537-1563 | the scaled loop test of the downward removal is the continuation condition |
| GrisuExact.ShrinkDown | old_files/grisu_exact_backup2.h:1537-1563 | the downward trailing-zero removal returns the same significand and exponent as the specification |
| GrisuExact.SplitAtInitialKappa | old_files/grisu_exact_backup2.h:1429-1437 | the divisor times 2^beta is 10^initial_kappa, and s and r are the quotient and remainder of z11 by it |
| GrisuExact.ChooseDirection | old_files/grisu_exact_backup2.h:1439-1456 | the direction is downward exactly when the initial kappa does not fit, and the memo is coherent |
| GrisuExact.DownStart | old_files/grisu_exact_backup2.h:1512-1518 | the downward state at the initial kappa is set up from r, z12 and delta |
| GrisuExact.FindKappa | old_files/grisu_exact_backup2.h:1429-1565 | the search returns the expected result for every valid context |
| GrisuExact.CacheIndexInRange | old_files/grisu_exact_backup2.h:1416-1422 | for every exponent of the format, -minus_k is a valid cache index |
| GrisuExact.TableIndexInRange | old_files/grisu_exact_backup2.h:1416-1422 | in the exactness table range, minus_k indexes the power_of_5 table |
| GrisuExact.DeltaAtLeast96 | old_files/grisu_exact_backup2.h:1424 | the integer part of delta is at least 96 |
| GrisuExact.DeltaInWord | old_files/grisu_exact_backup2.h:1424 | the integer part of delta fits in the word |
| GrisuExact.ProductAboveWidth | old_files/grisu_exact_backup2.h:1423-1424 | the scaled upper boundary exceeds the delta |
| GrisuExact.MinusK | old_files/grisu_exact_backup2.h:1416 | minus_k is the exact floor of log10(2^(e+1-alpha)) and indexes the cache |
| GrisuExact.Beta | old_files/grisu_exact_backup2.h:1417-1418 | beta lies between alpha and gamma |
| GrisuExact.ContextOf | old_files/grisu_exact_backup2.h:1416-1443 | the context built from an exponent and the boundaries is valid and keeps its inputs |
| GrisuExact.WithCache | old_files/grisu_exact_backup2.h:1421-1424 | with a normalised cache entry, z is the scaled product of fplus and delta the scaled product of the interval length, exactly or within 1 in the edge case |
| GrisuExact.ContextFromProducts | old_files/grisu_exact_backup2.h:1423-1424 | z and delta assembled from their integer and fraction parts give a valid context |
| GrisuExact.MakeContext | old_files/grisu_exact_backup2.h:1389-1443 | the context of a finite nonzero input carries its exponent, its boundaries and its rounding-mode flags |
| GrisuExact.Convert | old_files/grisu_exact_backup2.h:1389-1566 | the sign is the input's sign and the decimal is the expected result of the input's context under the rounding mode |
| LimbValues.BitLengthBounds | bigint.h:14-34 | log2p1 of x is zero exactly for zero, and otherwise 2^(n-1) <= x < 2^n |
| LimbValues.BitLengthUnique | bigint.h:14-34 | the bit length is the unique n with 2^(n-1) <= x < 2^n |
| LimbValues.ValLess | bigint.h:288-302 | limb sequences that agree above i and differ at i are ordered by that limb |
| LimbValues.ShiftRightValue | bigint.h:273-285 | the limb-wise right shift divides the value by 2^k |
| LimbValues.ShiftLeftWhole | bigint.h:256-268 | the limb-wise left shift multiplies the value by 2^k and moves the leading bit up by k |
| LimbValues.ShiftRightWhole | bigint.h:273-285 | the limb-wise right shift divides the value by 2^k and moves the leading bit down by k |
| LimbValues.AddLimbs | bigint.h:406-425 | the wrapped sum and the carry test give the exact limb sum |
| LimbValues.SubLimbs | bigint.h:484-497 | the wrapped difference and the borrow test give the exact limb difference |
| LimbValues.MulLimb | bigint.h:512-518 | low word plus carry, with the carry test, gives the exact product-plus-carry |
| BigIntImpl.Inspect | bigint.h:19-24 | one inspect step keeps ret plus the bit length of x unchanged and leaves x below 2^shft |
| BigIntImpl.Log2p1 | bigint.h:14-34 | the result is the bit length of x |
| BigIntImpl.BigInt.TopBit | bigint.h:41-44 | the leading-one position is the bit length of the value |
| BigIntImpl.BigInt.constructor | bigint.h:63-68 | the number holds x with the leading one at log2p1(x) |
| BigIntImpl.BigInt.PowerOf2 | bigint.h:70-82 | the result is a valid number with value 2^exp |
| BigIntImpl.BigInt.PropagateCarry | bigint.h:234-241 | the increment turns the run of all-ones limbs into zeros and adds one to the next limb |
| BigIntImpl.BigInt.Increment | bigint.h:234-251 | the value grows by one and the leading one is kept up to date |
| BigIntImpl.BigInt.ShiftLeft | bigint.h:256-268 | the value is multiplied by 2^shft and the leading bit moves up |
| BigIntImpl.BigInt.ShiftRight | bigint.h:273-285 | the value is divided by 2^shft and the leading bit moves down |
| BigIntImpl.BigInt.CompareCommon | bigint.h:288-302 | the result orders the values, or reports that they agree above limb 0 |
| BigIntImpl.BigInt.Less | bigint.h:305-315 | true exactly when the value is smaller |
| BigIntImpl.BigInt.LessEq | bigint.h:317-327 | true exactly when the value is at most n |
| BigIntImpl.BigInt.Greater | bigint.h:329-339 | true exactly when the value is larger |
| BigIntImpl.BigInt.GreaterEq | bigint.h:341-351 | true exactly when the value is at least n |
| BigIntImpl.BigInt.Equal | bigint.h:353-358 | true exactly when the values are equal |
| BigIntImpl.BigInt.NotEqual | bigint.h:360-366 | true exactly when the values differ |
| BigIntImpl.BigInt.LessLimb | bigint.h:368-372 | true exactly when the value is below the limb |
| BigIntImpl.BigInt.LessEqLimb | bigint.h:373-377 | true exactly when the value is at most the limb |
| BigIntImpl.BigInt.GreaterLimb | bigint.h:378-382 | true exactly when the value is above the limb |
| BigIntImpl.BigInt.GreaterEqLimb | bigint.h:383-387 | true exactly when the value is at least the limb |
| BigIntImpl.BigInt.EqualLimb | bigint.h:388-392 | true exactly when the value equals the limb |
| BigIntImpl.BigInt.NotEqualLimb | bigint.h:393-397 | true exactly when the value differs from the limb |
| BigIntImpl.BigInt.AddAssign | bigint.h:400-453 | the value becomes the sum, with the leading one recomputed |
| BigIntImpl.BigInt.AddLimb | bigint.h:455-472 | the value grows by the limb; the leading one moves up a limb exactly when the sum overflows the leading limb |
| BigIntImpl.BigInt.SubAssign | bigint.h:476-507 | the value becomes the difference, with the leading one found again |
| BigIntImpl.BigInt.MulLimbAssign | bigint.h:510-526 | the value is multiplied by the limb, with the leading one recomputed |
| BigIntImpl.BigInt.Multiply5 | bigint.h:173-231 | the value is multiplied by 5 through x*4 + x |
| BigIntImpl.BigInt.Multiply2Until | bigint.h:88-170 | the returned count r is the least number of doublings that makes the value at least n |
| BigIntImpl.BigInt.AlignLeading | bigint.h:93-136 | the leading one is moved to n's position and the value is multiplied by 2 to the distance moved |
| BigIntImpl.BigInt.AtLeastSameTop | bigint.h:139-147 | with the leading limbs at the same index, the scan decides value >= n |
| BigIntImpl.BigInt.DoubleOnceMore | bigint.h:150-167 | one more doubling happens exactly when the aligned value is still below n |
| BigIntImpl.MovedValue | bigint.h:97-107 | moving the limbs up by offset places multiplies the value by 2^(64 offset) |
| BigIntMul.CalculateSingle | bigint.h:536-550 | one row computes the limbs of x times a single limb, with the top carry stored |
| BigIntMul.Accumulate | bigint.h:559-570 | adding a row at limb offset i adds that row times 2^(64 i) to the result |
| BigIntMul.MultiplyRows | bigint.h:552-571 | summing all rows gives x*y |
| BigIntMul.Multiply | bigint.h:529-582 | the product is valid and equals x*y |
| BigIntMul.SingleLimbFactorLosesLimbs | bigint.h:529-582 | as written, 2^64 times 1 (with y holding one limb) gives 0 |
| BigIntMul.RowCarryLost | bigint.h:559-574 | as written, (2^64-1)(2^65-1) loses the carry into the third limb |
| BigIntMul.UninitialisedLimbRead | bigint.h:531-566 | as written, 2 times (2^64+3) is right only when the uninitialised result limb 1 happens to be zero |
| BigIntDiv.PerformSubtraction | bigint.h:598-621 | subtracting x from limb base_idx upwards removes its value and finds the new leading one |
| BigIntDiv.DivideSameTop | bigint.h:626-663 | when the leading ones coincide, the quotient is 0 or 1 and the division identity holds |
| BigIntDiv.SubtractOnce | bigint.h:632-648 | with the leading ones aligned and the number at least n, one subtraction leaves a remainder below n |
| BigIntDiv.ShiftedCopy | bigint.h:665-715 | n_shifted is n times 2^total, with its leading one aligned to this number |
| BigIntDiv.HalveShifted | bigint.h:722-759 | halving n_shifted divides it by 2 and leaves it between half the number and the number |
| BigIntDiv.CompareAndSubtract | bigint.h:717-787 | the compare-and-subtract step keeps the division identity and clears the number when it is used up |
| BigIntDiv.SetQuotientBit | bigint.h:766-772 | setting the quotient bit adds 2^t to the quotient |
| BigIntDiv.RecordAndSubtract | bigint.h:771-786 | recording the bit and subtracting keeps the division identity |
| BigIntDiv.Realign | bigint.h:792-834 | the realignment shrinks n_shifted to match the remainder or reports that the remainder is below n |
| BigIntDiv.BringDown | bigint.h:817-831 | the element and bit shifts divide n_shifted by the shift amount and align it with the remainder |
| BigIntDiv.ShiftAmounts | bigint.h:794-807 | the element and bit shift amounts split the distance between the leading ones |
| BigIntDiv.RealignLoop | bigint.h:789-835 | the loop ends with the division identity and a remainder below n |
| BigIntDiv.LongDivision | bigint.h:584-838 | the old value equals quotient times n plus the remainder, and the remainder is below n |
| BigIntDiv.HalvingSetsExtraBit | bigint.h:732-756 | as written, halving 3*2^64 sets an extra bit 62 in the lower limb |
| BigIntDiv.RealignKeepsStaleLimb | bigint.h:817-831 | as written, realigning n_shifted keeps a stale limb and its value is not the shifted value |

## Left out

- The compiler-intrinsic branches of `umul128`, `umul128_upper64` and `umul192_upper128` (MSVC `_umul128`/`__umulh` and `__int128`) are not modelled. Only the portable path is modelled, and the intrinsics compute the same value.
- `uint128` is modelled as a pair of words. The header that defines it on some platforms is not part of this model.
- The `memcpy` of the floating-point value into `bit_representation` is not modelled: the input is taken as its bit pattern.
- The reference quiet NaN of `is_quiet_nan` is a parameter of the model, since it is taken from `std::numeric_limits` at compile time. `std::bitset` is a `nat`.
- LogEstimates.FloorLog10Pow2: proved exact for abs(e) <= 2620, not for the full range of 65536 the source comments claim. The proof uses rational bounds on log10(2) that hold only that far. Every exponent the algorithm uses is within the proved range.
- LogEstimates.FloorLog2Pow10: proved exact for abs(e) <= 642, which covers every minus_k; the wider claim in the source is not proved.
- The cache tables prove only the structure: each entry is normalised and each table has the right length. That each entry is the correctly rounded power of ten is not proved, and neither is the claim that the output is the shortest correctly rounded decimal. The model proves that the output is the one that the search specification defines.
- The case handlers `assert_finite` and `ignore_special_cases` are not modelled separately. `assert_finite` contributes the "finite" half of the precondition of `GrisuExact.Convert`; `ignore_special_cases` asserts nothing, and its behaviour on infinities and NaNs is not modelled.
- GrisuExact.Convert: also requires a nonzero input, which the source never tests. At plus or minus zero the source computes `fminus` by a wrap-around and the interval arithmetic has no meaning; the source's output there is not modelled.
- BigIntImpl.BigInt.Multiply2Until: the element shift (`std::move_backward` and `fill_n`) followed by a left or right shift is modelled by `AlignLeading`. It reaches the same aligned limbs and value but spells the bit shift as this model's `ShiftLeft`/`ShiftRight`.
- BigIntImpl.BigInt.AddLimb: promises `Normalized` and the new leading limb, not `Valid`. When the sum does not overflow the leading limb, the source leaves `bit_pos` as it was, even though the leading limb has grown.
- BigIntMul.Multiply: the corrected product of the Findings below. It requires the leading limbs of both factors to fit, and it covers the single-limb factor.
- BigIntDiv.LongDivision: the construction of `n_shifted` (copy, then element and bit shift) is modelled through `CopyOf` and `AlignDown`. The halving step and the realignment use the corrected versions of the Findings.
- The test programs and `verify_delta_computation.cpp` are not part of this model.
- The `fp_t` and `signed_fp_t` result records are datatypes. Their use as return values by reference (`ret_value`) is modelled by returned values.

## Findings

| source | as written | input that shows it | evidently intended | confidence | as-written member | corrected member |
|---|---|---|---|---|---|---|
| bigint.h:529-582 | when y has a single limb, `result.leading_one_pos.element_pos` ends as `y.pos + temp.pos` = 0, and `fill_n` clears every limb above it | x = 2^64 (limbs [0,1,0]), y = 1 (limbs [1,0,0]) gives 0 | the product 2^64 | not executed | BigIntMul.SingleLimbFactorLosesLimbs | BigIntMul.Multiply |
| bigint.h:559-574 | the final carry of the accumulation of a row is asserted to be zero and dropped, so the result keeps only x.pos + y.pos + 1 limbs | x = 2^64-1, y = 2^65-1 (limbs [2^64-1,1,0]) gives limbs [1,2^64-3,0] | the three-limb product 2^128 + (2^64-3)*2^64 + 1 | not executed | BigIntMul.RowCarryLost | BigIntMul.Multiply |
| bigint.h:531-566 | `result` is not initialised beyond the first row, and the accumulation reads its limb above the first row's top | x = 2, y = 2^64+3 gives 6 + ((L+2) mod 2^64)*2^64, where L is the uninitialised limb 1 | the product 6 + 2*2^64 whatever the memory held | not executed | BigIntMul.UninitialisedLimbRead | BigIntMul.Multiply |
| bigint.h:732-756 | with `base_trailing_zeros == 0`, limb base-1 of `n_shifted` is first set to `limb[base] << 63`, then the loop ORs the shifted limb into it again | this = 2^65, n = 3: halving 3*2^64 gives limbs [0xC000000000000000,1,0] | 3*2^63, limbs [0x8000000000000000,1,0] | not executed | BigIntDiv.HalvingSetsExtraBit | BigIntDiv.HalveShifted |
| bigint.h:817-831 | the element shift moves limbs only up to the new leading limb, but the bit shift then reads the old, unmoved limb above it | this = 3*2^128 + 2^64, n = 3, three limbs: realigning 3*2^128 down by 65 bits gives [0x8000000000000000,0x8000000000000001,1] | 3*2^63, limbs [0x8000000000000000,1,0] | not executed | BigIntDiv.RealignKeepsStaleLimb | BigIntDiv.BringDown |
