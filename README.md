# decimal: a packed 64-bit decimal and a weight built on it

The Go package `decimal` stores a decimal number in one signed 64-bit word. The word's sign is the number's sign; the word stores the magnitude `|d|`, which has three fields:

- bit 62 is the **loss** bit, set when the number is inexact (written `~` in text);
- bits 57-61 hold a 5-bit signed **exponent** in [-16, 15];
- bits 0-56 hold the **mantissa**, at most `MaxInt` = 2^57 - 1.

A handful of words are named states rather than numbers:

- `Null`, the word 0: no value was set;
- `Zero`, the sign bit alone;
- the near-zeros: `~0`, and `+~0`/`-~0` (a lost value that was positive or negative);
- the two infinities;
- `NaN`.

Every operation decodes its operands into a tuple `(v, m, e)`, works on it, and normalizes the result back into a word:

- `v` holds the sign, the loss bit and a unit index;
- `m` is a 64-bit mantissa;
- `e` is a 64-bit exponent.

`math.MinInt64` and `math.MaxInt64` in `e` mark the near-zeros and the infinities. Arithmetic (`vmeAdd`, `vmeMul`, `vmeDivRem`) works on 128-bit intermediate products and rounds to nearest when the result needs more than 64 bits. The text parser (`vmeFromBytes`) and the formatter (`vmetBytes`) read and write the same tuples. `Weight` is the same word with 53 mantissa bits and a 4-bit unit index (bits 53-56) into a table of mass units, each with its factor to kilograms.

The model follows the source file by file:

| Dafny module | file | models |
|---|---|---|
| `Bits` | bits.dfy | uint64/int64 arithmetic, `bits.Mul64`/`bits.Div64`, the `tenPow` table |
| `Vmes` | vme.dfy | the `(v, m, e)` tuple, its kinds, values and the canonical form |
| `Decimals` | decimal.dfy | the word layout, `vme`, `vmeAsDecimal`, the predicates, `Neg`, `Abs`, the constructors, `IntPartErr` |
| `DecimalOps` | decimal_ops.dfy | `Add`, `Sub`, `Mul`, `Div`, `QuoRem`, `Mod` and the comparisons |
| `DecimalRounding` | decimal_round.dfy | `Round`, `RoundBank`, `RoundCeil`, `RoundFloor`, `Ceil`, `Floor` |
| `DecimalAggregates` | aggregate.dfy | `Sum`, `Min`, `Max` |
| `SumExample` | sum_example.dfy | `Sum(1, 1e30, 1, -1e30)`, the example of `Sum` and of `TestSumAvg` |
| `DecimalTexts` | decimal_text.dfy | `NewFromBytes`, `Bytes`, `String`, `MarshalJSON` |
| `Binary` | binary.dfy | `MarshalBinary`, `UnmarshalBinary` and the varint they use |
| `CoreNormalize` | normalize.dfy | `vmeNormalize`, `vmeNormalizeExponent`, `veNormalizeMagic` |
| `CoreReduce` | reduce.dfy | `vmhmeReduce` |
| `TenPowSearch` | search.dfy | the searches of `tenPow` in `vmhmeReduce` and `vmeAdd` |
| `CoreAdd` | add.dfy | `vmeAdd`, `vmeAddMagic1` |
| `CoreMul` | mul.dfy | `vmeMul`, `vmeMulMagic1` |
| `CoreDivRem` | divrem.dfy | `vmeDivRem`, `vmeDivRemMagic2` |
| `CoreRound` | round.dfy | `vmeRound`, `vmeRoundBank`, `vmeRoundCeil`, `vmeRoundFloor` |
| `Runes` | runes.dfy | the UTF-8 decoding, `unicode.ToLower` and `bytes.TrimSpace` the parser relies on |
| `Units` | units.dfy | `unitHash`, `vmeUnitOrMagicFromBytes` |
| `TextParse` | parse.dfy | `vmeFromBytes` |
| `TextFormat` | format.dfy | `vmetBytes`, `veMagicBytes` |
| `TextRoundTrip` | roundtrip.dfy | text written by `vmetBytes` read back by `vmeFromBytes` |
| `Weights` | weight.dfy | the unit table, `vmet`, `vmeAsWeight`, the constructors, the predicates, the text methods |
| `WeightOps` | weight_ops.dfy | `Add`, `Sub`, `Mul`, `Compare` and the comparisons of weights |

Words are `int64`, bytes are `byte` (both subset types of `int`). Go's wrapping arithmetic is written out with `Wrap64`, `Neg64`, `Inc64` and `Shl1`.

Where the source has a defect, the function carries a `fixed: bool` parameter (`VmeAddWith`, `VmeMulWith`, `QuoRemWith`, …). `fixed == false` is the code as written; `fixed == true` is the correction. The name without `With` is the corrected one, and the rest of the model uses it. Loops of the source are methods with invariants, each proved equal to the function that specifies it (`CoreAdd.Add`, `CoreNormalize.Normalize`, `TextParse.FromBytesScan`, `Units.UnitHash`, `Binary.PutUvarint`, …).

## Model

| member | source | states |
|---|---|---|
| Bits.TenPow | core.go:28-32 | entry i of the table is 10^i, for every index below 20, and lies in [1, 10^19] |
| Bits.Wrap64SumTests | core.go:802-806 | the two overflow tests on a wrapped sum e1 + e2 fire exactly when the true sum leaves the int64 range, above and below |
| Vmes.CanonicalUnique | core.go:34-37 | two canonical forms (no trailing zero unless the exponent is at its bound) of the same value are the same mantissa and exponent |
| Decimals.DecodeVme | decimal.go:119-144 | the tuple of a word has no unit, the word's sign, a mantissa of at most MaxInt, and an exponent in [-16, 15] or one of the two sentinels, the sentinel only without mantissa |
| Decimals.Mantissa | decimal.go:87-93 | the mantissa of a word is the mantissa of its tuple |
| Decimals.Exponent | decimal.go:96-116 | the exponent is the tuple's, with the sentinels reported as the int32 limits |
| Decimals.VmeAsDecimal | decimal.go:147-167 | encoding gives the word Null exactly for the tuple (0, 0, 0) |
| Decimals.DecodeEncode | decimal.go:147-167 | decoding an encoded tuple gives Null for (0, 0, 0), Zero for any other exact zero, and otherwise the normalized tuple with the sentinel exponents the word stores |
| Decimals.EncodeKeepsValue | decimal.go:147-167 | an encoded non-zero tuple keeps its sign and its value m * 10^e whenever the word is exact |
| Decimals.EncodeRepresentable | decimal.go:147-167 | a non-zero tuple whose value some word holds exactly encodes to a non-zero word with the tuple's sign, loss bit and value |
| Decimals.IntegerWord | decimal.go:119-144 | every integer of magnitude 1..MaxInt is its own word: it decodes to (sign, magnitude, 0) and encodes back to itself |
| Decimals.Constants | decimal.go:37-62 | Null, Zero, ~0, +~0, -~0, the infinities and NaN decode to the states they name and encode back to the same words |
| Decimals.IfNull | decimal.go:377-383 | a set word is returned unchanged; the result is set whenever either argument is |
| Decimals.ExactlyZeroIff | decimal.go:402-404 | IsExactlyZero holds exactly of Null and Zero |
| Decimals.Sign | decimal.go:482-488 | Sign is -1, 0 or 1 (EncodedPredicates says which) |
| Decimals.EncodedPredicates | decimal.go:412-488 | on every word an operation can return, IsZero holds exactly of the zero states; IsPositive and IsNegative read the sign of everything but the zeros (and NaN for IsPositive); Sign is 0 exactly for the zeros and -1 exactly for the negatives |
| Decimals.IsNaNIff | decimal.go:457-474 | with the exponent bound of line 470 corrected, IsNaN holds exactly of the words that decode to a NaN |
| Decimals.IsNaNMissesExponent14 | decimal.go:470 | as written, the NaN word 0x5c00… (exponent field 14) is neither NaN, infinite nor zero, and reads as positive |
| Decimals.IsInfiniteIff | decimal.go:449-451 | IsInfinite holds exactly of the words that decode to an infinity |
| Decimals.IsExactIff | decimal.go:417-419 | IsExact holds exactly when the decoded loss bit is clear |
| Decimals.IsIntegerIff | decimal.go:422-424 | IsInteger holds exactly of Zero and of the words from -MaxInt to MaxInt, the integers that are their own word |
| Decimals.Neg | decimal.go:243-249 | Null, Zero and ~0 are their own negation |
| Decimals.NegFlips | decimal.go:243-249 | on every other word negation flips the tuple's sign and keeps everything else; negating twice gives the word back, except for -~0 |
| Decimals.Abs | decimal.go:170-176 | the absolute value is Zero or non-negative, with the same magnitude |
| Decimals.New | decimal.go:688-697 | New never returns Null |
| Decimals.NewDenotes | decimal.go:688-697 | New(value, exp) is exactly value * 10^exp whenever the word is exact |
| Decimals.NewFromInt | decimal.go:700-718 | NewFromInt never returns Null |
| Decimals.NewFromIntIsNew | decimal.go:700-718 | NewFromInt(v) is New(v, 0), and is exactly v for every v from -MaxInt to MaxInt |
| Decimals.NewFromUint64 | decimal.go:721-731 | NewFromUint64 never returns Null |
| Decimals.NewFromUint64Denotes | decimal.go:721-731 | the word is exactly the value whenever it is exact, and always for values up to MaxInt |
| Decimals.NewFromInt32 | decimal.go:734-741 | NewFromInt32 never returns Null |
| Decimals.NewFromInt32Denotes | decimal.go:734-741 | every int32 is exactly its own word, the one NewFromInt gives |
| Decimals.IntPartTruncates | decimal.go:505-559 | with the infinity test corrected, IntPartErr returns the value truncated toward zero when its magnitude is at most MaxInt (2^57 - 1, the mantissa limit the source tests at decimal.go:537), and otherwise MinInt64 or MaxInt64 with the out-of-range error, even for a value such as 10^18 that an int64 could hold; NaN and the near-zeros give 0 with the error |
| Decimals.IntPartOfTruncates | decimal.go:514-558 | the same on tuples, past the integer shortcut |
| Decimals.IntPartOfInfinity | decimal.go:517-524 | as written, IntPartErr of +Inf is 0 with the error; corrected it is MaxInt64 |
| DecimalOps.NonNullDecimal | decimal.go:35 | the corrected packing never yields Null, and it agrees with vmeAsDecimal on every tuple but (0, 0, 0) |
| DecimalOps.PackedDiffersOnlyAtNull | decimal.go:147-167 | the corrected packing differs from the source's only where the source returns Null, and there it returns Zero |
| DecimalOps.Add | decimal.go:179-184 | the sum of two words is never Null |
| DecimalOps.Sub | decimal.go:187-189 | the difference of two words is never Null |
| DecimalOps.Mul | decimal.go:192-197 | the product of two words is never Null |
| DecimalOps.NullSumIsNull | decimal.go:179-189 | as written, Null + Null and Null - Null are Null; corrected they are Zero |
| DecimalOps.AddIntegers | decimal.go:179-184 | the sum of two integer words is the word of the integer sum whenever that sum is at most MaxInt in magnitude |
| DecimalOps.SubIntegers | decimal.go:187-189 | the same for the difference |
| DecimalOps.MulIntegers | decimal.go:192-197 | the same for the product |
| DecimalOps.Compare | decimal.go:263-273 | Compare is -1, 0 or 1 |
| DecimalOps.ComparisonsOnIntegers | decimal.go:263-302 | on integer words Compare is the sign of a - b, and Equal, GreaterThan, GreaterThanOrEqual, LessThan and LessThanOrEqual are =, >, >=, < and <= |
| DecimalOps.CompareExact | decimal.go:263-273 | for two words with mantissas whose difference is exact, Compare is the sign of the true difference, and Equal and GreaterThan compare the true values |
| DecimalOps.DivisionDefined | decimal.go:200-216 | Div never reaches the out-of-range index of vmeDivRem: any two words can be divided at DivisionPrecision |
| DecimalOps.Div | decimal.go:200-216 | the quotient is never Null |
| DecimalOps.DivRoundsToNearest | decimal.go:204-213 | rounding the quotient by its remainder lands within half a divisor of the exact dividend |
| DecimalOps.DivExactValue | decimal.go:200-216 | an exact quotient has a mantissa, the XOR of the signs, and is the true quotient: quotient times divisor is the dividend |
| DecimalOps.QuoRem | decimal.go:226-233 | neither the quotient nor the remainder is Null |
| DecimalOps.QuoRemIntegers | decimal.go:218-233 | on integers at precision 0, QuoRem gives Go's q = a / b and r = a % b: a == b * q + r, with r of the sign of a and below b in magnitude |
| DecimalOps.QuoRemOfZero | decimal.go:226-233 | Zero divided by a non-zero integer gives Zero and the remainder Zero |
| DecimalOps.ModIntegers | decimal.go:236-240 | on integers Mod is Go's a % b |
| DecimalOps.WrittenQuoRemNonZero | decimal.go:233 | as written, the remainder of two integers is built with the quotient's sign |
| DecimalOps.RemainderTakesQuotientSign | decimal.go:233 | as written, 4.QuoRem(-3, 0) is (-1, -1); corrected it is (-1, 1) |
| DecimalOps.ExactRemainderIsNull | decimal.go:233 | as written, an exact division of positive integers returns the remainder Null; corrected it is Zero |
| DecimalOps.ZeroQuotientIsNull | decimal.go:233 | as written, a positive quotient below one is Null; corrected it is Zero |
| DecimalRounding.Round | decimal.go:305-309 | the rounded word is never Null |
| DecimalRounding.RoundBank | decimal.go:356-360 | the rounded word is never Null |
| DecimalRounding.RoundCeil | decimal.go:317-321 | the rounded word is never Null |
| DecimalRounding.RoundFloor | decimal.go:336-340 | the rounded word is never Null |
| DecimalRounding.Ceil | decimal.go:312-314 | the rounded word is never Null |
| DecimalRounding.Floor | decimal.go:324-326 | the rounded word is never Null |
| DecimalRounding.RoundWordCorrect | decimal.go:305-360 | every word with a mantissa is either kept, when it has no digit past places, or rounded to a multiple of 10^-places as its mode says |
| DecimalRounding.RoundMagicWords | decimal.go:305-360 | NaN and the infinities pass through every rounding; Null, Zero and the near-zeros become Zero |
| DecimalRounding.RoundKeepsIntegers | decimal.go:305-360 | an integer word is kept by every rounding to places >= 0 |
| DecimalRounding.RoundBankHalfIsNull | decimal.go:356-360 | as written, 0.5 rounded to even at places 0 is Null; corrected it is Zero |
| CoreRound.RoundCorrect | core.go:927-1089 | in every mode, a tuple with digits past places is rounded to a neighbouring multiple of 10^-places as the mode says, and one without such digits is kept |
| CoreRound.RoundNearest | core.go:927-962 | vmeRound keeps a tuple without digits past places, and otherwise rounds to the nearest multiple of 10^-places, ties toward +infinity |
| CoreRound.RoundBankNearest | core.go:964-999 | vmeRoundBank keeps a tuple without digits past places, and otherwise rounds to the nearest multiple, ties to even |
| CoreRound.RoundCeilBound | core.go:1001-1042 | vmeRoundCeil gives the least multiple of 10^-places not below the value |
| CoreRound.RoundFloorBound | core.go:1044-1089 | vmeRoundFloor gives the greatest multiple of 10^-places not above the value |
| CoreRound.RoundMagic | core.go:927-962 | NaN and the infinities are not rounded; an exact zero and the near-zeros become Zero |
| CoreRound.RoundIdempotent | core.go:927-1089 | rounding twice to the same places is rounding once |
| CoreRound.RoundLandsStable | core.go:927-1089 | every rounded tuple has no digit past places |
| CoreRound.RoundNeverNull | core.go:983-990 | with the guard extended, no mode returns the tuple (0, 0, 0) |
| CoreRound.RoundTies | core.go:927-1089 | 2.5 and -2.5 at places 0 give 3 and -2 (nearest), 2 and -2 (bank), 3 and -2 (ceil), 2 and -3 (floor) |
| CoreRound.RoundSlips | core.go:1035-1037 | as written, 0.5 bank-rounded at places 0 is (0, 0, 0), 1e-16 ceiled at places -4 is Zero and -1e-16 floored at places -4 is Zero (core.go:1082-1084); corrected they are Zero, 1e4 and -1e4 |
| CoreNormalize.VeNormalizeMagic | core.go:166-181 | a tuple without mantissa keeps its unit and gets an exponent within bounds; an exact one becomes (v, 0, 0); an inexact one keeps its loss and its exponent when within bounds, and at exponent 0 becomes ~0 |
| CoreNormalize.IntegerShortcut | core.go:63-87 | the shortcut returns only an integer of at most maxM with the tuple's value, non-zero when the mantissa is, and only for exact tuples |
| CoreNormalize.ShortcutIffFits | core.go:63-87 | the shortcut fires exactly for exact values that are integers of at most maxM |
| CoreNormalize.NormalizeLoop | core.go:89-108 | the loop leaves a mantissa of at most maxM with no trailing zero (unless the exponent is past maxE), keeps sign and unit, never clears the loss bit, and drops a non-zero mantissa only by setting the loss bit |
| CoreNormalize.VmeNormalizeExponent | core.go:114-164 | the exponent ends within bounds, the mantissa stays within maxM, and an exact result has the tuple's value |
| CoreNormalize.VmeNormalize | core.go:59-112 | the result is within both bounds, keeps the unit and the sign, never clears the loss bit, keeps exact integers at exponent 0, and loses a mantissa only to a bound |
| CoreNormalize.Normalize | core.go:59-112 | the loop as the source runs it computes VmeNormalize |
| CoreNormalize.NormalizeExact | core.go:59-112 | an exact normalized tuple has the value of the input |
| CoreNormalize.NormalizeCanonical | core.go:34-37 | an exact non-zero value normalizes, when exact, to its canonical form |
| CoreNormalize.NormalizeUnique | core.go:34-37 | two exact tuples of the same value, sign and unit normalize to the same tuple |
| CoreNormalize.NormalizeRepresentable | core.go:59-164 | a non-zero tuple whose value some m0 * 10^e0 with 1 <= m0 <= maxM and minE <= e0 <= maxE holds normalizes without rounding: same sign, unit and loss bit, a non-zero mantissa, the same value |
| CoreNormalize.NormalizeExponentOverflow | core.go:144 | as written, 144115188075855871e16 normalizes to a mantissa above MaxInt at exponent 15; corrected it is the infinity |
| CoreReduce.VmhmeReduceWith | core.go:183-230 | a zero high word leaves the tuple unchanged; sign and unit are kept and the loss bit is never cleared |
| CoreReduce.ReduceRaises | core.go:183-230 | the reduction raises the exponent by at most 20 |
| CoreReduce.ReduceExact | core.go:183-230 | an exact reduction is the 128-bit mantissa divided by a power of ten without remainder |
| CoreReduce.ReduceRoundsToNearest | core.go:183-230 | below 10^18 * 2^64 the reduction rounds the 128-bit mantissa to the nearest multiple of the power of ten it divides by |
| CoreReduce.ReduceRoundingOverflow | core.go:194 | as written, the 128-bit mantissa 99999999999 * 2^64 + 18446744061785396229, divided by 10^11, rounds up to 2^64 and wraps to the mantissa 0; corrected it is 2^64 / 10 rounded, one place higher |
| CoreReduce.Reduce | core.go:183-230 | the method with the tenPow scan computes VmhmeReduce |
| CoreReduce.RoundDivided | core.go:186-198 | the first step computes the division by 10^i, i the digit count of the high word, rounded to nearest |
| CoreReduce.ReduceTwoSteps | core.go:203-227 | the second step computes the two-step reduction of a high word of at least 10^19 |
| TenPowSearch.ScanTenPow | core.go:185-199 | the scan finds an index exactly when x < 10^19, and the index is the digit count of x |
| TenPowSearch.BisectStep | core.go:654-676 | a bisection step narrows [i, j] and keeps 10^(i-1) <= h < 10^j |
| TenPowSearch.BisectTenPow | core.go:651-693 | bisection and scan find the digit count of h |
| TenPowSearch.ScanRange | core.go:678-693 | the scan over the candidates left by the bisection finds the digit count of h |
| CoreAdd.VmeAddMagic1 | core.go:565-608 | a NaN on the left is returned; an infinity on the left absorbs an operand with a mantissa; a zero or near-zero on the left, against an operand with a mantissa or a loss, gives an inexact result carrying that mantissa |
| CoreAdd.VmeAddWith | core.go:610-728 | an inexact operand makes the sum inexact |
| CoreAdd.AddOrdinary | core.go:636-727 | two operands with mantissas give an inexact sum if either is inexact, in the unit of one of them |
| CoreAdd.Add | core.go:610-728 | the method as the source runs it (swap, magic operands, alignment, bisection, carry) computes VmeAdd |
| CoreAdd.AddAligned | core.go:636-697 | aligning the operands computes the ordinary sum |
| CoreAdd.AddShiftedBy | core.go:644-700 | scaling the mantissa of the larger exponent by 10^d computes the shifted sum |
| CoreAdd.AddDivided | core.go:646-693 | when the scaled mantissa needs more than 64 bits, the division of both mantissas computes the divided sum |
| CoreAdd.SumDivided | core.go:683-693 | the quotients are combined and a remainder sets the loss bit |
| CoreAdd.Sum | core.go:698-725 | the aligned mantissas are added or subtracted as Combine says |
| CoreAdd.AddExact | core.go:610-728 | an exact sum of two operands with mantissas is the true sum, counted at the lower exponent |
| CoreAdd.AddSameSign | core.go:704-711 | same-signed operands at one exponent whose mantissas add below 2^64 give the sum of the mantissas |
| CoreAdd.AddCancels | core.go:721-724 | operands that cancel give the negative exact zero in the first operand's unit |
| CoreAdd.AddZeroRight | core.go:630-635 | an exact zero on the right leaves the other operand unchanged |
| CoreAdd.AddZeroLeft | core.go:620-627 | an exact zero on the left gives the other operand in the left operand's unit |
| CoreAdd.AddKeepsUnit | core.go:610-728 | operands of one unit give a sum in that unit, unless it is ~0 or NaN |
| CoreAdd.AddCommutes | core.go:610-728 | the sum of two operands with mantissas in one unit does not depend on their order |
| CoreAdd.AddNaN | core.go:599-606 | a NaN operand makes the sum NaN |
| CoreAdd.AddOppositeInfinities | core.go:592-596 | +Inf + -Inf is NaN |
| CoreAdd.AddInfinityLeft | core.go:589-604 | an infinity absorbs every operand but NaN and the opposite infinity |
| CoreAdd.AddInfinityRight | core.go:589-604 | with the infinity on the right, the sum is an infinity of the same sign |
| CoreAdd.AddNearZero | core.go:581-587 | a near-zero plus an operand with a mantissa gives that operand, inexact |
| CoreAdd.AddNearZeros | core.go:572-577 | same-signed near-zeros are kept and opposite ones give ~0 |
| CoreAdd.AddCarryWraps | core.go:706 | as written, MaxInt + 18446744073709551e3 wraps past 2^64; corrected the carry is kept and the sum is rounded one place higher |
| CoreMul.VmeMulMagic1 | core.go:730-785 | a magic left operand gives a result without mantissa or unit, inexact unless it is Zero; a NaN on the left gives NaN |
| CoreMul.VmeMulWith | core.go:787-821 | two operands with mantissas give the XOR of the signs, the left unit, and a loss bit whenever either is inexact |
| CoreMul.MulExact | core.go:787-821 | an exact product of operands with mantissas is the product of the mantissas at exponent e1 + e2, divided by a power of ten without remainder |
| CoreMul.MulExponent | core.go:787-821 | the product of two operands with mantissas has a mantissa, at an exponent from e1 + e2 to e1 + e2 + 20 |
| CoreMul.MulRoundsToNearest | core.go:787-821 | a product needing more than 64 bits (below 10^18 * 2^64) is rounded to the nearest |
| CoreMul.MulExponentOverflow | core.go:802-806 | when e1 + e2 leaves the int64 range the product is the signed infinity or the signed near-zero |
| CoreMul.MulCommutes | core.go:787-821 | with the zero case corrected, the product of one unit does not depend on the order |
| CoreMul.MulNaN | core.go:730-785 | NaN times anything, in either order, is NaN |
| CoreMul.MulInfinityByZero | core.go:735-740 | infinity times a zero or a near-zero, in either order, is NaN |
| CoreMul.MulInfinity | core.go:730-785 | infinity times an ordinary value or an infinity is the infinity of the product's sign |
| CoreMul.MulNearZero | core.go:730-785 | a near-zero times an ordinary value or a signed near-zero stays a near-zero: ~0 stays ~0, a signed one takes the sign of the product |
| CoreMul.MulByZero | core.go:789-803 | an exact zero times an ordinary value or a zero, in either order, is Zero |
| CoreMul.MulZeroAsymmetry | core.go:789-795 | as written, Zero * NaN and Zero * Inf are Zero while NaN * Zero and Inf * Zero are NaN; corrected both are NaN |
| CoreDivRem.VmeDivRemMagic2With | core.go:824-861 | a magic divisor gives a quotient without mantissa or unit, inexact, and no remainder; a NaN divisor gives NaN |
| CoreDivRem.ScaleDividend | core.go:896-911 | the scaled dividend is m1 * 10^k divided by 10^shift, with a high word below the divisor, and the loss bit set when the division left a remainder |
| CoreDivRem.ScaleDividendScan | core.go:896-911 | the method with the tenPow scan computes ScaleDividend |
| CoreDivRem.VmeDivRemWith | core.go:863-925 | the quotient of two operands with mantissas has the XOR of the signs, no unit, and a loss bit whenever either is inexact |
| CoreDivRem.DivOrdinary | core.go:882-922 | the same for the ordinary branch |
| CoreDivRem.RescaleQuotient | core.go:916-921 | rescaling keeps v and the exponent and never raises the mantissa |
| CoreDivRem.DivRemDefinedIff | core.go:916-921 | the tenPow index of line 918 stays in range exactly when e1 - e2 + precision > -20 |
| CoreDivRem.QuotientExponent | core.go:863-925 | the quotient's exponent lies from e1 - e2 - 19 to e1 - e2 |
| CoreDivRem.DivRemOutOfRange | core.go:918 | QuoRem(1, 1, -20) indexes tenPow[20] |
| CoreDivRem.DivMain | core.go:882-922 | with e1 - e2 + precision >= 0, vmeDivRem is the scaled dividend divided by m2, the remainder placed at the exponent given by `fixed` |
| CoreDivRem.DivBounds | core.go:882-922 | in the main division the remainder is below the divisor, the quotient exponent is at least -precision and the remainder exponent is that of q * m2 |
| CoreDivRem.DivExact | core.go:882-922 | without loss, quotient times divisor plus remainder is the dividend |
| CoreDivRem.DivRemainderExponent | core.go:885-891 | as written, 1 / 3 at precision 30 places the remainder 1 at 10^-30 instead of 10^-19 |
| CoreDivRem.DivByZero | core.go:865-870 | an exact-zero divisor gives NaN |
| CoreDivRem.DivOfZero | core.go:877-878 | an exact-zero dividend over an ordinary divisor gives Zero |
| CoreDivRem.DivNaN | core.go:824-861 | a NaN operand or a ~0 divisor gives NaN |
| CoreDivRem.DivByNear | core.go:828-841 | dividing an ordinary value or an infinity by ±~0 gives the signed infinity; a zero or near-zero over ±~0 gives NaN |
| CoreDivRem.DivByInfinity | core.go:842-857 | dividing an ordinary value or ±~0 by an infinity gives the signed near-zero; a zero gives ~0; an infinity gives NaN |
| CoreDivRem.DivMagicDividend | core.go:876 | a magic dividend over an ordinary divisor keeps its kind, signed by the quotient |
| CoreDivRem.DivNearByInfinitySign | core.go:848 | as written, -~0 / +Inf is +~0; corrected it is -~0 |
| Runes.DecodeRune | core.go:393 | utf8.DecodeRune reads 1 to 4 bytes; an ASCII byte is its own rune, and a one-byte result is ASCII or RuneError |
| Runes.EncodeRune | core.go:393 | a valid rune is encoded in 1 to 4 bytes |
| Runes.DecodeEncoded | core.go:393 | decoding reads back every encoded rune, whatever follows it |
| Runes.ToLower | core.go:390 | lowering keeps blanks blank, valid runes valid and Latin-1 runes Latin-1 |
| Runes.ToLowerIdempotent | core.go:390 | lowering twice is lowering once |
| Runes.TrimAround | core.go:237-247 | TrimSpace removes exactly the surrounding blanks of a text that starts and ends with a non-blank ASCII byte |
| Units.UnitHash | core.go:388-403 | the loop over the runes computes the hash function UnitHashOf |
| Units.HashIgnoresSpaceAndCase | core.go:388-403 | texts with the same lowered runes, blanks aside, hash alike |
| Units.HashOfWord | core.go:388-403 | a word of lower-case letters hashes to its base-257 value while that fits |
| Units.MagicHashes | core.go:430-448 | the constants of the switch are the hashes of on, yes, no, off, nan, nil, null and inf |
| Units.UnitMatchIsFirst | core.go:408-426 | the first table entry whose name hashes alike is the one found |
| Units.UnitMatchNone | core.go:408-426 | without such an entry nothing is found |
| Units.FindUnit | core.go:408-426 | the loop over the unit table computes UnitMatch |
| Units.MagicOrError | core.go:428-451 | the switch either reads a magic word without error or returns ErrUnitSyntax with the tuple unchanged |
| Units.UnitOrMagicFromBytes | core.go:406-455 | the method computes UnitOrMagic |
| Units.UnitOrMagicCases | core.go:406-455 | a blank suffix changes nothing; a unit name ORs in its unit bits and keeps the number; any other suffix after a mantissa is ErrUnitSyntax |
| Units.BlankHashesToZero | core.go:388-403 | blank text hashes to 0 |
| Units.MagicWordsRead | core.go:428-451 | on a zero mantissa and no unit table, each magic word is read without error as the switch says |
| TextParse.DigitStep | core.go:296-317 | with the overflow test corrected, a digit that no longer fits leaves the mantissa and the sign as they were and sets the loss bit exactly when it drops a non-zero digit, before or after the '.' |
| TextParse.ExpDigits | core.go:349-352 | the exponent digits stop at the first byte that is not a digit |
| TextParse.Exponent | core.go:332-359 | with the guard corrected, an exponent mark never reads past the end |
| TextParse.ScanLoop | core.go:293-365 | with both corrections, the scan never reads past the end, and stops inside the text |
| TextParse.ZeroFixed | core.go:367-381 | a mantissa is kept; an exact zero with digits becomes Zero; an inexact zero after a sign becomes the signed near-zero |
| TextParse.Bounds | core.go:237-247 | the bounds lie inside the text and cut as many bytes at the end as at the start (one pair of quotes or none) |
| TextParse.SignPrefix | core.go:249-289 | the prefix '~', sign, '~' takes at most three bytes |
| TextParse.Tail | core.go:293-384 | with both corrections, the scan, the zero fix-up and the unit suffix always give a result |
| TextParse.FromBytesWith | core.go:233-385 | with both corrections vmeFromBytes always gives a tuple and an error, never a panic |
| TextParse.ScanExponent | core.go:332-359 | the method computes Exponent |
| TextParse.ExponentDigits | core.go:349-352 | the method computes ExpDigits |
| TextParse.ScanNumber | core.go:293-365 | the method computes ScanLoop |
| TextParse.FromBytesScan | core.go:233-385 | the method computes FromBytes |
| TextParse.SignedScan | core.go:249-384 | the method computes Signed |
| TextParse.PrefixScan | core.go:249-289 | the method computes SignPrefix |
| TextParse.TailScan | core.go:293-384 | the method computes Tail |
| TextParse.SecondDotIsSyntaxError | core.go:322-327 | digits, '.', digits and a second '.' give ErrSyntax and Null, whatever follows |
| TextParse.ParseInteger | core.go:233-385 | an optional '-' and digits whose value fits in 64 bits read as that integer at exponent 0 |
| TextParse.ParseFraction | core.go:233-385 | an optional '-', digits x, '.', digits y read as the mantissa xy at exponent -\|y\|, or Zero |
| TextParse.LossyFraction | core.go:249-289 | '~' before such a fraction sets the loss bit and changes nothing else |
| TextParse.LossyInteger | core.go:249-289 | '~' before such an integer sets the loss bit and changes nothing else |
| TextParse.DigitOverflow | core.go:302-303 | as written, the digit that carries the mantissa past 2^64 leaves the wrapped remainder as mantissa; corrected the mantissa is kept, inexact, one place higher |
| TextParse.TwoTo64Digits | core.go:302-303 | the text 18446744073709551616 is such an input |
| TextParse.OverflowReads | core.go:296-317 | digits past the first that does not fit are counted in the exponent: the tuple read is the truncation of the text's value, inexact exactly when a dropped digit is not zero |
| TextParse.OverflowTuple | core.go:249-317 | an optional '-', digits x that fit in 64 bits, a digit that does not and more digits z read as x at exponent \|z\| + 1 with the sign, inexact exactly when a dropped digit is not zero |
| TextParse.LossyOverflow | core.go:249-317 | the same text after '~' reads as the same mantissa and exponent, inexact |
| TextParse.FractionOverflowReads | core.go:296-317 | with the loss test corrected, digits x, '.', digits y that still fit, then a digit that does not and more digits read as the mantissa xy at exponent -\|y\|: the text's value cut to those digits, inexact exactly when a dropped digit is not zero |
| TextParse.FractionDropAsWritten | core.go:311 | as written, such a text reads as an exact tuple whatever the digits dropped after the '.'; corrected it is inexact exactly when one of them is not zero |
| TextParse.ExponentMarkAtEnd | core.go:333 | as written, an exponent mark as the last byte reads past the end (a panic); corrected it is read as a unit suffix, ErrUnitSyntax |
| TextFormat.MagicText | core.go:533-563 | with extended output the infinities are written +Inf and -Inf; without it a magic tuple is "0" or "null" |
| TextFormat.DecimalText | core.go:476-494 | the n lowest digits of m are n ASCII digits |
| TextFormat.LeadingDigit | core.go:485 | below 10^(i+1) the leading digit is the quotient by 10^i, followed by the digits of the remainder |
| TextFormat.TrailingZeros | core.go:496-503 | at places 0 the zeros appended are e for e > 0, and none otherwise |
| TextFormat.MantissaDigits | core.go:476-494 | the twenty digits of a mantissa read back as the mantissa |
| TextFormat.AppendDigits | core.go:476-494 | the digit loop appends DigitText of the twenty digits |
| TextFormat.AppendTrailingZeros | core.go:496-503 | the zero loops append TrailingZeros zeros |
| TextFormat.AppendTuple | core.go:460-529 | vmetBytes appends TupleText |
| TextFormat.AppendBody | core.go:465-519 | the body appends TupleBody |
| TextFormat.AppendMantissa | core.go:465-503 | the branch with a mantissa appends MantissaText |
| TextFormat.AppendZero | core.go:509-517 | an exact zero is "0", then '.' and places zeros when places > 0 |
| TextRoundTrip.IntegerRoundTrip | core.go:460-529 | an exact unitless tuple with an exponent of 0 or more whose value fits in 64 bits is written so that it reads back as its value at exponent 0 |
| TextRoundTrip.FractionRoundTrip | core.go:460-529 | an exact unitless tuple with an exponent from -20 to -1 reads back as itself |
| TextRoundTrip.LossyFractionRoundTrip | core.go:460-529 | an inexact unitless tuple with an exponent from -20 to -1, written with extended output, reads back as itself |
| TextRoundTrip.LossyIntegerRoundTrip | core.go:460-529 | an inexact unitless tuple with an exponent of 0 or more whose value fits in 64 bits reads back as its value at exponent 0, inexact |
| TextRoundTrip.ScaledRoundTrip | core.go:233-529 | an exact unitless tuple with an exponent from 0 to 2^62 - 1 reads back exact, with its sign and its value however large: as the integer m * 10^e at exponent 0 when that fits in 64 bits, otherwise as its digits and the zeros that fit, the others counted in the exponent |
| TextRoundTrip.LossyScaledRoundTrip | core.go:233-529 | the same for an inexact tuple written with extended output: it reads back inexact, with its sign and its value |
| TextRoundTrip.InfRoundTrip | core.go:533-563 | +Inf and -Inf read back as themselves when no unit is named inf |
| TextRoundTrip.NaNRoundTrip | core.go:533-563 | every NaN reads back as the parser's NaN when no unit is named nan |
| TextRoundTrip.NearRoundTrip | core.go:533-563 | +~0 and -~0 read back as themselves |
| TextRoundTrip.NearZeroRoundTrip | core.go:533-563 | ~0 reads back as ~0 |
| DecimalTexts.NewFromBytes | decimal.go:859-865 | an error gives Null; without error the word is Null exactly when the text reads as the tuple (0, 0, 0) |
| DecimalTexts.IntegerBytesRoundTrip | decimal.go:924-933 | every integer word other than Null from -MaxInt to MaxInt is written by Bytes and String as text that NewFromBytes reads back as the same word |
| DecimalTexts.FractionBytesRoundTrip | decimal.go:924-933 | an exact word with a negative exponent reads back as its own tuple, and NewFromBytes gives an exact non-zero word of the same sign and value |
| DecimalTexts.ScaledBytesRoundTrip | decimal.go:924-933 | an exact word with a positive exponent reads back without error, however large its value, as an exact non-zero word of the same sign and value |
| DecimalTexts.LossyBytesRoundTrip | decimal.go:924-933 | an inexact word reads back as an inexact non-zero word of the same sign and value, encoded from a tuple of that value |
| DecimalTexts.NullBytesRoundTrip | decimal.go:924-933 | Null is written as nothing, which reads back as Null |
| DecimalTexts.ZeroStringRoundTrip | decimal.go:915-921 | String writes Null and Zero as "0", which reads back as Zero |
| DecimalTexts.InfinityBytesRoundTrip | decimal.go:924-933 | the infinities read back as themselves |
| DecimalTexts.NaNBytesRoundTrip | decimal.go:924-933 | NaN reads back as NaN |
| DecimalTexts.NearZeroBytesRoundTrip | decimal.go:924-933 | ~0, +~0 and -~0 read back as themselves |
| DecimalTexts.MarshalJSONIsPlain | decimal.go:936-940 | JSON output is Bytes without the '~' of an inexact word; a word without mantissa is "0" or "null" |
| DecimalTexts.ExtendedMarks | core.go:460-529 | extended output only adds the '~' in front of an inexact mantissa |
| DecimalTexts.MarshalJSONMagic | decimal.go:936-940 | Null, Zero and the near-zeros are "0"; NaN and the infinities are "null" |
| Binary.PutUvarint | decimal.go:969-994 | the method writes exactly the varint bytes of x at the offset and leaves the rest of the buffer unchanged |
| Binary.VarintRoundTrip | decimal.go:943-966 | the varint read from the front of the bytes written for a value is that value, whatever follows |
| Binary.Uvarint | decimal.go:943-966 | the reading loop computes the varint at index 0 |
| Binary.MarshalBinary | decimal.go:969-994 | the method computes Marshalled |
| Binary.MarshalRoundTrip | decimal.go:943-994 | unmarshalling the marshalled bytes gives every word back |
| Binary.MarshalShape | decimal.go:969-994 | the bytes are 1 to 10 long; a single byte exactly when the mantissa is 0; bit 0 of the first byte says whether a mantissa follows; the last byte of a longer form ends the varint |
| Binary.MarshalZeros | decimal_test.go:1263-1302 | Null, Zero, ~0, +~0 and -~0 marshal to 0x00, 0x80, 0xc0, 0x60 and 0xe0 |
| Binary.MarshalNumbers | decimal_test.go:1304-1326 | 100, -320 and 1.01 marshal to the bytes the tests list |
| Binary.UnmarshalExamples | decimal_test.go:1217-1261 | the test buffers unmarshal to the words the tests expect, and the empty buffer is an error |
| Binary.UnmarshalBinary | decimal.go:943-966 | the method computes Unmarshalled |
| DecimalAggregates.Min | decimal.go:835-845 | the loop computes MinFold |
| DecimalAggregates.Max | decimal.go:848-856 | the loop computes MaxFold |
| DecimalAggregates.FoldsPickAnArgument | decimal.go:835-856 | Min and Max always return one of their arguments |
| DecimalAggregates.MinOfIntegers | decimal.go:835-845 | on integer words Min returns the word of the least integer |
| DecimalAggregates.MaxOfIntegers | decimal.go:848-856 | on integer words Max returns the word of the greatest integer |
| DecimalAggregates.Sum | decimal.go:810-827 | the loop computes the running sum plus its compensation |
| DecimalAggregates.SumOfIntegers | decimal.go:810-827 | on integers whose magnitudes add up to at most MaxInt, Sum is the word of the integer sum |
| SumExample.NewBig | decimal.go:688-697 | 1e30 and -1e30 are New(1, 30) and New(-1, 30), stored as the mantissa 10^15 at exponent 15 |
| SumExample.AddOneAndBig | core.go:640-700 | 1 plus 1e30, of any signs and loss bits: the mantissas are divided by 10^11, the 1 is lost, the loss bit is set and the sign is that of 1e30 |
| SumExample.FirstStep | decimal.go:814-824 | with sum 1 and item 1e30, 1 is below 1e30, so the second branch runs: sum becomes ~1e30 and the compensation (1e30 - ~1e30) + 1 = ~1 |
| SumExample.SecondStep | decimal.go:814-824 | with sum ~1e30 and item 1, the first branch runs: sum stays ~1e30 and (~1e30 - ~1e30) + 1 = ~1 brings the compensation to ~2 |
| SumExample.ThirdStep | decimal.go:814-824 | with sum ~1e30 and item -1e30, the first branch runs: sum becomes ~0 and the compensation stays ~2 |
| SumExample.SumCompensates | decimal.go:806-827 | Sum(1, 1e30, 1, -1e30) ends with sum ~0 and compensation ~2; the total is ~2, inexact and Equal to 2 (decimal_test.go:1082-1088) |
| SumExample.NaiveSumLoses | decimal_test.go:1090-1094 | adding the same items to Zero one after the other gives ~0, which is not Equal to 2 |
| SumExample.CompensatedTotal | decimal_test.go:1082-1088 | the Sum method on 1, 1e30, 1, -1e30 returns ~2, Equal to 2 |
| Weights.WeightUnitsWith | weight.go:34-60 | the table has 19 entries |
| Weights.TableIndexedByTag | weight.go:34-60 | every entry below 16 but the reserved 10 and 11 carries its own index; the aliases mcg, lb av and oz av carry the index and factor of µg, lb and oz |
| Weights.Vmet | weight.go:64-92 | the tuple of a weight has a mantissa of at most 2^53 - 1, the word's sign, and an exponent in [-16, 15] or a sentinel |
| Weights.VmeAsWeight | weight.go:95-120 | encoding gives Null exactly for the tuple (0, 0, 0) |
| Weights.WeightDecodeEncode | weight.go:95-120 | reading back an encoded weight gives Null, Zero, or the unsigned zero of the unit for an exact zero, and otherwise the normalized tuple, unit included |
| Weights.UnitKept | weight.go:95-120 | encoding keeps the unit of every tuple |
| Weights.IntegerWeight | weight.go:64-120 | every integer from -(2^53 - 1) to 2^53 - 1 other than 0 is its own weight in kg |
| Weights.NewWeightDenotes | weight.go:123-137 | a value with a known unit name is a weight of that unit, with the value's sign and value whenever exact |
| Weights.NewWeightUnknownUnit | weight.go:123-137 | an unknown unit name is ErrUnitSyntax |
| Weights.DecimalIntegerIsWeight | weight.go:140-147 | a decimal integer up to 2^53 - 1 with an empty unit is the same integer as a weight in kg |
| Weights.NewWeightFromBytes | weight.go:152-158 | an error gives Null |
| Weights.UnitNameKept | weight.go:184-194 | an encoded weight is named by the table entry of its unit |
| Weights.PredicatesOnFields | weight.go:360-380 | with the bit tests corrected, IsExactlyZero, IsZero and IsExact say what vmet reads: no mantissa, exponent 0, and no loss |
| Weights.SignAgrees | weight.go:449-455 | Sign is 0 for the zeros and otherwise the sign; it agrees with IsZero, IsNegative and IsPositive |
| Weights.BytesEndWithUnit | weight.go:275-284 | the text of every set weight ends with the name of its unit |
| Weights.MicrogramTextAsWritten | weight.go:43 | with the table as written, 1 µg is written with the five bytes of "Âµg" |
| Weights.MicrogramText | weight.go:34-60 | with µg spelled in UTF-8, 1 µg is written "1µg" |
| Weights.WeightVar.UnmarshalJSON | weight.go:294-302 | on success the weight read is stored; on error the variable is left unchanged |
| Weights.WeightVar.UnmarshalText | weight.go:305-313 | the same for the text form |
| WeightOps.TableFactors | weight.go:34-60 | every unit's factor is a well-formed factor; it is an integer exactly for the metric units, and there it is the unit's power of ten (0, 3, .., 12 for kg to Gt, -3, .., -15 for g to pg) |
| WeightOps.IntFactor | weight.go:214-219 | the integer part of a metric factor is the factor itself |
| WeightOps.InKg | weight.go:214-219 | a weight in kg keeps its exponent within [-31, 27] |
| WeightOps.InUnit | weight.go:220-236 | a mass in kg converted back keeps its exponent within [-43, 42] |
| WeightOps.Converted | weight.go:214-236 | the converted tuple keeps its exponent within [-43, 42]; corrected, it takes the new unit |
| WeightOps.Add | weight.go:210-241 | the method as the source runs it computes Plus |
| WeightOps.ToKg | weight.go:214-219 | the method computes InKg |
| WeightOps.ToUnit | weight.go:220-236 | the method computes InUnit |
| WeightOps.Compare | weight.go:462-472 | Compare is -1, 0 or 1 (CompareMetric and CompareValue say which) |
| WeightOps.MetricConversion | weight.go:214-236 | between metric units the conversion keeps the mantissa and moves the exponent by the difference of the factors' exponents |
| WeightOps.InKgValue | weight.go:214-219 | a weight in kg keeps its sign and, when exact, its mass |
| WeightOps.InUnitValue | weight.go:220-236 | a mass converted into a unit keeps its sign, never clears the loss bit, and when exact keeps the mass |
| WeightOps.RoundedQuotient | weight.go:226-235 | a mass divided by a non-integer factor and rounded keeps its sign, and its value when exact |
| WeightOps.ConvertedValue | weight.go:214-236 | the converted tuple takes the new unit and the old sign, and keeps the mass when exact |
| WeightOps.PlusMetric | weight.go:210-241 | the sum of weights of metric units is in w1's unit and, when exact, is the true sum at the lower exponent |
| WeightOps.SubMetric | weight.go:244-246 | the same for the difference |
| WeightOps.CompareMetric | weight.go:462-486 | comparing weights of metric units whose difference is exact compares their true values |
| WeightOps.PlusValue | weight.go:210-241 | for any two units, Plus adds to w1 the mass of w2 in w1's unit, and when exact the sum is the true sum |
| WeightOps.CompareValue | weight.go:462-486 | for any two units, comparing weights whose difference is exact compares the true masses |
| WeightOps.SubSelf | weight.go:244-246 | w - w of a metric weight with a mantissa is the negative exact zero of its unit |
| WeightOps.CompareSelf | weight.go:462-496 | every metric weight with a mantissa compares equal to itself |
| WeightOps.PlusKeepsUnit | weight.go:210-241 | corrected, the sum is in w1's unit unless it is ~0 or NaN |
| WeightOps.PlusInfinity | weight.go:210-241 | an infinity added to a weight with a mantissa gives that infinity in w1's unit |
| WeightOps.MulValue | weight.go:249-254 | a weight times a decimal keeps the weight's unit and, when exact, is the product of the values |
| WeightOps.MulMilligrams | weight.go:249-254 | 11 mg times 11 is 121 mg |
| WeightOps.NegativeNearZeroRead | weight.go:370-390 | as written, IsZero and IsPositive read the negative ~0 of grams as neither zero nor positive; corrected it is a zero |
| WeightOps.NearSelfComparedAsWritten | weight.go:462-472 | as written, ~1 g compared with itself is -1; corrected it is 0 |
| WeightOps.SelfGreaterAsWritten | weight.go:475-479 | as written, 1 g is greater than itself; corrected it is not |
| WeightOps.KeptTuple | weight.go:210-241 | corrected, 1e-16 kg + 1e5 Mt is 1e5 Mt written in kg, inexact |
| WeightOps.UnitLeakAsWritten | weight.go:237-240 | as written, 1e-16 kg + 1e5 Mt is tagged Mt; corrected it is tagged kg |
| WeightOps.MagicShiftedAsWritten | weight.go:214-219 | as written, 1 kg + Inf t is +~0 t; corrected it is +Inf kg |

## Left out

- Floating point is left out: `newFromFloat`, `fixFloatMantissa` (core.go:1091-1171), `NewFromFloat`, `NewFromFloat32`, `NewFromFloat64Exact`, `NewFromFloatWithExponent`, `Float64` and `InexactFloat64`.
- `Ln`, `Sqrt`, `Pow`, `PowWithPrecision`, `Atan`, `Cos`, `Sin` and `Tan` are left out; they call code outside these files.
- The interfaces of other packages are not modelled: `Scan` and `Value` (database/sql), `GobEncode`/`GobDecode`, `MarshalText`/`UnmarshalText` and `UnmarshalJSON` of Decimal. They only forward to the functions modelled here.
- `Cmp` is not modelled; it is `Compare`.
- `Avg` is not modelled; it is `Sum` divided by a count.
- DecimalAggregates.Sum: the compensation is proved to work on integers whose magnitudes add up to at most MaxInt (DecimalAggregates.SumOfIntegers, where nothing is lost and it stays Zero) and on the example Sum(1, 1e30, 1, -1e30) (SumExample.SumCompensates, where it recovers both lost ones). No lemma states in general that the sum plus the compensation equals the exact total of the items, because `Add` rounds in several ways (division by a power of ten, the normalizer) and the error of each step is not given a closed form.
- `NewFromString` is not modelled; it is `NewFromBytes` of the string's bytes.
- `RequireFromString` is not modelled; it panics instead of returning the error.
- `Int64` and `IntPart` are not modelled; they drop the error of `IntPartErr`, which is modelled.
- Decimals.IntPartTruncates: requires IntPartDefined. An exact zero word whose exponent field is 15 or -16 decodes to a sentinel exponent, and `IntPartErr` then indexes `tenPow` out of range at decimal.go:534 and 551 (a panic). The model excludes those words rather than model the panic.
- DecimalOps.QuoRem: requires QuoRemDefined (CoreDivRem.DivRemDefined). When e1 - e2 + precision <= -20, `vmeDivRem` indexes `tenPow[20]` or beyond at core.go:918 and panics, for example `QuoRem(1, 1, -20)` (CoreDivRem.DivRemOutOfRange). The remainder of that rescaling branch (core.go:916-921, marked FIXME in the source) is only bounded, not given a value. The promise of decimal.go:218-224 that |r| < |d2| * 10^-precision is proved only for integers at precision 0 (DecimalOps.QuoRemIntegers): in general CoreDivRem.DivBounds bounds the remainder mantissa by the divisor's at the quotient's exponent, which is -precision only when the dividend could be scaled that far; when the scaling is clamped (core.go:885-891 and 896-911) the remainder is bounded by |d2| times 10 to the quotient's exponent, and the decimal-level bound is not stated.
- DecimalOps.Mod: requires QuoRemDefined, for the same reason.
- DecimalOps.CompareExact / DecimalOps.Compare: Compare is given a meaning only when the difference d1 - d2 is exact. When `Sub` has to round the difference (operands far apart, or a difference that needs more than 57 bits), Compare is the sign of the rounded difference, and no lemma ties that sign to the true values.
- WeightOps.PlusValue / WeightOps.CompareValue / WeightOps.InUnitValue / WeightOps.ConvertedValue / WeightOps.RoundedQuotient: cover the conversions that stay in the main division of `vmeDivRem` (predicate Convertible); a conversion into a non-metric unit of a mass 20 or more places below it is not given a value.
- WeightOps.RoundedQuotient: requires s.e - tc.e + DivisionPrecision >= 0 (and the exponent ranges of a weight and a factor), so the quotient of a mass by a non-integer factor is given its sign and value only while the division stays in the main division of `vmeDivRem`; the FIXME rescaling branch (core.go:916-921) is not covered.
- WeightOps.ConvertedValue: requires an integer target factor or t2.e + KgExponent(c2) - KgExponent(c1) + DivisionPrecision >= 0, for the same reason; a conversion that reaches the FIXME rescaling branch of `vmeDivRem` is not covered by this lemma.
- DecimalTexts.LossyBytesRoundTrip / DecimalTexts.ScaledBytesRoundTrip / DecimalTexts.FractionBytesRoundTrip: prove that the re-read word has the same sign, loss bit and value; they do not prove that it is the same word, since a word whose mantissa has trailing zeros comes back in its canonical form.
- TextRoundTrip.IntegerRoundTrip / TextRoundTrip.LossyIntegerRoundTrip: cover the values that fit in 64 bits, which read back at exponent 0; TextRoundTrip.ScaledRoundTrip and TextRoundTrip.LossyScaledRoundTrip cover every exponent from 0 to 2^62 - 1, which includes every exponent a word holds.
- TextParse.OverflowTuple / TextParse.OverflowReads / TextParse.FractionOverflowReads: do not cover integer digits that overflow followed by '.' and more digits (for example "18446744073709551616.5"). DigitStep models that case: the digits after the '.' are dropped without changing the exponent, and each non-zero one sets the loss bit. No lemma states the tuple such a text reads as.
- DecimalTexts.Bytes: `Bytes` is modelled as `vmetBytes` with places 0, no unit and extended output. The parser side is `vmeFromBytes` with an empty unit table, as `NewFromBytes` calls it.
- Runes.ToLower: models `unicode.ToLower` on ASCII and Latin-1 only (core.go:390). Other runes are left unchanged, so hashes of names outside Latin-1 may differ from Go's.
- The atomic memo of unit hashes (core.go:413-418) is not modelled. The hash of a name is computed each time, which gives the same result.
- The sources name a few things they do not define. decimal.go:535 and 591 use `ten_pow`, which the model reads as the `tenPow` of core.go:28. decimal.go:860 calls `vmeFromBytes` with one argument; the model passes the empty unit table. weight.go:51 uses `decimalBitE`, which the model reads as the exponent shift of the decimal layout (57). `ErrUnitSyntax` is an error distinct from the others.
- The error values `ErrSyntax`, `ErrUnitSyntax`, `ErrFormat` and `ErrOutOfRange` are modelled as constructors of one datatype, not as Go error values.

## Findings

| source | as written | input that shows it | evidently intended | confidence | as-written member | corrected member |
|---|---|---|---|---|---|---|
| core.go:789-795 | an exact-zero left operand returns Zero before the magic right operand is looked at | `Zero.Mul(NaN)` is Zero while `NaN.Mul(Zero)` is NaN | NaN and infinity times zero are NaN in either order | not executed | CoreMul.MulZeroAsymmetry | CoreMul.MulInfinityByZero |
| core.go:848 | the sign of a near-zero dividend over an infinity is taken from the divisor alone | `-~0 / +Inf` gives +~0 | the XOR of the signs, -~0 | not executed | CoreDivRem.DivNearByInfinitySign | CoreDivRem.DivByInfinity |
| core.go:885-891 | the remainder exponent is e2 - precision, ignoring the scaling of the dividend | 1 / 3 at precision 30 gives remainder 1 at 10^-30, while q * 3 + r needs 10^-19 | the exponent of q * m2 | not executed | CoreDivRem.DivRemainderExponent | CoreDivRem.DivExact |
| core.go:983-990 | the guard of the banker's rounding lets a zero result through as (0, 0, 0) | `0.5.RoundBank(0)` is Null | Zero | not executed | DecimalRounding.RoundBankHalfIsNull | CoreRound.RoundNeverNull |
| core.go:1035-1037 | when places cut every digit, ceil returns Zero even for a positive value | 1e-16 ceiled at places -4 is Zero | 1e4, the least multiple of 10^4 not below it | not executed | CoreRound.RoundSlips | CoreRound.RoundCeilBound |
| core.go:1082-1084 | when places cut every digit, floor returns Zero even for a negative value | -1e-16 floored at places -4 is Zero | -1e4, the greatest multiple of 10^4 not above it | not executed | CoreRound.RoundSlips | CoreRound.RoundFloorBound |
| decimal.go:233 | the remainder is packed with the quotient's v: its sign, and Null when the quotient is positive and the remainder 0 | `4.QuoRem(-3, 0)` is (-1, -1); `6.QuoRem(3, 0)` is (2, Null); `1.QuoRem(3, 0)` is (Null, 1) | the remainder has the dividend's sign and zeros are Zero (the doc comment at decimal.go:218-224) | not executed | DecimalOps.RemainderTakesQuotientSign | DecimalOps.QuoRemIntegers |
| decimal.go:147-167 | an operation whose result is the tuple (0, 0, 0) returns Null, which decimal.go:35 reserves for an unset value | `Null.Add(Null)` is Null | Zero | not executed | DecimalOps.NullSumIsNull | DecimalOps.PackedDiffersOnlyAtNull |
| decimal.go:517-524 | infinity is recognised by the exponent 15, which decoding has already replaced by MaxInt64 | `PositiveInfinity.IntPartErr()` is 0 | MaxInt64 with the error | not executed | Decimals.IntPartOfInfinity | Decimals.IntPartTruncates |
| decimal.go:470 | the exponent bound of IsNaN excludes the field 14 | the word 0x5c00000000000000 decodes to NaN, yet IsNaN is false and IsPositive true | IsNaN of every NaN word | not executed | Decimals.IsNaNMissesExponent14 | Decimals.IsNaNIff |
| weight.go:360-390 | the predicates test the bits of the signed word instead of the magnitude | the negative ~0 of grams is neither zero nor positive; ~1 g compared with itself is -1 | the tests on the fields vmet reads | not executed | WeightOps.NearSelfComparedAsWritten | WeightOps.CompareSelf |
| weight.go:214-219 | the exponent of a tuple without mantissa is moved by the unit factor | 1 kg + Inf t is +~0 t | +Inf | not executed | WeightOps.MagicShiftedAsWritten | WeightOps.PlusInfinity |
| weight.go:237-240 | the converted tuple keeps w2's unit bits, which vmeAdd can return | 1e-16 kg + 1e5 Mt is tagged Mt | the sum in w1's unit, kg | not executed | WeightOps.UnitLeakAsWritten | WeightOps.PlusKeepsUnit |
| weight.go:43 | the name of unit 7 is the five bytes of "Âµg" | `NewWeightFromString("1mcg").String()` ends with "Âµg" | "1µg", as weight_test.go:21 expects | not executed | Weights.MicrogramTextAsWritten | Weights.MicrogramText |
| core.go:311 | a non-zero digit dropped after a fractional digit was appended (e < 0) sets no loss bit | "0.184467440737095510005" reads as the exact 0.18446744073709551000 | the loss bit set | not executed | TextParse.FractionDropAsWritten | TextParse.FractionOverflowReads |
| core.go:302-303 | the overflow test looks at the high word of m * 10 only, then adds the digit with wrap-around | 18446744073709551616 (2^64) reads as 0 | the mantissa kept, inexact, one place higher | not executed | TextParse.DigitOverflow | TextParse.OverflowReads |
| core.go:144 | the mantissa scaled by a power of ten is not checked against maxM | 144115188075855871e16 normalizes to a mantissa above MaxInt | the infinity | not executed | CoreNormalize.NormalizeExponentOverflow | CoreNormalize.VmeNormalize |
| core.go:706 | the sum of two same-signed mantissas wraps past 2^64 | MaxInt + 18446744073709551e3 | the carry kept and the sum reduced one place | not executed | CoreAdd.AddCarryWraps | CoreAdd.AddExact |
| core.go:194 | rounding the quotient up can carry it past 2^64 | a 128-bit mantissa 99999999999 * 2^64 + 18446744061785396229 reduces to mantissa 0 | the rounded 2^64 / 10, one place higher | not executed | CoreReduce.ReduceRoundingOverflow | CoreReduce.ReduceRoundsToNearest |
| core.go:333 | the guard reads the byte after an exponent mark before checking that there is one | "1e" reads past the end of the text | the mark read as a unit suffix | not executed | TextParse.ExponentMarkAtEnd | TextParse.ScanLoop |
