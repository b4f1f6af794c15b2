# FLT in Dafny

FLT is a software implementation of IEEE 754 single-precision arithmetic
for targets without a floating-point unit. Values are kept as packed
32-bit words (`FLT`). Every operation unpacks its operands into a working
record, `flt_tmp`, which has a class (Zero, Subnormal, Normal, Infinite,
NaN), a sign, a 32-bit mantissa with the binary point at bit 30 (`TMP_1` =
2^30 is 1.0) and a C `int` exponent, which the model takes as an unbounded
integer (see "## Left out" for the overflow this leaves out). It computes on that record in
place and packs the result again. On top of the four basic operations
(`flt_tmp_add`, `flt_tmp_multiply`, `flt_tmp_invert`, `flt_tmp_normalize`)
the library builds:

- comparison, fabs, ldexp, frexp, modf, rounding and fmod;
- polynomial evaluation, square root, log2 and exp2, pow;
- the circular and hyperbolic functions;
- text conversion both ways: `flt_atof` and `flt_ftoa` with `%e`, `%f`
  and `%g` formats.

A PHP script, `flt.php`, rewrites C sources so that their `float`
arithmetic calls the library. This model covers its token scanners and
its printf format parser.

This project models that core in Dafny:

- The working record is the datatype `FltTypes.Tmp`. When the C code
  updates a record through a pointer, the model uses a `FltTypes.FltTmp`
  object whose fields the methods change.
- Each `flt_tmp_*` operation is a method that `modifies` its record. The
  method is proved against a pure specification function on `Tmp`, such
  as `Sum`, `Product`, `Reciprocal` or `Normalized`.
- Each public `flt_*` function is a pure function from packed words to
  packed words. It composes those specification functions the way the C
  composes the in-place operations.
- Loops keep the C loop and carry invariants that tie them to the
  specification function.
- The properties the library promises are proved as `ensures` clauses and
  lemmas. Examples: classification by bit pattern, the unpack/pack round
  trip, the signs and exponents of sums and products, the special-value
  tables of every function, the digits and layout of the text formats,
  and the token and format scanners of `flt.php`.

Modules follow the source files:

- `types.dfy` (module FltTypes): flt/flt.h, flt/flt-tmp.h
- `classify.dfy` (module FltClassify): flt/flt-classify.c
- `convert.dfy` (module FltConvert): flt/flt-convert.c
- `init.dfy` (module FltInit): flt/flt-init.c
- `basic.dfy` (module FltBasic): flt/flt-basic.c
- `arithmetic.dfy` (module FltArith): flt/flt-basic.c (public wrappers)
- `compare.dfy` (module FltCompare): flt/flt-compare.c
- `abs.dfy` (module FltAbs): flt/flt-abs.c
- `ldexp.dfy` (module FltLdexp): flt/flt-ldexp.c
- `frexp.dfy` (module FltFrexp): flt/flt-frexp.c
- `modf.dfy` (module FltModf): flt/flt-modf.c
- `round.dfy` (module FltRound): flt/flt-round.c
- `fmod.dfy` (module FltFmod): flt/flt-fmod.c
- `poly.dfy` (module FltPoly): flt/flt-poly.c
- `sqrt.dfy` (module FltSqrt): flt/flt-sqrt.c
- `log.dfy` (module FltLog): flt/flt-log.c
- `exp.dfy` (module FltExp): flt/flt-exp.c
- `pow.dfy` (module FltPow): flt/flt-pow.c
- `trig.dfy` (module FltTrig): flt/flt-trig.c
- `htrig.dfy` (module FltHtrig): flt/flt-htrig.c
- `io.dfy` (module FltAtof): flt/flt-io.c (atof and its constants)
- `ftoa.dfy` (module FltFtoa): flt/flt-io.c (ftoa and its formatters)
- `php.dfy` (module FltPhp): flt/flt.php (token and format helpers)

## Model

| member | source | states |
|---|---|---|
| FltTypes.Xor | flt/flt-basic.c:249-250 | the sign of a product is 1 exactly when the operand signs differ |
| FltClassify.Classify | flt/flt-classify.c:8-23 | Zero, Subnormal, Normal, Infinite and NaN are decided by the magnitude bits alone: 0, below 0x800000, below 0x7F800000, equal to it, above it |
| FltClassify.FieldsCompose | flt/flt-classify.c:10-14 | the sign, exponent and fraction fields recompose the word, and exponent and fraction recompose the magnitude |
| FltClassify.ClassifyExponentZero | flt/flt-classify.c:16-17 | exponent field 0 gives Zero with a zero fraction, Subnormal otherwise |
| FltClassify.ClassifyExponentMax | flt/flt-classify.c:18-19 | exponent field 0xFF gives Infinite with a zero fraction, NaN otherwise |
| FltClassify.ClassifyExponentOther | flt/flt-classify.c:20-21 | any other exponent field gives Normal |
| FltClassify.ClassifySignless | flt/flt-classify.c:13-14 | the class does not depend on the sign bit |
| FltClassify.IsInf | flt/flt-classify.c:25 | flt_isinf holds exactly for magnitude 0x7F800000 |
| FltClassify.IsNaN | flt/flt-classify.c:27 | flt_isnan holds exactly for magnitudes above 0x7F800000 |
| FltClassify.IsNormal | flt/flt-classify.c:29 | flt_isnormal holds exactly for magnitudes in [0x800000, 0x7F800000) |
| FltClassify.IsSubnormal | flt/flt-classify.c:31 | flt_issubnormal holds exactly for magnitudes in (0, 0x800000) |
| FltClassify.IsZero | flt/flt-classify.c:33 | flt_iszero holds exactly for magnitude 0, either sign |
| FltClassify.IsFinite | flt/flt-classify.c:35-38 | flt_isfinite holds exactly below magnitude 0x7F800000, i.e. when the value is neither infinite nor NaN |
| FltClassify.Fsgn | flt/flt-classify.c:41-48 | flt_fsgn is 0 for zeros and NaN, -1 for other values with the sign bit set, +1 otherwise |
| FltConvert.FsgnUnpacked | flt/flt-classify.c:42-47 | flt_fsgn's answer read from the unpacked class and sign agrees with the field-level one |
| FltInit.Initialize | flt/flt-init.c:3-8 | flt_tmp_initialize sets the four fields to the given values |
| FltInit.Copy | flt/flt-init.c:10-15 | flt_tmp_copy makes the destination equal to the source and leaves the source unchanged, also when both are the same record |
| FltInit.InitZero | flt/flt-tmp.h:33 | flt_tmp_init_0 sets the record to +0 |
| FltInit.InitOne | flt/flt-tmp.h:34 | flt_tmp_init_1 sets the record to Normal +1 (mantissa TMP_1, exponent 0) |
| FltInit.InitOneOverLog2 | flt/flt-htrig.c:21 | flt_tmp_init_1_log2 sets the record to 1/log(2) (mantissa TMP_1_LOG2, exponent 0) |
| FltInit.InitLog2 | flt/flt-htrig.c:102 | flt_tmp_init_log2 sets the record to log(2) (mantissa TMP_2LOG2, exponent -1) |
| FltAbs.TmpAbs | flt/flt-abs.c:14-16 | flt_tmp_abs clears the sign and changes nothing else |
| FltAbs.Fabs | flt/flt-abs.c:3-12 | flt_fabs clears the sign bit of every non-NaN pattern and gives the canonical NaN for NaN |
| FltAbs.FabsIdempotent | flt/flt-abs.c:3-12 | fabs applied twice equals fabs applied once |
| FltAbs.FabsSignless | flt/flt-abs.c:3-12 | patterns that differ only in the sign have the same fabs |
| FltLdexp.Ldexp | flt/flt-ldexp.c:3-11 | NaN gives NaN; zeros and infinities are returned unchanged; a Normal whose new exponent stays in range gets n added to its exponent field; overflow past 127 gives a signed infinity and underflow below -157 a signed zero |
| FltLdexp.LdexpZero | flt/flt-ldexp.c:3-11 | scaling by 2^0 returns every non-NaN pattern unchanged |
| FltLdexp.LdexpAdd | flt/flt-ldexp.c:3-11 | two scalings compose into one by the sum of the exponents while the value stays Normal |
| FltFrexp.FrexpParts | flt/flt-frexp.c:5-16 | a Normal splits into its unbiased exponent and the same sign and fraction at exponent field 127; a Subnormal is normalised first; zeros and infinities come back with exponent 0; NaN gives the canonical NaN |
| FltFrexp.Frexp | flt/flt-frexp.c:5-16 | flt_frexp returns the fraction and writes the exponent through its out-parameter, as FrexpParts says |
| FltFrexp.LdexpFrexp | flt/flt-frexp.c:5-16 | ldexp of frexp's two parts gives back every Normal and Subnormal value |
| FltConvert.Unpacked | flt/flt-convert.c:76-101 | flt_to_tmp gives a well-formed record: the class of the pattern (Subnormals become Normal), the sign bit (NaN is unsigned), and for a Normal the mantissa 2^30 + fraction * 2^7 at the unbiased exponent |
| FltConvert.UnpackedInfinity | flt/flt-convert.c:85-89 | the two infinity patterns unpack to Infinite with the sign bit of the pattern |
| FltConvert.FltToTmp | flt/flt-convert.c:76-101 | the in-place flt_to_tmp fills the record with Unpacked(f) |
| FltConvert.TmpToFlt | flt/flt-convert.c:103-148 | tmp_to_flt writes Packed of the record |
| FltConvert.PackNormalRounds | flt/flt-convert.c:106-122 | for a Normal at an exponent from -126 to 127, the packed word is the sign bit, the biased exponent field and a significand n (hidden bit included) in [2^23, 2^24] that is the mantissa over 2^7 rounded to nearest, ties to even; n = 2^24 is the carry that rolls into the exponent field |
| FltConvert.PackExact | flt/flt-convert.c:106-122 | a Normal in range whose 7 guard bits are clear packs and unpacks to itself |
| FltConvert.PackNormalSplit | flt/flt-convert.c:106-122 | the packed word carries the record's sign, and its magnitude is the biased exponent field plus the rounded mantissa (a carry rolls into the exponent) |
| FltConvert.PackSubnormalSplit | flt/flt-convert.c:129-134 | for exponents from -157 to -127 the word carries the record's sign and a magnitude of at most 0x800000, the smallest Normal, reached only by rounding up |
| FltConvert.PackedSign | flt/flt-convert.c:103-148 | every non-NaN record packs with its own sign bit |
| FltConvert.PackedNotNaN | flt/flt-convert.c:103-148 | only a NaN record packs to a NaN pattern |
| FltConvert.PackedWithSign | flt/flt-convert.c:103-148 | changing a record's sign only changes the sign bit of the packed word |
| FltConvert.PackedClass | flt/flt-convert.c:103-148 | zeros, infinities and NaN pack to their patterns; a Normal packs to infinity above exponent 127, to zero below -157, to a Normal from -126 to 126 and to a Subnormal magnitude from -157 to -127 |
| FltConvert.PackedEquivalent | flt/flt-convert.c:103-148 | records with the same meaning pack to the same word |
| FltConvert.UnpackPackRoundTrip | flt/flt-convert.c:76-148 | tmp_to_flt(flt_to_tmp(f)) gives back every non-NaN pattern and the canonical NaN for every NaN |
| FltConvert.SubnormalRoundTrip | flt/flt-convert.c:95-99 | a Subnormal, normalised from exponent -119 on unpacking, packs back to the same pattern |
| FltConvert.PackRenormalized | flt/flt-convert.c:97-98 | the normalised record of a subnormal fraction packs to sign and that fraction |
| FltConvert.PlusHalf | flt/flt-convert.c:39-41 | the rounding step of flt_ftol and flt_ftoul, the value plus a half of its own sign, is well formed |
| FltConvert.PlusHalfSign | flt/flt-convert.c:39-41 | adding that half keeps the sign and gives a Normal or an infinity, and an infinity stays infinite |
| FltConvert.FtolSpecial | flt/flt-convert.c:35-43 | flt_ftol gives 0 for NaN, INT32_MIN for -inf and INT32_MAX for +inf |
| FltConvert.FtolSign | flt/flt-convert.c:33-54 | flt_ftol's result has the sign of its argument (or is 0) |
| FltConvert.Half | flt/flt-convert.c:40 | the half that flt_ftol and flt_ftoul add (and flt_round, flt/flt-round.c:16) is Normal 2^30 at exponent -1 with the given sign |
| FltConvert.SumHalfSmall | flt/flt-convert.c:40-41 | adding the half to a Normal below 0.25 in magnitude gives a Normal at exponent -1 with the same sign |
| FltConvert.SumHalfAtHalf | flt/flt-convert.c:40-41 | adding the half to a value in [0.5, 1) gives mantissa (m + 2^30) / 2 at exponent 0 with the same sign |
| FltConvert.SumHalfAligned | flt/flt-convert.c:40-41 | for exponents 0 to 29, adding the half adds 2^(29-e) to the mantissa, halved with the exponent raised by one when the sum reaches 2^31 |
| FltConvert.SumHalfNegligible | flt/flt-convert.c:40-41 | from exponent 30 up the half is shifted out entirely and the sum is the value itself |
| FltConvert.ToInt32 | flt/flt-convert.c:42-52 | the integer read after the half is added never has the wrong sign; it is 0 for zeros, NaN and values below one, and INT32_MIN or INT32_MAX for the infinities |
| FltConvert.ToUint32 | flt/flt-convert.c:64-72 | the unsigned integer read after the half is added is UINT32_MAX for the infinities and 0 for zeros, NaN, negative values and values below one |
| FltConvert.Ftol | flt/flt-convert.c:33-54 | for every Normal or Subnormal with unbiased exponent up to 30, flt_ftol is the integer of the value's sign nearest to the value, ties to even; above exponent 30 it saturates to INT32_MIN or INT32_MAX by sign |
| FltConvert.Ftoul | flt/flt-convert.c:56-74 | for every positive Normal or Subnormal with exponent up to 30, flt_ftoul is the nearest integer, ties to even; at exponent 31 it is the exact value 2m; above that it saturates to UINT32_MAX |
| FltConvert.PlusHalfRounds | flt/flt-convert.c:38-52 | for a Normal with exponent up to 30, adding the half keeps a Normal of the same sign, and the integer read from it is the magnitude rounded to nearest, ties to even, with the value's sign |
| FltConvert.ToInt32OfSum | flt/flt-convert.c:40-52 | the same on the working record, for every even mantissa |
| FltConvert.ToInt32Small | flt/flt-convert.c:42-52 | values below 0.25 give 0, their nearest integer |
| FltConvert.ToInt32AtHalf | flt/flt-convert.c:44-51 | values in [0.5, 1) give their nearest integer, and 0.5 goes to the even 0 |
| FltConvert.ToInt32Aligned | flt/flt-convert.c:44-51 | for exponents 0 to 29 the integer read after the half is added is the nearest integer to the value, ties to even |
| FltConvert.ToInt32Top | flt/flt-convert.c:44-51 | at exponent 30 the mantissa itself is read, the value being a whole number already |
| FltConvert.AlignedCount | flt/flt-convert.c:45-49 | for exponents 0 to 29 the magnitude read is floor(M / 2^(30-e)) with M = m + 2^(29-e), less one when the bits shifted out are zero and that count is odd |
| FltConvert.ToInt32NoCarry | flt/flt-convert.c:45-49 | that count, when adding the half does not carry past 2^31 |
| FltConvert.ToInt32Carry | flt/flt-convert.c:45-49 | that count, when adding the half carries and the record was renormalised by one bit |
| FltConvert.HalfUpToEven | flt/flt-convert.c:46-49 | floor((m + P/2) / P), less one when it is odd and the division is exact, is the nearest integer to m / P with ties to even |
| FltConvert.EvenCountNearest | flt/flt-convert.c:45-49 | adding half a unit 2^(k-1), counting units 2^k and stepping back one on an exact odd count gives the nearest count, ties to even |
| FltConvert.ToUint32Top | flt/flt-convert.c:67 | at exponent 31, `(m << 1) >> 0` is 2m |
| FltConvert.UnpackedGuardBits | flt/flt-convert.c:90-99 | every Normal and Subnormal unpacks to a Normal whose 7 low mantissa bits are clear |
| FltConvert.UnpackedEven | flt/flt-convert.c:90-99 | every unpacked Normal has an even mantissa |
| FltConvert.FtolTies | flt/flt-convert.c:46-49 | a tie goes to even: 2.5 gives 2 and -2.5 gives -2 |
| FltConvert.FtolTie | flt/flt-convert.c:46-51 | 2.5 of either sign rounds to 2 with that sign |
| FltConvert.FractionBitsZero | flt/flt-convert.c:47-48 | the bits shifted out by `t.m << (t.e + 2)` are zero exactly when the mantissa is a multiple of 2^(30-e), i.e. the value plus one half is an integer |
| FltConvert.LtofExact | flt/flt-convert.c:8-19 | flt_ltof of a nonzero integer below 2^24 in magnitude is exact: the pattern unpacks to abs(a) shifted to the top at exponent 0..23 with a's sign |
| FltConvert.FtolLtof | flt/flt-convert.c:8-54 | flt_ftol(flt_ltof(a)) == a for every abs(a) < 2^24 |
| FltConvert.FtolLtofNonZero | flt/flt-convert.c:8-54 | the nonzero case of that round trip |
| FltConvert.FtoulSpecial | flt/flt-convert.c:58-65 | flt_ftoul gives 0 for NaN and for negative finite values, and UINT32_MAX for both infinities |
| FltConvert.FtoulUltof | flt/flt-convert.c:21-74 | flt_ftoul(flt_ultof(a)) == a for every a < 2^24 |
| FltConvert.UltofIsLtof | flt/flt-convert.c:8-31 | flt_ultof and flt_ltof agree on positive integers below 2^31 |
| FltConvert.ToUint32Agrees | flt/flt-convert.c:45-67 | for a positive value with exponent 0..30, `(m << 1) >> (31 - e)` equals `m >> (30 - e)`, so flt_ftoul and flt_ftol agree |
| FltConvert.UnpackedWithSign | flt/flt-convert.c:81-98 | patterns of equal magnitude unpack alike except for the sign |
| FltCompare.TmpCompare | flt/flt-compare.c:15-36 | two infinities of the same sign compare equal; a NaN operand makes only NOT_EQUAL_TO true; two zeros compare equal |
| FltCompare.Compare | flt/flt-compare.c:8-13 | flt_compare: a NaN makes only NOT_EQUAL_TO true, and +0 and -0 compare equal |
| FltCompare.CompareTotal | flt/flt-compare.c:25-35 | NOT_EQUAL_TO is the negation of EQUAL_TO; without NaN exactly one of <, ==, > holds, and <= and >= are their disjunctions |
| FltCompare.CompareReflexive | flt/flt-compare.c:18-29 | every non-NaN value equals itself |
| FltCompare.CompareSwap | flt/flt-compare.c:21-35 | swapping the operands keeps == and exchanges < with > |
| FltCompare.SumBothNegated | flt/flt-compare.c:21-24 | negating both operands of the difference keeps its class and flips its sign |
| FltCompare.ComparePositive | flt/flt-compare.c:21-35 | for positive Normals, a value strictly above the other compares greater, and equal values compare neither less nor greater |
| FltCompare.Fmin | flt/flt-compare.c:38-51 | flt_fmin returns one of its arguments, the other one when an argument is NaN, and otherwise one that is <= both |
| FltCompare.Fmax | flt/flt-compare.c:53-66 | flt_fmax returns one of its arguments, the other one when an argument is NaN, and otherwise one that is >= both |
| FltBasic.ShiftUp | flt/flt-basic.c:120-123 | the first normalisation loop doubles the mantissa and lowers the exponent until it reaches 2^30, keeping m * 2^e and ending below 2^31 |
| FltBasic.ShiftDown | flt/flt-basic.c:124-127 | the second loop halves the mantissa and raises the exponent until it is below 2^31; a mantissa already in range is left alone |
| FltBasic.Normalized | flt/flt-basic.c:117-131 | a Normal with a nonzero mantissa keeps its class and sign and gets its mantissa into [2^30, 2^31) by shifts matched by exponent changes; a zero mantissa turns the Normal into a Zero; other classes are untouched |
| FltBasic.Normalize | flt/flt-basic.c:117-131 | flt_tmp_normalize, with its two while loops, leaves the record at Normalized(old value) |
| FltBasic.NormalizedOfDouble | flt/flt-basic.c:124-127 | a Normal whose mantissa is in [2^31, 2^32) normalises by one right shift with the exponent raised by one |
| FltBasic.NormalizedIdempotent | flt/flt-basic.c:117-131 | normalising twice is normalising once |
| FltBasic.NormalizedFixed | flt/flt-basic.c:117-131 | a well-formed record is already normalised |
| FltBasic.NormalizedScaled | flt/flt-basic.c:117-131 | a mantissa scaled by 2^j with the exponent lowered by j normalises to the same record |
| FltBasic.ShiftUpScaled | flt/flt-basic.c:120-123 | the left-shift loop started on F at e ends where it ends when started on F * 2^j at e - j, so long as F * 2^j is below 2^31 |
| FltBasic.Align | flt/flt-basic.c:143-150 | the alignment loops shift the operand with the smaller exponent right until the exponents match or it runs out of bits; the other operand is untouched |
| FltBasic.SumNormals | flt/flt-basic.c:136-173 | the sum of two Normals is a well-formed Normal or Zero |
| FltBasic.Combine | flt/flt-basic.c:152-173 | adding or subtracting the aligned mantissas gives a well-formed Normal or a +0 when they cancel |
| FltBasic.CombineNoCarry | flt/flt-basic.c:152-156 | same-sign mantissas whose sum stays below 2^31 add at the larger exponent without renormalising |
| FltBasic.Sum | flt/flt-basic.c:133-214 | flt_tmp_add maps well-formed records to a well-formed record |
| FltBasic.Add | flt/flt-basic.c:133-214 | flt_tmp_add updates the record to Sum(old value, operand) |
| FltBasic.AddNormals | flt/flt-basic.c:136-173 | the Normal-plus-Normal branch, including both alignment loops, computes SumNormals |
| FltBasic.CombineInPlace | flt/flt-basic.c:152-173 | the add-or-subtract step computes Combine in place |
| FltBasic.AddSpecial | flt/flt-basic.c:174-213 | the special-value switch of flt_tmp_add computes SumSpecial |
| FltBasic.SumCommutes | flt/flt-basic.c:133-214 | t + u and u + t denote the same value |
| FltBasic.SumNormalsSwap | flt/flt-basic.c:136-173 | the Normal sum does not depend on the operand order |
| FltBasic.SumZero | flt/flt-basic.c:187-206 | a Zero added to a Normal on either side leaves the Normal |
| FltBasic.SumNegated | flt/flt-basic.c:157-202 | t + (-t) is +0 for Normals and zeros and NaN for infinities and NaN |
| FltBasic.SumSameSign | flt/flt-basic.c:152-156 | two Normals of the same sign add to a Normal of that sign |
| FltBasic.SumLarger | flt/flt-basic.c:157-168 | Normals of opposite sign add to a Normal with the sign of the one larger in magnitude (here the second) |
| FltBasic.SumSmaller | flt/flt-basic.c:157-168 | the same when the first operand is the larger one |
| FltBasic.FiniteClosed | flt/flt-basic.c:133-272 | sums and products of Normals and Zeros are Normals or Zeros |
| FltBasic.PartialProductsBounds | flt/flt-basic.c:228-233 | the four partial products of the 16-bit halves, shifted and summed, give the 62-bit product divided by 2^30 to within 2, and at least 2^30 |
| FltBasic.HalfProductBounds | flt/flt-basic.c:228-233 | the 16-bit halves of normalised mantissas give partial products that fit 32 bits |
| FltBasic.Regroup | flt/flt-basic.c:232-233 | the wrapped 32-bit sum of the shifted partial products is the exact product over 2^30 to within 2 |
| FltBasic.ProductNormals | flt/flt-basic.c:224-234 | the product of two Normals is well formed |
| FltBasic.Product | flt/flt-basic.c:216-272 | flt_tmp_multiply, with the signed-zero table corrected (see Findings), maps well-formed records to a well-formed record |
| FltBasic.ProductAsWritten | flt/flt-basic.c:216-272 | flt_tmp_multiply as written maps well-formed records to a well-formed record |
| FltBasic.Multiply | flt/flt-basic.c:216-234 | flt_tmp_multiply with the corrected signed-zero table (see Findings) updates the record to Product(old t, old u), and squaring in place (pu == pt) multiplies the old value by itself |
| FltBasic.MultiplyNormals | flt/flt-basic.c:224-234 | the Normal-times-Normal branch computes ProductNormals |
| FltBasic.MultiplySpecial | flt/flt-basic.c:235-271 | the special-value switch with the corrected signed-zero table computes ProductSpecial |
| FltBasic.MultiplyAsWritten | flt/flt-basic.c:216-272 | flt_tmp_multiply as written updates the record to ProductAsWritten(old t, old u), squaring in place included |
| FltBasic.MultiplySpecialAsWritten | flt/flt-basic.c:235-271 | the special-value switch as written, with the fall-through from the infinity case and no sign change for a Normal times a Zero, computes ProductSpecialAsWritten |
| FltBasic.ProductAsWrittenDiffers | flt/flt-basic.c:249-269 | the written product differs from the corrected one exactly when a Normal meets a Zero and the second operand is negative, and then only in the sign: the written one keeps the first operand's sign where the corrected one takes the XOR |
| FltBasic.UintMultiply | flt/flt-basic.c:311-323 | uint_multiply's shift-and-add loop returns a * b |
| FltBasic.StepBit | flt/flt-basic.c:315-320 | one pass of that loop keeps result == a * (b / i) |
| FltBasic.ProductByOne | flt/flt-basic.c:224-234 | multiplying a Normal by +1 on either side returns it unchanged |
| FltBasic.PartialProductsCommute | flt/flt-basic.c:228-233 | the partial-product sum is symmetric in the two mantissas |
| FltBasic.ProductCommutes | flt/flt-basic.c:216-272 | the corrected product commutes: t * u and u * t denote the same value (as written it does not on signed zeros, see Findings) |
| FltBasic.ProductOfNormals | flt/flt-basic.c:224-234 | a product of Normals is a Normal with the XOR of the signs, exponent t.e + u.e (or one more when the partial-product sum reaches 2^31) and the partial-product sum as mantissa (halved in that case) |
| FltBasic.ProductRightEquivalent | flt/flt-basic.c:216-272 | equivalent right operands give the same product |
| FltBasic.ProductLeftEquivalent | flt/flt-basic.c:216-272 | equivalent left operands give equivalent products |
| FltBasic.Negate | flt/flt-basic.c:274 | flt_tmp_negate flips the sign and nothing else |
| FltBasic.NegatedTwice | flt/flt-basic.c:274 | negating twice gives back the record |
| FltBasic.Quotient | flt/flt-basic.c:285-296 | the 30 steps of the binary division of 2^31 by a normalised mantissa give a quotient in [2^29, 2^30) |
| FltBasic.DivideStepsBounds | flt/flt-basic.c:289-296 | n division steps append n quotient bits to q |
| FltBasic.BitBounds | flt/flt-basic.c:290-294 | appending one quotient bit keeps the quotient's interval nested |
| FltBasic.LongDivide | flt/flt-basic.c:285-296 | the division loop computes Quotient of the mantissa |
| FltBasic.Reciprocal | flt/flt-basic.c:276-308 | flt_tmp_invert maps a well-formed record to a well-formed record |
| FltBasic.Invert | flt/flt-basic.c:276-308 | flt_tmp_invert updates the record to Reciprocal(old value) |
| FltBasic.InvertNormal | flt/flt-basic.c:279-297 | the Normal branch, with its early return for mantissa 1.0, computes Reciprocal |
| FltBasic.ReciprocalOfPowerOfTwo | flt/flt-basic.c:280-283 | a power of two inverts by negating its exponent, and inverting twice gives it back |
| FltBasic.ReciprocalOfNormal | flt/flt-basic.c:280-297 | any other Normal inverts to twice the division quotient at exponent -e - 1 with its sign kept |
| FltBasic.ReciprocalSpecial | flt/flt-basic.c:298-307 | an infinity inverts to a zero and a zero to an infinity, each keeping its sign; NaN stays NaN |
| FltBasic.ReciprocalEquivalent | flt/flt-basic.c:276-308 | equivalent records have equivalent reciprocals |
| FltArith.FlipSign | flt/flt-basic.c:98-106 | flipping the sign bit changes the sign and keeps the magnitude |
| FltArith.PackedFlip | flt/flt-basic.c:98-106 | a Normal or Zero record packs to words that differ only in the sign bit when its sign is flipped |
| FltArith.UnpackedFlipSign | flt/flt-basic.c:98-106 | unpacking the flipped word is negating the unpacked record (NaN aside) |
| FltArith.Add | flt/flt-basic.c:10-18 | flt_add: NaN in gives NaN; opposite infinities give NaN; a zero added to a nonzero value gives that value; two zeros give -0 only when both are -0 |
| FltArith.Subtract | flt/flt-basic.c:20-29 | flt_subtract gives NaN when an operand is NaN |
| FltArith.SubtractIsAddNegated | flt/flt-basic.c:20-29 | f - g is f + (-g) |
| FltArith.SubtractSelf | flt/flt-basic.c:20-29 | f - f is +0 for every finite f |
| FltArith.AddCommutes | flt/flt-basic.c:10-18 | flt_add(f, g) == flt_add(g, f) |
| FltArith.PackedProduct | flt/flt-basic.c:216-272 | packing the corrected product: NaN when an operand is NaN or it is infinity times zero; otherwise the sign is the XOR of the signs, a zero times a finite value is a zero, and an infinity times a nonzero value is an infinity |
| FltArith.Multiply | flt/flt-basic.c:31-39 | flt_multiply (corrected): NaN for NaN and for infinity times zero; otherwise the result's sign is the XOR of the operand signs, zero times a finite value is a zero and infinity times a nonzero value an infinity |
| FltArith.MultiplyAsWritten | flt/flt-basic.c:31-39 | flt_multiply as written gives NaN when an operand is NaN |
| FltArith.MultiplySignedZeroAsWritten | flt/flt-basic.c:249-269 | as written, 1 * -0 and +0 * -1 give +0 and -0 * 1 gives -0, while the corrected product gives -0 for the first two |
| FltArith.MultiplyCommutes | flt/flt-basic.c:31-39 | the corrected flt_multiply(f, g) == flt_multiply(g, f); as written it fails on signed zeros, see Findings |
| FltArith.MultiplyByOne | flt/flt-basic.c:31-39 | multiplying by +1 returns every non-NaN pattern |
| FltArith.Divide | flt/flt-basic.c:41-50 | flt_divide (corrected): NaN for NaN, 0/0 and inf/inf; a nonzero value over a zero is an infinity; a finite value over an infinity is a zero; the sign is the XOR of the signs |
| FltArith.DivideAsWritten | flt/flt-basic.c:41-50 | flt_divide as written, the reciprocal followed by the written product: NaN for a NaN operand, and a finite nonzero value over an infinity gives the zero of the dividend's sign whatever the divisor's sign |
| FltArith.DivideSignedZeroAsWritten | flt/flt-basic.c:41-50 | as written, flt_divide(+0, -1) and flt_divide(1, -inf) give +0, where the corrected quotient gives -0 |
| FltArith.DivideByOne | flt/flt-basic.c:41-50 | dividing by +1 returns every non-NaN pattern |
| FltArith.Negated | flt/flt-basic.c:98-106 | flt_negated flips the sign bit of every non-NaN pattern and gives the canonical NaN for NaN |
| FltArith.NegatedTwice | flt/flt-basic.c:98-106 | negating twice gives back every non-NaN pattern |
| FltArith.Inverted | flt/flt-basic.c:108-115 | flt_inverted: NaN stays NaN, a zero gives the infinity of its sign, an infinity the zero of its sign, and a power of two 2^k gives 2^-k |
| FltArith.InvertedTwice | flt/flt-basic.c:108-115 | inverting a power of two twice gives it back |
| FltArith.AddInto | flt/flt-basic.c:52-61 | flt_add_into returns NaN for a null pointer and otherwise stores and returns flt_add of the old value and g |
| FltArith.SubtractInto | flt/flt-basic.c:63-73 | flt_subtract_into: NaN for null, otherwise stores and returns the difference |
| FltArith.MultiplyInto | flt/flt-basic.c:75-84 | flt_multiply_into (corrected product): NaN for null, otherwise stores and returns the product |
| FltArith.DivideInto | flt/flt-basic.c:86-96 | flt_divide_into (corrected quotient): NaN for null, otherwise stores and returns the quotient |
| FltModf.ModfParts | flt/flt-modf.c:27-45 | flt_tmp_modf splits a record into a fraction and an integral part that both carry its sign: for exponents 0..30 the integral part is the mantissa rounded down to a multiple of 2^(30-e) at the same exponent, and the fraction is Zero exactly when nothing was cut off and otherwise holds the cut-off bits; exponents below 0 leave everything in the fraction; exponents above 30 put everything in the integral part |
| FltModf.UnsignedParts | flt/flt-modf.c:32-43 | the same split of the value with its sign cleared, which is what the loop computes before the sign is put back |
| FltModf.NormalParts | flt/flt-modf.c:32-43 | for a Normal value with exponent in [0, 30] the integral part keeps whole units below the value and the fraction holds exactly the bits below one unit |
| FltModf.FractionForm | flt/flt-modf.c:34-39 | a nonzero remainder below one unit normalises to a Normal with a negative exponent that scales back to the remainder |
| FltModf.IntegralBounds | flt/flt-modf.c:34-39 | the integral mantissa of a normalised value is at least 2^30 and a whole number of units |
| FltModf.TmpModf | flt/flt-modf.c:27-45 | the in-place flt_tmp_modf leaves the fraction (up to equivalence) in *pt and the integral part in *pu as ModfParts says |
| FltModf.MoveUnits | flt/flt-modf.c:33-39 | the while loop moves one unit at a time from *pt to *pu until *pt drops below one, ending at UnsignedParts |
| FltModf.MoveUnit | flt/flt-modf.c:35-38 | one pass of the loop adds a unit at pt's exponent to *pu, subtracts it from *pt and keeps the loop invariant with the moved amount positive |
| FltModf.LoopResult | flt/flt-modf.c:34 | when the loop condition fails, the invariant gives the fraction and integral part of UnsignedParts |
| FltModf.PassState | flt/flt-modf.c:35-38 | the two additions of one pass keep the invariant and move a positive amount |
| FltModf.ModfStep | flt/flt-modf.c:35-38 | the state after one pass, given its two sums, satisfies the invariant |
| FltModf.IntegralStep | flt/flt-modf.c:36 | adding a unit to the integral part lands on the next multiple at the original exponent |
| FltModf.SubtractUnit | flt/flt-modf.c:37-38 | subtracting one at pt's own exponent gives Zero for a mantissa of exactly one and otherwise the normalised rest |
| FltModf.ModfExit | flt/flt-modf.c:34 | when the loop stops, the fraction bits are the mantissa modulo the unit and the integral bits the rest, which is nonzero |
| FltModf.ModfPair | flt/flt-modf.c:10-24 | flt_modf: non-finite values and zeros come back as both parts; a value of magnitude below one (or Subnormal) gives itself as the fraction and a zero of its sign as the integral part; from exponent field 150 up the value is all integral with a signed zero fraction |
| FltModf.WholeAboveExponent23 | flt/flt-modf.c:17-18 | a Normal with exponent 23 or more has no fraction bits in its working mantissa |
| FltModf.SubnormalExponent | flt/flt-modf.c:16-17 | a Subnormal unpacks to a Normal with exponent below -126 |
| FltModf.Modf | flt/flt-modf.c:10-24 | flt_modf returns the fraction and stores the integral part through its out-parameter, as ModfPair says |
| FltRound.Floored | flt/flt-round.c:85-89 | flt_tmp_floor keeps the sign and replaces a Normal by its integral part: a whole number of units not above the value and less than one unit below it; below one it gives a Zero |
| FltRound.TmpFloor | flt/flt-round.c:85-89 | the in-place flt_tmp_floor leaves Floored(old value) |
| FltRound.Ceiled | flt/flt-round.c:75-83 | flt_tmp_ceil: a whole value is unchanged, a positive value below one becomes 1, and a positive value with a fraction becomes its integral part plus one unit |
| FltRound.CeiledStep | flt/flt-round.c:78-81 | adding flt_tmp_init_1 to the integral part adds one unit at its exponent and stays positive |
| FltRound.OneUnitMore | flt/flt-round.c:80-81 | adding 1 to a whole number at exponent e adds 2^(30-e) to its mantissa |
| FltRound.TmpCeil | flt/flt-round.c:75-83 | the in-place flt_tmp_ceil leaves Ceiled(old value) |
| FltRound.Trunc | flt/flt-round.c:25-35 | flt_trunc returns non-finite values, zeros and whole values (exponent field 150 and up) unchanged, sends values of magnitude below one to the zero of their sign, and keeps the sign of every non-NaN value |
| FltRound.TruncIsModfIntegral | flt/flt-round.c:25-35 | flt_trunc is the integral part flt_modf produces |
| FltRound.Round | flt/flt-round.c:11-23 | flt_round returns non-finite values and zeros unchanged and keeps the sign; every value from 0.5 to below 2^23 (exponent -1 to 22) goes to flt_ltof of n with the value's sign, where n, at least 1 and below 2^24, is the magnitude rounded to nearest with halves rounded up (away from zero); values of exponent field 150 and up, all whole, come back unchanged |
| FltRound.HalfUp | flt/flt-round.c:16-18 | floor((m + 2^(k-1)) / 2^k) is the nearest integer to m / 2^k, halves rounded up |
| FltRound.RoundNear | flt/flt-round.c:14-19 | for a Normal with exponent -1 to 22, adding the half, taking the integral part and packing gives flt_ltof of the half-up count with the value's sign |
| FltRound.RoundOfHalfSum | flt/flt-round.c:16-18 | the same on the working record: the integral part of t plus the half is the flt_ltof record of that signed count |
| FltRound.HalfSumCount | flt/flt-round.c:16-17 | after the half is added the record is Normal with the same sign at exponent 0 to 23, and its whole part m / 2^(30-e) is the half-up count of the original |
| FltRound.IntegralAsLtof | flt/flt-round.c:18 | the integral part flt_tmp_modf leaves is the normalised record of the count n = m / 2^(30-e), which lies in [1, 2^31), and below 2^24 up to exponent 23 |
| FltRound.RoundOfWhole | flt/flt-round.c:11-23 | a Normal of exponent field 150 and up, a whole number, comes back unchanged from adding the half and taking the integral part |
| FltRound.WholeKeptBelow30 | flt/flt-round.c:16-18 | a whole number at exponent 23 to 29 keeps its value: the half lands in its clear guard bits and the integral part drops it |
| FltRound.RoundBelowHalf | flt/flt-round.c:11-23 | values of magnitude below one half round to the zero of their sign |
| FltRound.RoundHalfAway | flt/flt-round.c:11-23 | values in [0.5, 1) round away from zero to +/-1 |
| FltRound.IntegralFromOneToTwo | flt/flt-round.c:18 | the integral part of a value in [1, 2) is 1 with its sign |
| FltRound.Ceil | flt/flt-round.c:37-54 | flt_ceil returns non-finite values and zeros unchanged and keeps the sign of every non-NaN value |
| FltRound.Floor | flt/flt-round.c:56-73 | flt_floor returns non-finite values and zeros unchanged and keeps the sign of every non-NaN value |
| FltRound.CeilFloorMirror | flt/flt-round.c:37-73 | ceil(-f) == -floor(f), because each rounds the magnitude with the other helper |
| FltRound.FloorOfPositive | flt/flt-round.c:56-73 | for a positive value floor is trunc |
| FltRound.CeilOfNegative | flt/flt-round.c:37-54 | for a negative value ceil is trunc |
| FltRound.CeilFloorBelowOne | flt/flt-round.c:37-73 | a positive value below one has ceiling +1, and a negative one above -1 has floor -1 |
| FltRound.CeilFloorOfWhole | flt/flt-round.c:37-73 | values from exponent field 150 up are their own ceiling and floor |
| FltRound.PackedSignOf | flt/flt-round.c:49-50 | a Normal or Zero record packs with its own sign, so putting the sign back is exact |
| FltRound.UnpackedExponent | flt/flt-round.c:41-42 | Normals unpack to their unbiased exponent and Subnormals to exponents below -126 |
| FltRound.PackedOnes | flt/flt-round.c:80 | the record flt_tmp_init_1 builds packs to +1, and with the sign set to -1 |
| FltFmod.Fmod | flt/flt-fmod.c:8-42 | flt_fmod: NaN for a NaN operand, an infinite dividend or a zero divisor; a finite dividend over an infinity, and a zero over a nonzero divisor, come back unchanged; otherwise the result has the dividend's sign |
| FltFmod.Remainder | flt/flt-fmod.c:19-23 | the main branch (multiply by the reciprocal, keep the fraction, multiply back) gives a well-formed Normal or Zero |
| FltFmod.FractionClass | flt/flt-fmod.c:22 | the fraction of a Normal is a Normal or a Zero |
| FltFmod.FmodDivisorSign | flt/flt-fmod.c:15-16 | the divisor's sign does not matter |
| FltFmod.FmodDividendSign | flt/flt-fmod.c:14-24 | flipping the dividend's sign flips the result's sign (NaN aside) |
| FltFmod.FmodDividendMain | flt/flt-fmod.c:17-25 | in the main branch the result is not NaN and is odd in the dividend |
| FltFmod.FlippedMagnitude | flt/flt-fmod.c:15-16 | a flipped dividend has the same unsigned working value |
| FltFmod.FlippedRemainder | flt/flt-fmod.c:24-25 | a Normal or Zero remainder packs with the given sign, and the other sign gives the flipped word |
| FltFmod.FmodOtherwise | flt/flt-fmod.c:26-40 | outside the main branch the result is the dividend when it is Zero or Normal and the divisor Infinite or Normal, and NaN otherwise |
| FltFmod.FmodBySign | flt/flt-fmod.c:17-25 | in the main branch the result is the remainder of the magnitudes with the dividend's sign |
| FltFmod.FmodOfSmaller | flt/flt-fmod.c:17-40 | a dividend smaller in magnitude than the divisor comes back unchanged |
| FltFmod.UnpackedMagnitude | flt/flt-fmod.c:15-16 | unpacking the magnitude is unpacking with the sign cleared |
| FltPoly.Coefficient | flt/flt-poly.c:13-16 | coefficient i is the Normal with sign ps[i], mantissa pm[i] and exponent pe[i] |
| FltPoly.Horner | flt/flt-poly.c:13-18 | with one term the polynomial is its first coefficient |
| FltPoly.Terms | flt/flt-poly.c:13-14 | the loop uses limit terms, and at least the first coefficient |
| FltPoly.Evaluate | flt/flt-poly.c:8-21 | flt_tmp_evaluate's for loop leaves Horner's rule over the tables at the old value in *pt, after limit - 1 multiply-and-add steps |
| FltPoly.HornerNext | flt/flt-poly.c:15-17 | one pass of the loop (multiply by t, add the next coefficient) extends Horner's rule by one term |
| FltPoly.HornerPass | flt/flt-poly.c:15-17 | one pass on the objects u and v turns u from the value of n terms into the value of n + 1 terms |
| FltPoly.EvaluateConstant | flt/flt-poly.c:13 | a one-term table gives its coefficient whatever the argument |
| FltPoly.HornerWf | flt/flt-poly.c:13-18 | normalised tables and a well-formed argument give a well-formed value |
| FltPoly.HornerFinite | flt/flt-poly.c:13-18 | a Normal or Zero argument gives a Normal or Zero value |
| FltPoly.HornerAtZero | flt/flt-poly.c:13-18 | at zero the polynomial is its last coefficient |
| FltPoly.HornerAtNaN | flt/flt-poly.c:15 | with two or more terms a NaN argument gives NaN |
| FltPoly.HornerEquivalent | flt/flt-poly.c:15 | equivalent arguments give the same value |
| FltPoly.HornerPrefix | flt/flt-poly.c:14 | only the first n table entries are read |
| FltPoly.CoefficientPrefix | flt/flt-poly.c:16 | a coefficient read from the table does not depend on entries past it |
| FltSqrt.NewtonStep | flt/flt-sqrt.c:81-85 | a Newton step (x + t/x) / 2 keeps a positive Normal positive and Normal |
| FltSqrt.Newton | flt/flt-sqrt.c:80-86 | any number of steps keeps a positive Normal |
| FltSqrt.MantissaRoot | flt/flt-sqrt.c:71-87 | the root of the mantissa in [1, 2) is a positive Normal, and a mantissa of exactly 1 is its own root |
| FltSqrt.FirstGuess | flt/flt-sqrt.c:74-79 | the root of the mantissa is three Newton steps from 0.41195... t + 0.60072... |
| FltSqrt.RootOfMantissa | flt/flt-sqrt.c:72-86 | the in-place guess and for loop compute MantissaRoot |
| FltSqrt.NewtonIteration | flt/flt-sqrt.c:81-85 | one pass of the loop body computes NewtonStep |
| FltSqrt.SquareRoot | flt/flt-sqrt.c:61-95 | the square root of a positive Normal is a positive Normal |
| FltSqrt.OddRoot | flt/flt-sqrt.c:90-93 | the mantissa root, times sqrt 2 when the exponent is odd, is a positive Normal; for an even exponent it is the mantissa root itself |
| FltSqrt.TmpSqrt | flt/flt-sqrt.c:61-95 | flt_tmp_sqrt leaves SquareRoot(old value) |
| FltSqrt.RootOfEvenPower | flt/flt-sqrt.c:69-94 | a power of two with an even exponent has the exact root at half the exponent |
| FltSqrt.RootOfOddPower | flt/flt-sqrt.c:89-94 | an odd power of two gives sqrt(2) (0x5A82799A) at the exponent halved toward minus infinity |
| FltSqrt.RootScales | flt/flt-sqrt.c:69-94 | adding 2k to the exponent adds k to the root's exponent |
| FltSqrt.SquareRootExt | flt/flt-sqrt.c:51-59 | flt_tmp_sqrt_ext: a positive Normal gets a positive Normal root, a negative Normal becomes +0, and other classes are unchanged |
| FltSqrt.TmpSqrtExt | flt/flt-sqrt.c:51-59 | the in-place version leaves SquareRootExt(old value) |
| FltSqrt.ExtEquivalent | flt/flt-sqrt.c:51-59 | equivalent inputs give the same packed root |
| FltSqrt.Sqrt | flt/flt-sqrt.c:11-48 | flt_sqrt: +inf gives +inf; NaN, -inf and negative finite values give NaN; zeros are returned with their sign; positive values give a positive non-NaN root |
| FltSqrt.SqrtOfPowerOfFour | flt/flt-sqrt.c:61-95 | an even power of two has its exact square root |
| FltSqrt.Hypot | flt/flt-sqrt.c:23-35 | flt_hypot: NaN in gives NaN; otherwise the result is not NaN and not negative; two zeros give +0; an infinite first argument gives +inf |
| FltSqrt.SumOfSquares | flt/flt-sqrt.c:29-31 | t*t + u*u is well formed and NaN when an operand is |
| FltSqrt.SquareSign | flt/flt-sqrt.c:29-30 | a square is NaN exactly for NaN, otherwise non-negative; zero squares to zero and infinity to infinity |
| FltSqrt.SumOfSquaresSign | flt/flt-sqrt.c:29-32 | the sum of squares of non-NaN values has a non-NaN, non-negative extended root |
| FltSqrt.SquareSignless | flt/flt-sqrt.c:29-30 | (-t)^2 == t^2 |
| FltSqrt.HypotSignless | flt/flt-sqrt.c:23-35 | hypot ignores the signs of both arguments |
| FltSqrt.HypotCommutes | flt/flt-sqrt.c:23-35 | hypot(f, g) == hypot(g, f) |
| FltSqrt.ReciprocalPositive | flt/flt-sqrt.c:82 | the reciprocal of a positive Normal is a positive Normal |
| FltSqrt.ProductPositive | flt/flt-sqrt.c:83 | the product of positive Normals is a positive Normal |
| FltLog.ExponentMagnitude | flt/flt-log.c:91 | the exponent's magnitude as an unsigned mantissa |
| FltLog.ExponentTmp | flt/flt-log.c:91-92 | the exponent term is +0 for 0 and otherwise a Normal with the exponent's sign whose mantissa scales back to abs(k) |
| FltLog.Log2Mantissa | flt/flt-log.c:85-89 | the log of the mantissa is a well-formed Normal or Zero, and exactly +0 for a mantissa of 1.0 |
| FltLog.TablesNormalized | flt/flt-log.c:72-75 | the ten nonic coefficients are normalised |
| FltLog.Log2Tmp | flt/flt-log.c:67-94 | flt_tmp_log2 of a positive Normal is a well-formed Normal or Zero |
| FltLog.TmpLog2 | flt/flt-log.c:67-94 | the in-place flt_tmp_log2 leaves Log2Tmp(old value) |
| FltLog.Log2OfPowerOfTwo | flt/flt-log.c:85-93 | log2 of a power of two is its exponent exactly |
| FltLog.ExponentIsLtof | flt/flt-log.c:91-92 | the exponent term is the working value flt_ltof would build |
| FltLog.LogWith | flt/flt-log.c:12-65 | a log scaled by a positive constant: +inf gives +inf; NaN, -inf and negative values give NaN; zeros give -inf; positive finite values give a non-NaN result |
| FltLog.Log2 | flt/flt-log.c:12-22 | flt_log2 has those special values |
| FltLog.Ln | flt/flt-log.c:24-37 | flt_log is log2 scaled by log(2) (TMP_2LOG2 at exponent -1) |
| FltLog.Log10 | flt/flt-log.c:39-52 | flt_log10 is log2 scaled by log10(2) (0x4D104D42 at exponent -2) |
| FltLog.Log2IsUnscaled | flt/flt-log.c:12-22 | flt_log2 is the same computation with scale 1 |
| FltLog.Log2OfNormalPower | flt/flt-log.c:67-94 | log2 of a Normal power of two is flt_ltof of its unbiased exponent |
| FltLog.LogsOfOne | flt/flt-log.c:85-86 | log2, log and log10 of 1 are +0 |
| FltLog.LogsAgreeOutsideDomain | flt/flt-log.c:55-65 | outside the positive finite values the three logs share the special-value table |
| FltExp.ExpPoly | flt/flt-exp.c:96-101 | 2^x for a mantissa in [1, 2) is a positive Normal, exactly 2.0 at a mantissa of 1 |
| FltExp.Squarings | flt/flt-exp.c:103-106 | repeated squaring keeps a positive Normal positive and Normal |
| FltExp.Roots | flt/flt-exp.c:108-109 | repeated square roots keep a positive Normal |
| FltExp.Exp2Scaled | flt/flt-exp.c:94-109 | the polynomial, squared or rooted once per unit of exponent, is a positive Normal |
| FltExp.Exp2Work | flt/flt-exp.c:73-110 | flt_tmp_exp2_wrk of a positive Normal is a positive Normal or +inf, and +inf above 149.0 |
| FltExp.Exp2Tmp | flt/flt-exp.c:62-70 | flt_tmp_exp2 is non-negative Normal, Zero or +inf; a negative argument gives the reciprocal of 2 to its magnitude |
| FltExp.TmpExp2 | flt/flt-exp.c:62-70 | the in-place version leaves Exp2Tmp(old value) |
| FltExp.TmpExp2Work | flt/flt-exp.c:73-110 | the in-place flt_tmp_exp2_wrk leaves Exp2Work(old value) |
| FltExp.TmpExp2Scaled | flt/flt-exp.c:96-109 | the shortcut or polynomial and both loops leave Exp2Scaled |
| FltExp.MantissaPower | flt/flt-exp.c:96-101 | the shortcut or flt_tmp_evaluate leaves ExpPoly |
| FltExp.SquareLoop | flt/flt-exp.c:103-106 | the positive-powers for loop leaves Squarings by the positive part of the exponent |
| FltExp.RootLoop | flt/flt-exp.c:108-109 | the negative-powers for loop leaves Roots by the negative part of the exponent |
| FltExp.RootStep | flt/flt-exp.c:108-109 | one pass takes one square root of the positive Normal, leaving one fewer root to reach the same value |
| FltExp.ExpWith | flt/flt-exp.c:7-59 | 2^(f*scale): +inf gives +inf, -inf gives +0, NaN gives NaN, zeros give 1, and other values a non-NaN non-negative result |
| FltExp.Scaled | flt/flt-exp.c:23-26 | only a Normal is multiplied by the scale: it stays Normal, and every other class passes through unchanged |
| FltExp.Exp2 | flt/flt-exp.c:7-17 | flt_exp2: +inf gives +inf, -inf gives +0, NaN gives NaN, zeros give 1, and any other non-NaN input a non-NaN non-negative result |
| FltExp.Exp2Packed | flt/flt-exp.c:50-59 | flt_tmp_exp2_alt on the special classes (+inf, +0, NaN, 1) and the packed flt_tmp_exp2 of a Normal: NaN only for NaN, never negative |
| FltExp.Exp | flt/flt-exp.c:19-32 | flt_exp is 2^(f / log 2) |
| FltExp.Exp10 | flt/flt-exp.c:34-47 | flt_exp10 is 2^(f * log2(10)), with log2(10) as 0x6A4D3C26 at exponent 1 |
| FltExp.ExpTablesNormalized | flt/flt-exp.c:78-81 | the ten nonic coefficients are normalised |
| FltExp.PolynomialPositive | flt/flt-exp.c:74-101 | the nonic polynomial is a positive Normal on [1, 2) |
| FltExp.ReciprocalOfPower | flt/flt-exp.c:67 | the reciprocal of a positive Normal or +inf is a non-negative Normal or Zero |
| FltExp.SquaringsOfPowerOfTwo | flt/flt-exp.c:103-106 | n squarings of 2^a give 2^(a*2^n) exactly |
| FltExp.ProductOfPowersOfTwo | flt/flt-exp.c:105 | 2^a * 2^b == 2^(a+b) exactly |
| FltExp.PowerBelowLimit | flt/flt-exp.c:88-89 | 2^k with k <= 7 is not above 149.0 |
| FltExp.Exp2OfPowerOfTwo | flt/flt-exp.c:94-106 | 2^(2^k) is computed exactly for k <= 7 |
| FltExp.Exp2OfHalf | flt/flt-exp.c:97-109 | 2^0.5 is the square root of 2 |
| FltExp.Exp2BeyondLimit | flt/flt-exp.c:63-92 | above 149.0, 2^t is +inf and 2^-t is +0 |
| FltExp.Exp2OfPowerPattern | flt/flt-exp.c:73-110 | for packed 2^k, 0 <= k < 7, flt_exp2 gives exactly 2^(2^k), and at k == 7 +inf |
| FltExp.Exp2OfPositive | flt/flt-exp.c:7-17 | flt_exp2 of a positive Normal packs Exp2Work of its working value |
| FltExp.Exp2IsUnscaled | flt/flt-exp.c:7-17 | flt_exp2 is ExpWith at scale 1 |
| FltPow.TmpIsOdd | flt/flt-pow.c:181-198 | flt_tmp_is_odd answers IsOdd: Normal, and the integral part halved leaves a fraction |
| FltPow.IsOddOfWhole | flt/flt-pow.c:181-198 | a Normal is odd exactly when its integral part is an odd integer |
| FltPow.IsOddAtOne | flt/flt-pow.c:190-194 | a value in [1, 2) is odd and has integral part 1 |
| FltPow.IsOddInRange | flt/flt-pow.c:188-194 | with 0 < e <= 30, odd exactly when the integral part is odd |
| FltPow.IsOddAboveRange | flt/flt-pow.c:188-194 | with e > 30 the value has no unit bit and is even |
| FltPow.IntegralInRange | flt/flt-pow.c:188 | flt_tmp_modf's integral part clears the mantissa bits below the units |
| FltPow.HalvedFraction | flt/flt-pow.c:191-194 | halving the integral part leaves a fraction exactly when its unit bit is set |
| FltPow.HalvedToUnits | flt/flt-pow.c:191-192 | at e == 30 halving leaves no fraction |
| FltPow.WholeEvenAboveRange | flt/flt-pow.c:190-194 | an integral part with e > 30 is even |
| FltPow.WholeHalves | flt/flt-pow.c:135 | decrementing the exponent halves the integral part, rounding down |
| FltPow.WholeBits | flt/flt-pow.c:128-136 | the exponent's integral part is the number the loop's odd tests spell out bit by bit |
| FltPow.PowLoop | flt/flt-pow.c:128-136 | the square-and-multiply loop keeps u's class, sign and mantissa, and stops with the exponent negative unless the result left class Normal |
| FltPow.SquareAndMultiply | flt/flt-pow.c:128-136 | the in-place while loop leaves PowLoop of the old (v, t, u) |
| FltPow.SquareAndMultiplyStep | flt/flt-pow.c:129-135 | one pass multiplies v by t when u is odd, squares t and halves u |
| FltPow.PowLoopPositive | flt/flt-pow.c:128-136 | positive Normal v and t stay positive Normal, and u ends at exponent -1 when it started at or above 0 |
| FltPow.PowLoopStep | flt/flt-pow.c:128-136 | with u.e >= 0 the loop is one step followed by the loop on the halved exponent |
| FltPow.PowLoopOfPowers | flt/flt-pow.c:128-136 | on powers of two, 2^x * (2^y)^n is 2^(x + y*n) exactly |
| FltPow.OddStep | flt/flt-pow.c:130-131 | multiplying in the base on an odd exponent adds y to the power of two |
| FltPow.PowBase | flt/flt-pow.c:118-125 | the base after the inversion for a negative exponent and the sign strip is a positive Normal |
| FltPow.PowN | flt/flt-pow.c:112-179 | flt_tmp_powN: a Normal base gives a Normal with the base's sign only for odd u; a zero base gives inf for negative u and zero otherwise; an infinite base the reverse; the sign kept only for odd u; NaN stays NaN |
| FltPow.PowNExponent | flt/flt-pow.c:119-136 | the exponent is left with sign 0 and, if it was at least 1, at exponent -1 |
| FltPow.TmpPowN | flt/flt-pow.c:112-179 | the in-place flt_tmp_powN leaves PowN in *pt and PowNExponent in *pu |
| FltPow.PowNOfPowerOfTwo | flt/flt-pow.c:112-139 | (2^a)^u is 2^(a*u) exactly for an integral u, and 2^(-a*u) for negative u |
| FltPow.PowExponentBeyondInt32 | flt/flt-pow.c:128-136 | computing 2^(2^32) by repeated squaring takes the working exponent to 2^32, past the C `int` that holds it (flt/flt-tmp.h:15) |
| FltPow.PowNInverts | flt/flt-pow.c:119-122 | t^-u is (1/t)^u |
| FltPow.PowNSign | flt/flt-pow.c:124-139 | (-t)^u is t^u with the sign flipped for odd u and cleared for even u |
| FltPow.ReciprocalOfNormal | flt/flt-pow.c:121 | 1/t of a Normal is a Normal with t's sign, and 1/(-t) == -(1/t) |
| FltPow.PowAlt | flt/flt-pow.c:55-109 | flt_tmp_pow_alt: -inf to a non-integral power gives +0 or +inf by the exponent's sign; zero gives +inf or +0; -1 to an infinite power gives 1; every other remaining case is NaN |
| FltPow.PowByLogarithm | flt/flt-pow.c:40-48 | t^u as 2^(u*log2 t): NaN for a NaN u, non-NaN and non-negative for a Normal u |
| FltPow.LogProductShape | flt/flt-pow.c:42-43 | u*log2 t is NaN for a NaN u and finite for a Normal u |
| FltPow.Pow | flt/flt-pow.c:14-52 | flt_pow: u == 0 and t == 1 give 1 even with NaN; +inf gives +0 or +inf by u's sign; otherwise NaN in gives NaN |
| FltPow.PowOfNegativeOne | flt/flt-pow.c:94-98 | (-1)^(+/-inf) == 1 |
| FltPow.PowOfNegativeBase | flt/flt-pow.c:85-108 | a negative finite base to a non-integral finite power is NaN |
| FltPow.PowOfPositiveBase | flt/flt-pow.c:40-48 | a positive finite base to a non-integral finite power is non-NaN and non-negative |
| FltPow.PowOfZeroBase | flt/flt-pow.c:72-83 | +/-0 to a non-integral power is +inf for a negative power and +0 otherwise |
| FltPow.PowOfSpecialBaseIntegral | flt/flt-pow.c:143-172 | +/-0 and -inf to an integral power: inf or zero by the exponent's sign, negative only for an odd exponent and a negative base |
| FltTrig.TablesNormalized | flt/flt-trig.c:168-175 | the sine, cosine and arctangent tables hold ten normalised coefficients each |
| FltTrig.Polynomial | flt/flt-trig.c:182 | a nonic table at a Normal or Zero argument gives a Normal or Zero |
| FltTrig.Reduced | flt/flt-trig.c:142-154 | flt_tmp_fmod_2pi keeps the sign and finiteness, maps zero to zero, and leaves a magnitude below 8 (exponent at most 2) |
| FltTrig.ReductionFacts | flt/flt-trig.c:147-152 | t/(2 pi), its fraction and the fraction times 2 pi are all finite and well formed |
| FltTrig.TmpFmod2Pi | flt/flt-trig.c:142-154 | the in-place reduction leaves a value equivalent to Reduced(old value) |
| FltTrig.ReducedEquivalent | flt/flt-trig.c:142-154 | equivalent arguments reduce to equivalent values |
| FltTrig.SinTmp | flt/flt-trig.c:167-185 | the sine of a finite argument is finite |
| FltTrig.CosTmp | flt/flt-trig.c:198-212 | the cosine of a finite argument is finite |
| FltTrig.TanTmp | flt/flt-trig.c:225-234 | the tangent is well formed, and finite whenever the cosine is a Normal |
| FltTrig.QuotientFinite | flt/flt-trig.c:232-233 | a finite value divided by a Normal is finite |
| FltTrig.TmpSin | flt/flt-trig.c:167-185 | the in-place flt_tmp_sin leaves SinTmp(old value) |
| FltTrig.TmpCos | flt/flt-trig.c:198-212 | the in-place flt_tmp_cos leaves CosTmp(old value) |
| FltTrig.TmpTan | flt/flt-trig.c:225-234 | the in-place flt_tmp_tan leaves TanTmp(old value) |
| FltTrig.SinEquivalent | flt/flt-trig.c:167-185 | equivalent arguments give the same sine |
| FltTrig.CosEquivalent | flt/flt-trig.c:198-212 | equivalent arguments give the same cosine |
| FltTrig.Sin | flt/flt-trig.c:22-32 | flt_sin keeps signed zeros, gives NaN for infinities and NaN, and a non-NaN value otherwise |
| FltTrig.Cos | flt/flt-trig.c:34-44 | flt_cos gives 1 at zero, NaN for infinities and NaN, and a non-NaN value otherwise |
| FltTrig.Tan | flt/flt-trig.c:46-56 | flt_tan keeps signed zeros and gives NaN for infinities and NaN |
| FltTrig.SinTmpOdd | flt/flt-trig.c:179-184 | sin(-t) == -sin(t) on working values |
| FltTrig.CosTmpEven | flt/flt-trig.c:208-209 | cos(-t) == cos(t) on working values |
| FltTrig.ReducedNegated | flt/flt-trig.c:145-153 | the reduction commutes with negation |
| FltTrig.SinOdd | flt/flt-trig.c:167-185 | flt_sin(-f) == -flt_sin(f) for finite f |
| FltTrig.CosEven | flt/flt-trig.c:198-212 | flt_cos(-f) == flt_cos(f) for non-NaN f |
| FltTrig.ProductNegatedLeft | flt/flt-basic.c:216-272 | (-a)*b == -(a*b) on working values |
| FltTrig.TanTmpOdd | flt/flt-trig.c:225-234 | tan(-t) == -tan(t) on working values |
| FltTrig.TanOdd | flt/flt-trig.c:225-234 | flt_tan(-f) == -flt_tan(f) for finite f unless the result is NaN |
| FltTrig.AtanMagnitude | flt/flt-trig.c:329-341 | the arctangent of a non-negative, non-NaN value is finite |
| FltTrig.AtanTmp | flt/flt-trig.c:315-344 | flt_tmp_atan is finite and carries the argument's sign |
| FltTrig.TmpAtan | flt/flt-trig.c:315-344 | the in-place flt_tmp_atan leaves AtanTmp(old value) |
| FltTrig.OneComparison | flt/flt-trig.c:330-332 | the comparison with 1 holds exactly for zero and for Normals of magnitude at most 1 |
| FltTrig.AtanBranches | flt/flt-trig.c:329-341 | at most 1 the polynomial is used directly; above 1 the result is pi/2 minus the polynomial at 1/t; the sign is restored either way |
| FltTrig.Atan | flt/flt-trig.c:86-96 | flt_atan keeps signed zeros, maps +/-inf to +/-pi/2 and NaN to NaN, and gives a non-NaN result with f's sign otherwise |
| FltTrig.AtanOdd | flt/flt-trig.c:315-344 | flt_atan(-f) == -flt_atan(f) for non-NaN f |
| FltTrig.Complement | flt/flt-trig.c:255-260 | sqrt(1 - t^2) is finite and non-negative |
| FltTrig.ComplementFacts | flt/flt-trig.c:255-259 | 1 - t^2 is a Normal or +0 |
| FltTrig.AsinRatio | flt/flt-trig.c:255-262 | t / sqrt(1 - t^2) is non-negative and not NaN |
| FltTrig.AcosRatio | flt/flt-trig.c:287-294 | sqrt(1 - t^2) / t is finite and non-negative |
| FltTrig.AsinTmp | flt/flt-trig.c:248-266 | flt_tmp_asin is finite with the argument's sign |
| FltTrig.AcosTmp | flt/flt-trig.c:280-301 | flt_tmp_acos is finite, and non-negative for a non-negative argument |
| FltTrig.TmpAsin | flt/flt-trig.c:248-266 | the in-place flt_tmp_asin leaves AsinTmp(old value) |
| FltTrig.TmpAcos | flt/flt-trig.c:280-301 | the in-place flt_tmp_acos leaves AcosTmp(old value) |
| FltTrig.WithinOneIsMagnitude | flt/flt-trig.c:62-64 | the quick test e < 0 or t == 1 is exactly magnitude at most 1 |
| FltTrig.Asin | flt/flt-trig.c:58-70 | flt_asin keeps signed zeros, gives NaN for infinities, NaN and magnitudes above 1, and a non-NaN result with f's sign otherwise |
| FltTrig.Acos | flt/flt-trig.c:72-84 | flt_acos gives pi/2 at zero, NaN for infinities, NaN and magnitudes above 1, and a non-NaN result otherwise, non-negative for non-negative f |
| FltTrig.AsinOdd | flt/flt-trig.c:248-266 | flt_asin(-f) == -flt_asin(f) unless the result is NaN |
| FltTrig.AcosOfNegated | flt/flt-trig.c:296-300 | acos(-t) == pi - acos(t) on working values |
| FltTrig.Quadrant | flt/flt-trig.c:112-125 | placing atan(y/x) in its quadrant keeps a finite value finite |
| FltTrig.Atan2Tmp | flt/flt-trig.c:105-136 | the working atan2 is well formed |
| FltTrig.Atan2 | flt/flt-trig.c:98-139 | flt_atan2: along the X axis 0 or pi, along the Y axis +/-pi/2, two non-zero finite values give a non-NaN result, everything else NaN |
| FltTrig.Atan2TmpOfNormals | flt/flt-trig.c:108-125 | for two Normals atan2 is the quadrant placement of atan(abs(y)/abs(x)) |
| FltTrig.QuadrantRight | flt/flt-trig.c:112-119 | for x > 0 the result is atan(y/x) with y's sign |
| FltTrig.Atan2TmpAtOne | flt/flt-trig.c:108-125 | atan2(t, 1) == atan(t) on working values |
| FltTrig.QuotientByOne | flt/flt-trig.c:109-110 | t / 1 == t |
| FltTrig.Atan2AtOne | flt/flt-trig.c:98-139 | flt_atan2(y, 1) == flt_atan(y) for non-zero finite y |
| FltTrig.Atan2AtUnit | flt/flt-trig.c:98-139 | the same for any x that unpacks to 1 |
| FltTrig.Atan2OddInY | flt/flt-trig.c:112-134 | for x >= 0, flipping y's sign flips the result's sign |
| FltTrig.PiPatterns | flt/flt-trig.c:115-134 | the working pi, pi/2 and -pi/2 pack to the published FLT_POS_PI, FLT_POS_PI_2 and FLT_NEG_PI_2 |
| FltTrig.PackedNegated | flt/flt-basic.c:274 | packing a negated value flips the packed sign bit, except for NaN |
| FltHtrig.Scaled | flt/flt-htrig.c:21-22 | t / log 2 of a Normal is a Normal with t's sign |
| FltHtrig.Exponentials | flt/flt-htrig.c:21-26 | (e^t, e^-t) is (2^kt, 1/2^kt) for t >= 0 and swapped for t < 0, with 2^(k abs(t)) a positive Normal or +inf |
| FltHtrig.ExponentialsAre | flt/flt-htrig.c:23-26 | the pair is exactly what the two flt_tmp_exp2 calls compute |
| FltHtrig.PowerPair | flt/flt-exp.c:67 | the reciprocal of a positive power is positive, and of +inf is +0 |
| FltHtrig.PairSum | flt/flt-htrig.c:49 | e^t + e^-t is positive Normal or +inf, whichever order it is added in |
| FltHtrig.Halved | flt/flt-htrig.c:29-51 | halving keeps class and sign |
| FltHtrig.SinhTmp | flt/flt-htrig.c:20-31 | the working sinh is never NaN |
| FltHtrig.CoshTmp | flt/flt-htrig.c:42-52 | the working cosh is a positive Normal or +inf |
| FltHtrig.TanhTmp | flt/flt-htrig.c:65-78 | the working tanh is well formed |
| FltHtrig.SinhInPlace | flt/flt-htrig.c:20-31 | the in-place sequence of flt_tmp calls leaves SinhTmp(old value) |
| FltHtrig.CoshInPlace | flt/flt-htrig.c:42-52 | the in-place sequence leaves CoshTmp(old value) |
| FltHtrig.TanhInPlace | flt/flt-htrig.c:65-78 | the in-place sequence leaves TanhTmp(old value) |
| FltHtrig.AsinhMagnitude | flt/flt-htrig.c:95-103 | log(t + sqrt(t^2 + 1)) of a positive Normal is finite |
| FltHtrig.AsinhSteps | flt/flt-htrig.c:95-100 | t^2 + 1 and t + sqrt(t^2 + 1) are positive Normals |
| FltHtrig.AsinhTmp | flt/flt-htrig.c:90-106 | the working asinh is finite with t's sign |
| FltHtrig.AsinhInPlace | flt/flt-htrig.c:90-106 | the in-place sequence leaves AsinhTmp(old value) |
| FltHtrig.AcoshTmp | flt/flt-htrig.c:118-128 | the working acosh of a positive Normal is finite |
| FltHtrig.AcoshArgument | flt/flt-htrig.c:123-124 | t plus a finite root is a positive Normal |
| FltHtrig.AcoshSteps | flt/flt-htrig.c:119-124 | t^2 - 1 is well formed and t + sqrt(t^2 - 1) a positive Normal |
| FltHtrig.AcoshInPlace | flt/flt-htrig.c:118-128 | the in-place sequence leaves AcoshTmp(old value) |
| FltHtrig.AtanhTmp | flt/flt-htrig.c:141-153 | the working atanh of a magnitude below 1 is finite |
| FltHtrig.AtanhArguments | flt/flt-htrig.c:142-148 | 1 - t and 1 + t are positive Normals when the magnitude of t is below 1 |
| FltHtrig.AtanhInPlace | flt/flt-htrig.c:141-153 | the in-place sequence leaves AtanhTmp(old value) |
| FltHtrig.Sinh | flt/flt-htrig.c:15-35 | flt_sinh keeps zeros and infinities, maps NaN to NaN, and is non-NaN otherwise |
| FltHtrig.Cosh | flt/flt-htrig.c:37-56 | flt_cosh gives 1 at zero, +inf at infinities, NaN for NaN, and a non-negative non-NaN value otherwise |
| FltHtrig.Tanh | flt/flt-htrig.c:58-82 | flt_tanh keeps zeros, maps +/-inf to +/-1 and NaN to NaN, and is non-NaN otherwise |
| FltHtrig.TanhRange | flt/flt-htrig.c:64-65 | the comparison against +/-10 holds exactly when the magnitude is below 10 |
| FltHtrig.TanhFinite | flt/flt-htrig.c:65-77 | inside that range the working tanh is finite |
| FltHtrig.InRangePower | flt/flt-htrig.c:64-69 | inside that range 2^(k abs(t)) is a positive Normal |
| FltHtrig.TanhSaturates | flt/flt-htrig.c:58-82 | packed magnitudes of 10 and above give +/-1 |
| FltHtrig.TanhComputed | flt/flt-htrig.c:65-78 | packed magnitudes below 10 give the packed working tanh |
| FltHtrig.Asinh | flt/flt-htrig.c:84-110 | flt_asinh keeps zeros and infinities, maps NaN to NaN, and is non-NaN with f's sign otherwise |
| FltHtrig.Acosh | flt/flt-htrig.c:112-132 | flt_acosh gives +inf at +inf, a non-NaN value for Normals of at least 1, and NaN for everything else |
| FltHtrig.Atanh | flt/flt-htrig.c:135-235 | flt_atanh keeps zeros, gives +/-inf at +/-1, NaN for infinities, NaN and other magnitudes of at least 1, and a non-NaN value below 1 |
| FltHtrig.SubnormalBelowOne | flt/flt-htrig.c:141 | every subnormal unpacks to a Normal with exponent below -126 |
| FltHtrig.SumOfNegations | flt/flt-basic.c:133-214 | (-a) + (-b) is equivalent to -(a + b) when the sum is not zero |
| FltHtrig.CombineNegated | flt/flt-basic.c:170-213 | the add's final combination step commutes with negation |
| FltHtrig.CancelledSum | flt/flt-basic.c:170-213 | a sum that cancels to zero is +0 in either sign arrangement |
| FltHtrig.ExponentialsOfNegated | flt/flt-htrig.c:21-26 | negating t swaps e^t and e^-t |
| FltHtrig.DifferenceOfNegated | flt/flt-htrig.c:27-28 | e^-t - e^t is -(e^t - e^-t), except that an exact cancellation is +0 both ways |
| FltHtrig.SinhTmpOdd | flt/flt-htrig.c:20-31 | sinh(-t) is equivalent to -sinh(t), except a zero result, which is +0 both ways |
| FltHtrig.SinhOdd | flt/flt-htrig.c:15-35 | flt_sinh(-f) == -flt_sinh(f), or both are +0 |
| FltHtrig.CoshEven | flt/flt-htrig.c:37-56 | flt_cosh(-f) == flt_cosh(f) |
| FltHtrig.TanhTmpOdd | flt/flt-htrig.c:65-78 | tanh(-t) is equivalent to -tanh(t), except a zero result, which is +0 both ways |
| FltHtrig.TanhOdd | flt/flt-htrig.c:58-82 | flt_tanh(-f) == -flt_tanh(f), or both are +0 |
| FltHtrig.AsinhOdd | flt/flt-htrig.c:91-105 | flt_asinh(-f) == -flt_asinh(f) |
| FltHtrig.AcoshOfOne | flt/flt-htrig.c:118-128 | flt_acosh(1) == +0 |
| FltHtrig.AcoshTmpOfOne | flt/flt-htrig.c:119-127 | on 1.0 the working acosh is +0: t^2 - 1 cancels to +0, its root is +0, and log2(1) is +0 |
| FltAtof.ToLower | flt/flt-io.c:65 | upper-case ASCII letters map to their lower-case partners 32 code points higher; everything else is unchanged |
| FltAtof.PreparedConstants | flt/flt-io.c:506-534 | the constants k1 ... k1e8 are the working values of flt_ltof(1), ..., flt_ltof(100000000) |
| FltAtof.ConvertedInteger | flt/flt-convert.c:8-19 | flt_ltof of a positive integer below 2^24 unpacks to that integer, normalised |
| FltAtof.LtofLarge | flt/flt-io.c:533-534 | flt_ltof(100000000) unpacks to k1e8, 10^8 rounded to 24 bits |
| FltAtof.ReciprocalConstants | flt/flt-io.c:536-548 | the inverted constants 10^-1 ... 10^-8 are positive Normals at exponents -4, -7, -10, -17 and -27, and 1/2 is exact |
| FltAtof.DigitTmp | flt/flt-io.c:138-147 | a non-zero digit becomes a positive Normal |
| FltAtof.IntegerDigit | flt/flt-io.c:135-142 | an integer digit (t*10 + d) keeps the scan invariant, the mode and the fraction weight |
| FltAtof.FractionDigit | flt/flt-io.c:143-151 | a fraction digit (weight /10, t + d*weight) keeps the scan invariant and the mode |
| FltAtof.DigitStep | flt/flt-io.c:131-155 | a digit keeps the invariant and both signs |
| FltAtof.Step | flt/flt-io.c:65-171 | one character of the switch keeps the scan invariant (a non-negative, non-NaN t until an 'n' or unknown first character; a positive weight) |
| FltAtof.ScanFrom | flt/flt-io.c:64-172 | the scanning for loop, stopping at the end, a NUL or a cleared can_continue, keeps the invariant |
| FltAtof.ScanOn | flt/flt-io.c:64 | a non-NUL character is consumed by one step |
| FltAtof.Scale | flt/flt-io.c:184-209 | scaling a positive Normal by 10^n stays a positive Normal |
| FltAtof.SmallScaled | flt/flt-io.c:194-209 | the 5, 3, 2, 1 chain for 0 <= n < 8 stays a positive Normal |
| FltAtof.Factor | flt/flt-io.c:184-209 | the scale factor 10^n is a positive Normal |
| FltAtof.ScaleStep | flt/flt-io.c:184-192 | each pass of the two while loops multiplies by 10^-8 or 10^8 and moves the exponent by 8 |
| FltAtof.ScaleExponent | flt/flt-io.c:189-209 | scaling up by 10^n raises the binary exponent by 3n to 4n |
| FltAtof.SmallScaledExponent | flt/flt-io.c:194-209 | the same for the 5, 3, 2, 1 chain |
| FltAtof.ProductKeepsSign | flt/flt-io.c:211 | multiplying by a positive constant keeps class and sign |
| FltAtof.SumOfNonNegatives | flt/flt-io.c:140-149 | adding a positive digit to a non-negative total gives a positive Normal |
| FltAtof.Atof | flt/flt-io.c:50-217 | flt_atof is NaN exactly when the scan produced NaN, and otherwise carries the parsed mantissa sign |
| FltAtof.FinishSign | flt/flt-io.c:173-216 | the finishing step keeps NaN-ness and puts the mantissa sign on every other result |
| FltAtof.Outcome | flt/flt-io.c:173-216 | the value packed at the end is well formed and is NaN exactly when the scan produced NaN |
| FltAtof.AtofText | flt/flt-io.c:50-217 | the imperative flt_atof with its for loop, switch and scaling loops returns Atof(s) |
| FltAtof.ScanCharacter | flt/flt-io.c:65-171 | the switch body on the in-place t and v computes Step |
| FltAtof.DecimalScale | flt/flt-io.c:184-209 | the while loops and the chain leave exponent 0 and w == Scale(old w, exponent) |
| FltAtof.SmallDecimalScale | flt/flt-io.c:194-209 | the chain leaves exponent 0 and w == SmallScaled(old w, exponent) |
| FltAtof.FinishText | flt/flt-io.c:173-216 | the imperative finishing step returns Finish |
| FltAtof.MultiplyBy | flt/flt-io.c:136 | flt_tmp_multiply by a constant leaves the product |
| FltAtof.StepShifted | flt/flt-io.c:80 | a step does not look at an earlier non-digit except through string[i - 1] |
| FltAtof.ScanShifted | flt/flt-io.c:64-172 | the scan from i + 1 of [c] + s equals the scan from i of s when c is not a digit |
| FltAtof.AtofSkipsLeading | flt/flt-io.c:66-164 | a leading blank or '+' does not change the result |
| FltAtof.StepMirrored | flt/flt-io.c:65-171 | two scans that differ only in the mantissa sign stay that way |
| FltAtof.DigitIgnoresSign | flt/flt-io.c:131-155 | digits do not depend on the mantissa sign |
| FltAtof.StepIgnoresSign | flt/flt-io.c:65-171 | only '-' and 'i' look at the mantissa sign |
| FltAtof.ScanMirrored | flt/flt-io.c:64-172 | sign-mirrored scans end sign-mirrored |
| FltAtof.FinishMirrored | flt/flt-io.c:173-177 | sign-mirrored scans finish as negations of each other unless NaN |
| FltAtof.OutcomeMirrored | flt/flt-io.c:173-177 | for mirrored scans that are not NaN the values to pack are negations of each other |
| FltAtof.AtofMinus | flt/flt-io.c:74-78 | flt_atof("-" + s) is the negation of flt_atof(s), except NaN |
| FltAtof.ScanMinus | flt/flt-io.c:64-172 | the scan of "-" + s ends in the sign-mirrored image of the scan of s |
| FltAtof.MinusFirst | flt/flt-io.c:74-78 | a leading '-' flips only the mantissa sign and the scan resumes at the next character |
| FltAtof.AtofInfinity | flt/flt-io.c:112-120 | "inf" and "InF" read as +inf, "-InF" as -inf |
| FltAtof.AtofNotANumber | flt/flt-io.c:121-170 | "nan", "NaN" and an unknown first character read as NaN |
| FltAtof.AtofZeros | flt/flt-io.c:61-120 | "", "0" and the cut-off "in" read as +0, "-0" as -0 |
| FltAtof.AtofOne | flt/flt-io.c:131-142 | "1" reads as 1.0 and "-1" as -1.0 |
| FltFtoa.Find | flt/flt-io.c:463 | strchr: -1 when the character is absent, otherwise the index of its first occurrence |
| FltFtoa.ToUpper | flt/flt-io.c:477 | lower-case ASCII letters map to their upper-case partners 32 code points lower; everything else is unchanged |
| FltFtoa.DigitChar | flt/flt-io.c:434-458 | the digit character is '0' plus the accumulated value |
| FltFtoa.Precision | flt/flt-io.c:462-467 | printf_precision is a single digit, so at most 9 |
| FltFtoa.PrecisionCases | flt/flt-io.c:462-467 | the digit after the first '.' when there is one, otherwise 6 |
| FltFtoa.PrecisionExamples | flt/flt-io.c:462-467 | "%.3e" has precision 3, "%e" and "%.e" have 6 |
| FltFtoa.Uppercased | flt/flt-io.c:475-478 | every character is replaced by its upper-case form, length kept |
| FltFtoa.Uppercase | flt/flt-io.c:476-477 | the for loop returns Uppercased(s) |
| FltFtoa.PostProcess | flt/flt-io.c:470-487 | printf_post_process's three steps return PostProcessed(s, format, precision) |
| FltFtoa.PostProcessedLength | flt/flt-io.c:480-484 | post-processing removes at most two characters |
| FltFtoa.PostProcessedUpper | flt/flt-io.c:475-478 | with an 'E', 'F' or 'G' in the format no lower-case letter is left |
| FltFtoa.PostProcessedPlain | flt/flt-io.c:483-484 | with a non-zero precision and a lower-case format, only a leading '+' is removed, and only when the format has no '+' |
| FltFtoa.PostProcessedNoPoint | flt/flt-io.c:480-481 | at precision 0 the single '.' is removed |
| FltFtoa.PostProcessedNoDot | flt/flt-io.c:470-487 | on a string without '.', post-processing is case and sign handling alone |
| FltFtoa.Peel | flt/flt-io.c:439-454 | one Fibonacci test either leaves the digit or adds d to it, keeping the value well formed |
| FltFtoa.PeelStep | flt/flt-io.c:439-442 | the in-place test and subtraction computes Peel |
| FltFtoa.NextDigit | flt/flt-io.c:433-459 | flt_tmp_get_next_digit returns a character from '0' up, keeps the value well formed, and returns '0' with the value unchanged for zero |
| FltFtoa.GetNextDigit | flt/flt-io.c:433-459 | the in-place version computes NextDigit |
| FltFtoa.Iterate | flt/flt-io.c:256-257 | n repetitions of a digit step produce n characters |
| FltFtoa.Digits | flt/flt-io.c:256-323 | n digit extractions produce n characters |
| FltFtoa.NextDigits | flt/flt-io.c:256-257 | the for loop of get_next_digit calls computes Digits |
| FltFtoa.IterateSplit | flt/flt-io.c:252-257 | extracting a + b digits is extracting a and then b from where they left off |
| FltFtoa.DigitsSplit | flt/flt-io.c:309-315 | the same for Digits |
| FltFtoa.DigitsOne | flt/flt-io.c:253 | one extraction is one get_next_digit call |
| FltFtoa.DigitsOfZero | flt/flt-io.c:436-437 | a zero value yields only '0's and stays zero |
| FltFtoa.Times | flt/flt-io.c:372-427 | multiplying positive Normals gives a positive Normal whose exponent is the sum or one more |
| FltFtoa.Plus | flt/flt-io.c:389-419 | adding a positive rounding term keeps a positive Normal |
| FltFtoa.RoundingTerm | flt/flt-io.c:370-386 | the rounding term 0.5 * 10^-precision is a positive Normal |
| FltFtoa.PrepareRounding | flt/flt-io.c:370-386 | the in-place chain computes RoundingTerm |
| FltFtoa.Divided | flt/flt-io.c:371-386 | one step of the chain keeps the term positive |
| FltFtoa.DivideDown | flt/flt-io.c:371-374 | the in-place step computes Divided |
| FltFtoa.Raised | flt/flt-io.c:391-394 | the bring-up loop keeps a positive Normal |
| FltFtoa.Lowered | flt/flt-io.c:396-399 | the bring-down loop keeps a positive Normal |
| FltFtoa.Loops | flt/flt-io.c:391-399 | both loops keep a positive Normal |
| FltFtoa.RaiseAndLower | flt/flt-io.c:391-399 | the in-place while loops compute Loops |
| FltFtoa.BelowOne | flt/flt-io.c:391 | a positive Normal below 1 has a negative exponent |
| FltFtoa.NotBelowHundredMillion | flt/flt-io.c:396 | a positive Normal at or above k1e8 has exponent at least 26 |
| FltFtoa.RaisedBound | flt/flt-io.c:391-394 | each pass by 10^8 lowers the decimal exponent by 8 and raises the binary exponent by at least 26, and the loop ends with exponent at most 26 |
| FltFtoa.LoweredBound | flt/flt-io.c:396-399 | each pass by 10^-8 raises the decimal exponent by 8 and lowers the binary one by at least 26, ending at exponent at least -1 |
| FltFtoa.LoopsBound | flt/flt-io.c:391-399 | for any unpacked FLT the loops give a decimal exponent between -57 and 39 |
| FltFtoa.Reduced | flt/flt-io.c:401-416 | one compare-and-divide step keeps a positive Normal and adds 0 or d to the exponent |
| FltFtoa.Reduce | flt/flt-io.c:401-404 | the in-place step computes Reduced |
| FltFtoa.RangedHigh | flt/flt-io.c:401-408 | the 10^5 and 10^3 steps add 0 to 8 to the exponent |
| FltFtoa.RangedLow | flt/flt-io.c:409-416 | the 10^2 and 10^1 steps add 0 to 3 |
| FltFtoa.Ranged | flt/flt-io.c:401-416 | the four steps add 0 to 11 |
| FltFtoa.BringIntoRange | flt/flt-io.c:401-416 | the in-place steps compute Ranged |
| FltFtoa.Lifted | flt/flt-io.c:425-428 | the final below-1 check subtracts 0 or 1 |
| FltFtoa.Lift | flt/flt-io.c:425-428 | the in-place check computes Lifted |
| FltFtoa.Rounded | flt/flt-io.c:388-419 | adding the rounding term keeps a positive Normal |
| FltFtoa.Settled | flt/flt-io.c:418-428 | rounding after and the two last checks move the exponent by at most 1 |
| FltFtoa.Settle | flt/flt-io.c:418-428 | the in-place steps compute Settled |
| FltFtoa.Base10 | flt/flt-io.c:354-431 | flt_tmp_normalize_to_base_10 keeps a positive Normal |
| FltFtoa.NormalizeToBase10 | flt/flt-io.c:354-431 | the in-place function returns Base10's decimal exponent and leaves its value |
| FltFtoa.Base10Bound | flt/flt-io.c:354-431 | for any unpacked FLT the decimal exponent lies in -58..51, so it fits the two exponent digits and the 51-byte F buffer |
| FltFtoa.UnpackedRange | flt/flt-convert.c:76-101 | every unpacked FLT is well formed with exponent in -160..128 |
| FltFtoa.ZeroText | flt/flt-io.c:276-337 | the zero text "+0." plus precision zeros has p + 3 characters |
| FltFtoa.ExponentText | flt/flt-io.c:259-264 | "e", the exponent's sign, and two digits spelling its magnitude |
| FltFtoa.Zeros | flt/flt-io.c:320-321 | n '0' characters |
| FltFtoa.ELayout | flt/flt-io.c:245-266 | the E text is sign, first digit, '.', precision more digits, then the exponent, p + 7 characters, the digits being the first p + 1 extracted |
| FltFtoa.EZeroLayout | flt/flt-io.c:275-279 | a zero prints as sign, "0.", precision zeros and "e+00" |
| FltFtoa.ENormalText | flt/flt-io.c:249-266 | the imperative text building computes ENormal |
| FltFtoa.ENormalRaw | flt/flt-io.c:245-266 | the Normal branch computes ERaw |
| FltFtoa.ERawText | flt/flt-io.c:243-281 | the e-format text before post-processing is ERaw |
| FltFtoa.EFormatText | flt/flt-io.c:230-283 | flt_tmp_e_format returns EFormat |
| FltFtoa.FLayoutLarge | flt/flt-io.c:307-315 | with a decimal exponent b >= 0: sign, b + 1 digits, '.', precision digits, all from one extraction |
| FltFtoa.FLayoutSmall | flt/flt-io.c:317-324 | with b < 0: sign, "0.", -b - 1 zeros, then precision + b + 1 digits (none if that is negative) |
| FltFtoa.FZeroLayout | flt/flt-io.c:335-337 | a zero prints as sign, "0." and precision zeros |
| FltFtoa.FNormalText | flt/flt-io.c:304-326 | the imperative text building computes FNormal |
| FltFtoa.FRawText | flt/flt-io.c:298-340 | the f-format text before post-processing is FRaw |
| FltFtoa.FFormatText | flt/flt-io.c:285-342 | flt_tmp_f_format returns FFormat |
| FltFtoa.ChooseScientific | flt/flt-io.c:346-349 | g format picks E exactly when abs(t) >= 10^5 or abs(t) < 10^-5 |
| FltFtoa.ScientificZero | flt/flt-io.c:348-349 | zero goes to E format |
| FltFtoa.ScientificInfinite | flt/flt-io.c:348 | infinity goes to E format |
| FltFtoa.ScientificNaN | flt/flt-io.c:348-351 | NaN goes to F format |
| FltFtoa.ScientificNormal | flt/flt-io.c:348-351 | binary exponents above 16 or below -17 go to E, those strictly between -17 and 16 go to F |
| FltFtoa.GFormatText | flt/flt-io.c:344-352 | flt_tmp_g_format returns GFormat |
| FltFtoa.GeneralZero | flt/flt-io.c:344-352 | zero in g format is its e-format text |
| FltFtoa.FtoaText | flt/flt-io.c:219-228 | flt_ftoa dispatches on 'e'/'E', then 'f'/'F', else g, and returns Ftoa |
| FltFtoa.SpecialFormats | flt/flt-io.c:268-334 | infinities and NaN print the same special text in both E and F formats |
| FltFtoa.FtoaNaN | flt/flt-io.c:272-273 | NaN prints "nan", or "NAN" for an upper-case format |
| FltFtoa.FtoaInfinity | flt/flt-io.c:269-330 | infinities print "+inf" or "-inf" before post-processing |
| FltFtoa.FtoaZeroE | flt/flt-io.c:275-279 | +0 with "%e" prints "0.000000e+00" |
| FltFtoa.ZeroE | flt/flt-io.c:275-279 | the same for any plain lower-case format without '.' or '+' |
| FltFtoa.FtoaZeroG | flt/flt-io.c:344-352 | +0 with "%g" prints "0.000000e+00" |
| FltFtoa.FtoaNegativeZeroF | flt/flt-io.c:335-337 | -0 with "%.2f" prints "-0.00" |
| FltFtoa.FtoaZeroUpper | flt/flt-io.c:275-281 | +0 with "%+.0E" prints "+0E+00" |
| FltPhp.TrimLeft | flt/flt.php:385-401 | removes exactly the maximal prefix of trimmed characters (space, tab, newline, carriage return, NUL, vertical tab) |
| FltPhp.TrimRight | flt/flt.php:385-401 | removes exactly the maximal suffix of trimmed characters |
| FltPhp.Trim | flt/flt.php:385-401 | trim() leaves a string that is empty or starts and ends with a kept character |
| FltPhp.TokenSuffix | flt/flt.php:386-387 | the longest suffix made of word characters and allowed characters |
| FltPhp.GetPreviousToken | flt/flt.php:382-389 | the backwards for loop over the trimmed input returns that longest accepted suffix |
| FltPhp.IndexFrom | flt/flt.php:393 | the first occurrence of the separator at or after i, or -1 when there is none |
| FltPhp.Explode | flt/flt.php:393 | explode() always yields at least one piece |
| FltPhp.SplitAround | flt/flt.php:393 | an occurrence splits the string into before, separator and after |
| FltPhp.ExplodeImplode | flt/flt.php:393-395 | implode(sep, explode(sep, s)) == s |
| FltPhp.ExplodeLast | flt/flt.php:393-394 | the last piece contains no occurrence of the separator |
| FltPhp.ImplodeLast | flt/flt.php:395 | joining all pieces is joining all but the last, the separator, then the last |
| FltPhp.SplitParts | flt/flt.php:392-396 | split_previous_token: when the token occurs, left + token + right == input and right contains no token; otherwise ('', input) |
| FltPhp.SplitOverlapping | flt/flt.php:392-396 | for a self-overlapping token the split follows explode's left-to-right cuts: ("aa", "aaa") gives ("", "a") |
| FltPhp.WordRun | flt/flt.php:402 | the end of the maximal run of word characters from i |
| FltPhp.SpaceRun | flt/flt.php:407 | the end of the maximal run of whitespace from i |
| FltPhp.GroupEndFrom | flt/flt.php:411-419 | the first end after j at which the parenthesis depth returns to zero, or -1 |
| FltPhp.GroupEnd | flt/flt.php:410-419 | the end just after the ')' that balances the '(' at m, the depth being nonzero at every earlier end, or -1 when it never balances |
| FltPhp.ScanWord | flt/flt.php:402-403 | the word loop stops at WordRun and collects the characters before it |
| FltPhp.ScanSpace | flt/flt.php:407-408 | the whitespace loop stops at SpaceRun and extends the token to it |
| FltPhp.ScanGroup | flt/flt.php:410-422 | the level-counting loop returns the text up to the balancing ')' or, when it never balances, "" |
| FltPhp.GetNextToken | flt/flt.php:399-428 | get_next_token returns NextToken(input, fn) |
| FltPhp.NextTokenPlain | flt/flt.php:402-427 | an identifier that neither starts with fn nor is followed by '(' is returned as the longest leading run of word characters |
| FltPhp.GroupCloses | flt/flt.php:411-419 | a group that balances ends with ')' and holds at least one more character |
| FltPhp.NextTokenCall | flt/flt.php:405-426 | for a call, the token is "" or a prefix of the trimmed input ending in a group that opens after the whitespace, balances, and closes only at its last character; it is "" exactly when no '(' follows or the group never closes |
| FltPhp.DepthOfOpen | flt/flt.php:413-414 | the depth is 1 after the opening '(' |
| FltPhp.DepthPositive | flt/flt.php:411-418 | until the group closes its depth stays positive |
| FltPhp.ParseFormat | flt/flt.php:860-917 | the imperative for loop and switch return ParsedFormat, the fold of one Step per character |
| FltPhp.RunClassified | flt/flt.php:863-913 | every field holds only the characters its own cases append: '-', '+', "0_ ", digits and '*', '.' and digits, specifier letters |
| FltPhp.RunModeMonotone | flt/flt.php:876-913 | the mode only moves forward; '%' clears the fields but not the mode |
| FltPhp.ParsedMode | flt/flt.php:892-913 | the final mode is 3 exactly when the format holds a '.' or a specifier letter, and 2 exactly when it holds neither but holds a nonzero digit or '*' |
| FltPhp.PercentResets | flt/flt.php:863-865 | only the text after the last '%' fills the fields; the text before it matters only through the mode |
| FltPhp.DigitsAppend | flt/flt.php:875-901 | in mode 2 or 3 digits append to the width or the precision |
| FltPhp.ZerosPad | flt/flt.php:876-879 | in mode 1 zeros append to the padding |
| FltPhp.RunPrefix | flt/flt.php:861 | scanning one more character is one more step |
| FltPhp.ParseExample | flt/flt.php:860-917 | "%-08.3f" parses to ('-', '0', '8', '', '.3', 'f') |
| FltPhp.ParseExampleSpace | flt/flt.php:872-913 | "% +1.9le" parses to ('', '_ ', '1', '+', '.9', 'le'), and the unknown 'd' of "%5d" is skipped |

## Left out

- The rotating static string buffers of the e and f formatters and their `_index` counters (flt/flt-io.c:234-241, 289-296) are not modelled: each call returns a fresh string, so the reuse of a buffer after 15 (or 5) calls is not captured.
- `flt_get_scanf_buffer` and `g_flt_last_scanf_result` (flt/flt-io.c:33, 489-500) are not modelled; they only hand out storage for the rewritten `scanf` calls.
- The lazy one-time set-up of the text constants (`_prepared`, flt/flt-io.c:503-551) is modelled as constants that are always ready.
- The `exit(EXIT_FAILURE)` guards (flt/flt-sqrt.c:67-68, flt/flt-log.c:79-80, flt/flt-exp.c:85-86, flt/flt-io.c:359-360) become preconditions (a positive Normal); every caller in the library meets them.
- The NULL checks of `flt_frexp` and `flt_modf` (flt/flt-frexp.c:9-10, flt/flt-modf.c:14-15) are excluded by the type: the destination is a non-null object.
- C strings are sequences without a NUL terminator; `flt_atof` additionally stops at an embedded NUL, and the one-character lookahead for "inf" and "nan" reads a NUL past the end as no match.
- `flt_atof` accumulates the decimal exponent in a C `int` (flt/flt-io.c:153); the model uses an unbounded integer, so the overflow of exponents with more than nine digits is not captured.
- FltAtof.Atof: the numeric value of a parsed decimal is stated only through the scan (`ScanFrom`) and its sign; the 10^n scale factors are not shown to be exact, and the inverted constants k1en1 ... k1en8 are stated by class, sign and exponent, not by their mantissas.
- FltFtoa.NextDigit: the digit is bounded only by what the four Fibonacci tests can add (up to ';'), not by '9'; that the value after normalisation is below 10 is not proved.
- FltSqrt.SquareRoot, FltLog.Log2Tmp, FltExp.Exp2Work, FltTrig.SinTmp, FltTrig.CosTmp, FltTrig.AtanTmp: the accuracy of the polynomial and Newton approximations is not stated; contracts give class, sign, exactness on powers of two and symmetry, not closeness to the real function.
- FltHtrig.SinhOdd and FltHtrig.TanhOdd: a result that cancels to zero is +0 for both signs of the argument, so oddness holds except for that zero.
- `flt_tmp_init_0`, `flt_tmp_init_1`, `flt_tmp_init_1_log2` and `flt_tmp_init_log2` are declared in flt/flt-tmp.h but their definitions are not part of this model; the values used are 0, 1, 1/log 2 (`TMP_1_LOG2`) and log 2 (`TMP_2LOG2` at exponent -1).
- Of flt.php only `get_previous_token`, `split_previous_token`, `get_next_token` and `parse_format` are modelled; the line rewriting, the compiler-message handling and the eg/ driver programs are not.
- In `parse_format`, PHP variables read before the first '%' are undefined and read as empty strings; the model starts from empty fields.
- In `get_next_token`, an empty `fn` matches every token, as PHP 8's `strpos` does for an empty needle; earlier PHP versions are not modelled.
- `split_previous_token` is modelled for non-empty tokens only: `explode` rejects an empty separator, and every caller in flt.php checks the token is not '' first.
- FltBasic.Multiply, FltBasic.MultiplySpecial, FltBasic.ProductCommutes, FltArith.PackedProduct, FltArith.Multiply, FltArith.MultiplyCommutes: these follow the corrected signed-zero table of the Findings section; the code as written (FltBasic.MultiplyAsWritten, FltArith.MultiplyAsWritten) differs from them only where FltBasic.ProductAsWrittenDiffers says, in the sign of a Normal times a Zero.
- FltArith.Divide, FltArith.MultiplyInto, FltArith.DivideInto: these store and return the corrected product or quotient; flt_divide and flt_divide_into as written give +0 for +0 / -1 and for 1 / -inf (FltArith.DivideAsWritten, FltArith.DivideSignedZeroAsWritten).
- FltPow.PowNOfPowerOfTwo, FltPow.PowLoopOfPowers: the working exponent is a C `int` (flt/flt-tmp.h:15) that `pt->e += pu->e` (flt/flt-basic.c:227) overflows once the squarings reach 2^31, e.g. flt_pow(2.0, 4294967296.0) (FltPow.PowExponentBeyondInt32); the model keeps the exact exponent, so such results are infinite here and undefined in C.
- FltLdexp.Ldexp: the model adds an unbounded n to the exponent; in C, `t.e += exponent` (flt/flt-ldexp.c:8) overflows for exponents near INT_MAX or INT_MIN, which is not captured.
- FltConvert.PackSubnormal, FltConvert.PackSubnormalSplit: for exponents from -157 to -151 the C shifts a 32-bit word right by 32 to 38 places (flt/flt-convert.c:132), which is undefined behaviour; the model takes the mathematical shift, which gives a zero magnitude.
- FltConvert.PackSubnormalSplit: the contract states the sign and a bound on the magnitude, not the rounding; adding 2^7 before the shift rounds to nearest only when the shift is 8.
- Concurrency (the static buffers are shared between threads) and floating-point hardware are outside the model.

## Findings

| source | as written | input that shows it | evidently intended | confidence | as-written member | corrected member |
|---|---|---|---|---|---|---|
| flt/flt-basic.c:249-269 | a Normal times a Zero takes the Zero's class but keeps the Normal's sign; a Zero times a Normal has no case and keeps the Zero's sign; flt_divide multiplies by the reciprocal and inherits both | `flt_multiply(1.0, -0.0)` gives +0 and `flt_multiply(+0.0, -1.0)` gives +0, while `flt_multiply(-0.0, 1.0)` gives -0; `flt_divide(+0.0, -1.0)` and `flt_divide(1.0, -inf)` give +0 | the sign of every product and quotient is the exclusive or of the operand signs, as IEEE 754 section 6.3 requires and as the Normal, Infinite and Zero-times-Zero cases already do | not executed | FltArith.MultiplySignedZeroAsWritten, FltArith.DivideSignedZeroAsWritten, FltBasic.ProductAsWrittenDiffers (over FltArith.MultiplyAsWritten, FltArith.DivideAsWritten, FltBasic.MultiplyAsWritten, FltBasic.ProductAsWritten) | FltArith.Multiply, FltArith.Divide, FltBasic.Multiply (over FltBasic.Product, FltBasic.ProductSpecial) |
