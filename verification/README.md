# Fixed-point kernels and core helpers of CMSIS, in Dafny

This project models the parts of the CMSIS headers that compute something: the
fixed-point kernels of the DSP library (reciprocals, PID controller, motor-control
transforms, interpolation, circular buffers, the C emulations of the SIMD
instructions), the bit-scanning loops of the compiler headers, the start-up loader,
and the interrupt-priority registers of two core families.

Conventions. C integers are Dafny integers, and every conversion is written out
(`Wrap8` to `Wrap64`, `Unsigned32`). A `>>` on a signed value is an arithmetic shift,
that is, division rounding down. Unsigned words are naturals below 2^32 with the
bitwise operators defined digit by digit in `Bits`. A loop or an object whose fields
change is a method, with a loop or a class, proved against a function of the
arguments or of the old state; what the code promises is proved about that function.
An out-pointer is a result or a component of a pair. A signed overflow that C leaves
undefined is modelled as wrap-around where it can occur, except the negation of the
lowest value in the reciprocals, which a precondition excludes. The DSP branch of
`arm_pid_q15` is compiled only where the core has SMUAD and SMLALD, the C versions of
these only where it has not; the model runs that branch on the C versions.

| file | content |
|---|---|
| Bits.dfy | powers of two, bits of a number, `& \| ^ ~ << >>`, Euclidean division |
| FixedPoint.dfy | Q7/Q15/Q31/Q63, conversions, clip functions, SSAT/USAT/QADD/QSUB, mult32x64 |
| BitLoops.dfy | CLZ, RBIT and ROR |
| Reciprocal.dfy | arm_recip_q31, arm_recip_q15 |
| RecipNegative15.dfy | arm_recip_q15 for inputs that are not positive |
| Simd.dfy | halfword pairs, SMUAD/SMUSD/SMUADX/SMLALD |
| Pid.dfy | arm_pid_q15 (portable branch; DSP branch on the emulated SMUAD and SMLALD), arm_pid_q31 |
| Pid31.dfy | arm_pid_q31 over whole runs |
| MotorTransforms.dfy | Clarke, Park and their inverses in Q31 |
| LinearInterpolation.dfy | linear interpolation in Q7, Q15, Q31 |
| LinearOrder31.dfy | where the Q31 linear interpolation is monotone |
| BilinearInterpolation.dfy | bilinear interpolation in Q7, Q15, Q31 |
| BilinearError31.dfy | the Q31 bilinear interpolation against the exact interpolant, and its order |
| BilinearOrder15.dfy | where the Q15 bilinear interpolation loses a unit, and what follows |
| CircularBuffer.dfy | circular write and read |
| Startup.dfy | copy and zero tables of __cmsis_start |
| Nvic.dfy | priority registers, priority grouping |

## Where the code and its documentation part

The model follows the code. Each difference is a theorem; where the lemma name ends in
`Exactly` it gives the condition under which code and promise agree, if and only if.

- `arm_recip_q31` is a reciprocal for positive inputs only (`RecipQ31Exactly`); for any
  input that is not positive it returns 0x7FFFFFFF (`RecipQ31NonPositive`).
- `arm_recip_q15` is one for positive inputs only, too (`RecipQ15Exactly`): for the
  others its result wraps, and comes near the reciprocal in 4 of 64 buckets only
  (`BucketReachesExactly`).
- `clip_q31_to_q7` tests bits 23 and up, so it is no clamp between 8 and 24 bits
  (`ClipQ31ToQ7Exactly`); `clip_q63_to_q15` does not test the value it narrows
  (`ClipQ63ToQ15Exactly`).
- `arm_clarke_q31` is documented as free of overflow because its addition saturates,
  but the second product wraps for |Ib| > 0x6ED9EBA1 (`ClarkeExactly`), and the way
  back then returns Ib with the opposite sign (`ClarkeRoundTripFlips`). The other round
  trip fails for the same Ib (`InvClarkeRoundTrip`).
- `arm_inv_park_q31` makes the same claim; the product of -1 and -1 wraps, and a Park
  round trip reaches it (`ParkRoundTripExactly`, `ParkRoundTripCornerReached`). When
  each output of the two rotations is the saturated exact value is settled by
  `ParkExactly` and `InvParkExactly`.
- `arm_pid_q31` is documented to saturate after its wrapping 64-bit accumulator; the
  final 32-bit addition wraps too (`Pid31Documented`, `Pid31Exactly`). The wraps of a
  whole run are one (`RunCollapses`).
- With the emulated SMLALD the DSP build of `arm_pid_q15` leaves the portable one when
  A1 = A2 = -1 meets two inputs of -1 (`BuildsStayCloseExactly`).
- `arm_linear_interp_q15` and `_q7` return the first entry unweighted below the table
  and weighted above it, so they are monotone over all inputs only if that entry is
  not positive (`InterpQ15MonotoneExactly`). `_q31` can drop by 2 units inside a
  segment and never by more (`InterpQ31AlmostMonotone`); which tables escape that is
  settled by `InterpQ31MonotoneExactly`, for steep tables by `SteepTablesExactly` and
  for constant ones by `ConstantTableExactly`.
- The bilinear kernels compare the column index with the number of rows and vice
  versa: inner cells of a table that is not square can give zero (`BilinearQ7Value`),
  and a point can pass with its last read outside the table (`GuardVersusReads`,
  `GuardSoundExactly`). The early shifts of the q15 kernel can cost a unit at one point
  and not at the next (`BilinearQ15Value`), so cells may differ where they meet
  (`SeamAlongRExactly`, `SeamAlongCExactly`), monotonicity can be lost
  (`MonotoneInXExactly`, `MonotoneInYExactly`) and a constant table need not give a
  constant (`ConstantTableExactly` in BilinearOrder15). The q31 kernel turns a cell of
  -1 into almost +1 (`BilinearQ31LowestCell`); corners at -2^31 + 13 or above are safe,
  and that is the lowest such bound (`ShiftSafeExactly`). Even there it can drop by 16
  units along X and 12 along Y where the table does not (`AlmostMonotoneInX`,
  `AlmostMonotoneInY`, `DropsReached`).
- The circular buffer stores its offset as uint16_t and takes its length as int32_t:
  it holds the end of the stream for up to 65536 samples only (`RefinesStreamsExactly`).
  Its comment promises negative increments; the offset stays inside for ever for
  increments from 0 to L only (`OffsetNeverEscapesExactly`).

## Model

| member | source | states |
|---|---|---|
| FixedPoint.ClipQ63ToQ31IsClamp | CMSIS/Include/arm_math.h:670-675 | the shift-compare-XOR expression is the saturation of every q63 to q31 |
| FixedPoint.ClipQ31ToQ15IsClamp | CMSIS/Include/arm_math.h:700-705 | the same for q31 to q15 |
| FixedPoint.ClipQ31ToQ7Exactly | CMSIS/Include/arm_math.h:690-695 | for which q31 values the q7 clip is a saturation, if and only if |
| FixedPoint.ClipQ31ToQ7Value | CMSIS/Include/arm_math.h:690-695 | its value for every input: the signed low byte up to 24 bits, the q7 bounds beyond |
| FixedPoint.ClipQ63ToQ15Exactly | CMSIS/Include/arm_math.h:680-685 | for which q63 values the q15 clip is the saturated x >> 15, if and only if |
| FixedPoint.ClipQ63ToQ15Value | CMSIS/Include/arm_math.h:680-685 | its value for every input: the signed low halfword of x >> 15 up to 32 bits, the q15 bounds beyond |
| FixedPoint.SsatIsClamp | CMSIS/Include/cmsis_gcc.h:1382-1398 | saturation to sat bits for sat in 1..32, identity otherwise |
| FixedPoint.UsatIsClamp | CMSIS/Include/cmsis_gcc.h:1407-1423 | saturation to [0, 2^sat - 1] for sat up to 31, a plain conversion otherwise |
| FixedPoint.QaddQsubAreClamps | CMSIS/Include/arm_math.h:1055-1071 | QADD and QSUB are the saturated exact sum and difference |
| FixedPoint.Mult32x64Exact | CMSIS/Include/arm_math.h:710-716 | splitting the 64-bit factor loses nothing: the result is the exact product shifted down by 32, with no intermediate wrap |
| BitLoops.CountLeadingZeros | CMSIS/Include/cmsis_iccarm.h:525-538 | the mask loop returns 32 minus the binary length, for every word including 0 |
| BitLoops.LeadingZerosNormalise | CMSIS/Include/arm_math.h:590-603 | shifting by the count brings the top bit of any non-zero word to bit 31 |
| BitLoops.LeadingZerosExactly | CMSIS/Include/cmsis_iccarm.h:525-538 | the count is the only such shift, and 32 for the word 0, if and only if |
| BitLoops.ReverseBits | CMSIS/Include/cmsis_gcc.h:1057-1069 | the early-stopping loop, started from the unreversed word, ends with the reversed word; its shift count never goes below zero |
| BitLoops.ReverseBit | CMSIS/Include/cmsis_gcc.h:1041-1047 | bit i of the reversed word is bit 31 - i |
| BitLoops.ReverseInvolution | CMSIS/Include/cmsis_gcc.h:1048-1070 | reversing twice is the identity |
| BitLoops.LeadingZerosOfReverse | CMSIS/Include/cmsis_iccarm.h:525-550 | CLZ of RBIT counts the trailing zeros of every non-zero word |
| BitLoops.RotateRightBit | CMSIS/Include/cmsis_gcc.h:1021-1029 | bit i of ROR is bit (i + op2) mod 32, for every op2 including multiples of 32 |
| BitLoops.RotateRightCompose | CMSIS/Include/cmsis_gcc.h:1021-1029 | rotations compose by adding amounts modulo 32 |
| Reciprocal.NewtonContracts | CMSIS/Include/arm_math.h:752-759 | one truncating Newton step in either format is one-sided, contracts the deficit quadratically with an explicit rounding cost, and stays in the format |
| Reciprocal.ArmRecipQ31 | CMSIS/Include/arm_math.h:721-766 | the normalising and refining loop computes Recip31 and returns the normalising shift plus one, for every input the code can take |
| Reciprocal.Step31Exact | CMSIS/Include/arm_math.h:752-759 | on normalised inputs and any non-negative seed no unsigned step wraps and the clip never fires |
| Reciprocal.Step31Everywhere | CMSIS/Include/arm_math.h:752-759 | for normalised inputs of either sign and every seed the unsigned intermediate is in range and a step is the saturated exact value |
| Reciprocal.Step31Contracts | CMSIS/Include/arm_math.h:750-760 | from any non-negative seed each step leaves in*out below 2^61, with a deficit D' satisfying D^2 <= 2^61 D' < D^2 + 2^94 |
| Reciprocal.RecipQ31Accurate | CMSIS/Include/arm_math.h:718-766 | for every positive input and every table within 2^-6 of the reciprocal, 2^62 - 2^39 < in * out * 2^ret < 2^62 for the original input |
| Reciprocal.RecipQ31TwoSteps | CMSIS/Include/arm_math.h:718-766 | for a positive input, any shift k that brings it into [2^30, 2^31) and any table with an entry that is not negative there, the result is exactly two Newton steps on unbounded integers from the entry at x * 2^k / 2^24 - 64 |
| Reciprocal.RecipQ31FromSeed | CMSIS/Include/arm_math.h:750-760 | for a positive input and any seed that is not negative, D0^4 <= 2^183 D < (D0^2 + 2^94)^2 + 2^216 for the deficits D0 of the seed and D of the result |
| Reciprocal.RecipQ31Everywhere | CMSIS/Include/arm_math.h:721-766 | for every input and any table, two saturated exact steps from the entry that six bits of the normalised input select |
| Reciprocal.SignBits31Exactly | CMSIS/Include/arm_math.h:732-742 | the returned shift less one is the only one that normalises the magnitude, and 31 for 0 |
| Reciprocal.MidpointTable31Accurate | CMSIS/Include/arm_math.h:743-748 | the table of bucket-midpoint reciprocals is such a table, for all 2^30 normalised inputs |
| Reciprocal.RecipQ31NonPositive | CMSIS/Include/arm_math.h:735-760 | with any accurate table the result is 0x7FFFFFFF for every input that is not positive |
| Reciprocal.RecipQ31Exactly | CMSIS/Include/arm_math.h:718-766 | with any accurate table the accuracy bound holds if and only if the input is positive |
| Reciprocal.ArmRecipQ15 | CMSIS/Include/arm_math.h:772-817 | the q15 loop computes Recip15 and returns the shift plus one |
| Reciprocal.Step15Exact | CMSIS/Include/arm_math.h:801-810 | the uint32_t product does not wrap, the q15 cast changes nothing, and the commented-out clip would not either |
| Reciprocal.Step15Contracts | CMSIS/Include/arm_math.h:801-810 | from any non-negative seed each step leaves in*out below 2^29, with D^2 <= 2^29 D' < D^2 + 2^46 |
| Reciprocal.RecipQ15Accurate | CMSIS/Include/arm_math.h:769-817 | 2^30 - 2^17 - 2^9 < in * out * 2^ret < 2^30 for every positive input and accurate table |
| Reciprocal.RecipQ15TwoSteps | CMSIS/Include/arm_math.h:769-817 | the q15 twin of the two steps |
| Reciprocal.RecipQ15FromSeed | CMSIS/Include/arm_math.h:801-810 | D0^4 <= 2^87 D < (D0^2 + 2^46)^2 + 2^104, likewise |
| Reciprocal.SignBits15Exactly | CMSIS/Include/arm_math.h:782-792 | the same for the q15 shift, 15 for 0 |
| Reciprocal.MidpointTable15Accurate | CMSIS/Include/arm_math.h:794-799 | an accurate q15 table exists |
| Reciprocal.RecipQ15NegativeExample | CMSIS/Include/arm_math.h:786-810 | an example: with midpoint seeds the q15 version turns -1 into 28717 |
| RecipNegative15.RawSquaresDeficit | CMSIS/Include/arm_math.h:801-810 | for a normalised input of either sign and any q15 intermediate result, 2^29 times the deficit after a step, before its cast, is the square of the deficit before it, within 2^46 |
| RecipNegative15.RecipQ15Everywhere | CMSIS/Include/arm_math.h:772-817 | for every input and any table, two exact steps, each narrowed to 16 bits, from the entry that six bits of the normalised input select |
| RecipNegative15.RecipQ15Exactly | CMSIS/Include/arm_math.h:769-817 | the accuracy bound holds with every accurate table if and only if the input is positive |
| RecipNegative15.SkewedTableExactly | CMSIS/Include/arm_math.h:769-817 | one accurate table meets it for no other input |
| RecipNegative15.RecipQ15Misses | CMSIS/Include/arm_math.h:786-817 | no accurate table meets it for an input that is not positive, unless the table index is 5, 12, 19 or 20 |
| RecipNegative15.BucketReachesExactly | CMSIS/Include/arm_math.h:794-817 | for which table indices some accurate table meets it for some such input: those four, if and only if |
| Simd.WordHalves | CMSIS/Include/arm_math.h:1043-1049 | the two shift expressions are the signed halves and determine the word |
| Simd.DualSum | CMSIS/Include/arm_math.h:1149-1155 | SMUAD is the sum of the products of equal halves for all words, if and only if not all halves are -32768; then it is the lowest value |
| Simd.ComplexProduct | CMSIS/Include/arm_math.h:1161-1167 | SMUSD is the real part of the product of two packed complex numbers for all words; SMUADX the imaginary part if and only if not all halves are -32768 |
| Simd.ComplexNorm | CMSIS/Include/arm_math.h:1149-1167 | Re^2 + Im^2 equals SMUAD(x,x) * SMUAD(y,y) for all words |
| Simd.SmlaldExact | CMSIS/Include/arm_math.h:1119-1128 | for every 64-bit accumulator the result is the exact sum modulo 2^64 if and only if not all halves are -32768 |
| Simd.SmlaldSigned | CMSIS/Include/arm_math.h:1119-1128 | read as a signed number, for accumulators up to 2^62 in magnitude; in the excluded case it is 2^32 too low |
| Pid.Controller.constructor | CMSIS/Include/arm_math.h:1862-1875 | a controller with the given gains and a cleared state |
| Pid.Controller.Process | CMSIS/Include/arm_math.h:5023-5060 | one call updates the three state words in place as Step does and returns the new output |
| Pid.StepIncrement | CMSIS/Include/arm_math.h:5040-5051 | the 64-bit accumulator never overflows the 32-bit saturator argument; the output moves by the truncated correction and is clamped |
| Pid.TracksPositional | CMSIS/Include/arm_math.h:4888-4897 | over every input sequence without a saturating step, S - n(2^15-1) <= 2^15 y <= S for the positional law S |
| Pid.IdealInRangeNeverSaturates | CMSIS/Include/arm_math.h:5011-5021 | if the positional law stays in range no step saturates, so the bound needs no condition on the controller's own state |
| Pid.DspAccumulatorOffset | CMSIS/Include/arm_math.h:5030-5046 | with the emulated instructions the DSP accumulator exceeds the portable one by the product of the sign halves, if and only if the second dual product does not overflow; if it does, by 2^32 less |
| Pid.DspStepClose | CMSIS/Include/arm_math.h:5030-5051 | from equal state the two builds differ by at most one unit |
| Pid.DspTracksPositional | CMSIS/Include/arm_math.h:5030-5059 | the DSP build tracks the positional law over every unsaturated run, lifted by at most 2^-15 units per step |
| Pid.BuildsStayClose | CMSIS/Include/arm_math.h:5030-5059 | over every input sequence clear of that overflow, saturating or not, the DSP output is at or above the portable one, by at most one unit per step with A0 and input both negative; the builds agree for A0 >= 0 |
| Pid.BuildsStayCloseExactly | CMSIS/Include/arm_math.h:5030-5059 | they keep that bound at every step if and only if no step meets the overflow |
| Pid.Pid31Exactly | CMSIS/Include/arm_math.h:4977-5008 | the q31 controller computes the exact value modulo 2^32; it is that value saturated if and only if it fits or meets a bound modulo 2^32 |
| Pid.Pid31Documented | CMSIS/Include/arm_math.h:4966-5008 | it is the documented value, the wrapped 64-bit accumulator shifted and saturated, if and only if that fits 32 bits or is -1.5 * 2^32 |
| Pid31.Controller31.constructor | CMSIS/Include/arm_math.h:1878-1890 | a q31 controller with the given gains and a cleared state |
| Pid31.Controller31.Process | CMSIS/Include/arm_math.h:4977-5008 | one call updates the three state words in place and returns the new output |
| Pid31.RunCollapses | CMSIS/Include/arm_math.h:4977-5008 | after any input sequence the output is the sum of the truncated corrections reduced once modulo 2^32, however often 64-bit and 32-bit sums wrapped before |
| Pid31.EndInRangeTracks | CMSIS/Include/arm_math.h:4888-5008 | if the positional law S is in range at the end of a run, S - n(2^31-1) <= 2^31 y <= S there, whatever overflowed before |
| MotorTransforms.Mul31Exact | CMSIS/Include/arm_math.h:5360-5371 | a q31 product is exact if and only if it is not (-1) * (-1) |
| MotorTransforms.ParkExactly | CMSIS/Include/arm_math.h:5349-5378 | for all inputs, saturating or not: Id is the saturated exact value or one unit below if and only if neither of its products is (-1) * (-1), and Iq that or one unit above if and only if both or neither of its products are |
| MotorTransforms.InvParkExactly | CMSIS/Include/arm_math.h:5452-5481 | the same for the two outputs of the inverse rotation |
| MotorTransforms.ParkRounding | CMSIS/Include/arm_math.h:5349-5378 | if no forward product is (-1) * (-1) and neither forward sum saturates, the forward transform against the exact rotation: d loses less than 2 units, q is off by less than 1 |
| MotorTransforms.ParkRoundTrip | CMSIS/Include/arm_math.h:5452-5481 | for any sine and cosine with which no forward product is (-1) * (-1) and neither forward sum saturates, inverse Park after Park recovers alpha within 4 and beta within 5 units plus the share of sin^2 + cos^2 - 1, each if no product entering it is (-1) * (-1) |
| MotorTransforms.ParkRoundTripExactly | CMSIS/Include/arm_math.h:5446-5481 | under the same two conditions on the forward transform, and for sin^2 + cos^2 within a quarter of 1, that bound holds for a coordinate if and only if no product entering it is (-1) * (-1) |
| MotorTransforms.ParkRoundTripCornerReached | CMSIS/Include/arm_math.h:5463-5471 | an unsaturated forward transform that reaches the wrapping product |
| MotorTransforms.ParkNorm | CMSIS/Include/arm_math.h:5349-5378 | under the same two conditions the rotation preserves the squared length times sin^2 + cos^2 within 4\|Id\| + 2\|Iq\| + 5 |
| MotorTransforms.ClarkeExactly | CMSIS/Include/arm_math.h:5154-5178 | the beta axis is the saturated sum of the two truncated products if and only if \|Ib\| <= 0x6ED9EBA1 |
| MotorTransforms.ClarkeWrapped | CMSIS/Include/arm_math.h:5154-5178 | beyond that bound it is the saturated sum off by 2^32 |
| MotorTransforms.InvClarkeSaturates | CMSIS/Include/arm_math.h:5245-5264 | for all inputs Ib is the saturated exact value or one unit above |
| MotorTransforms.ClarkeRoundTrip | CMSIS/Include/arm_math.h:5245-5264 | for \|Ib\| <= 0x6ED9EBA1 inverse Clarke after Clarke returns Ia exactly and Ib within -3 and +1; if the forward sum saturates, Ib less sqrt(3)/2 of the excess, within -4 and +2 |
| MotorTransforms.ClarkeRoundTripFlips | CMSIS/Include/arm_math.h:5154-5264 | beyond that range Ib comes back with the opposite sign and more than 2^29 in magnitude |
| MotorTransforms.InvClarkeRoundTrip | CMSIS/Include/arm_math.h:5159-5264 | Clarke after inverse Clarke returns alpha exactly for all inputs, and beta within -4 and +1 if and only if Ib before its saturation is at most 0x6ED9EBA1 in magnitude; otherwise beta is off by more than 2^29 |
| LinearInterpolation.SplitAbscissa | CMSIS/Include/arm_math.h:5661-5678 | the two masks are quotient and remainder by 2^20, negative x included |
| LinearInterpolation.InterpQ15Value | CMSIS/Include/arm_math.h:5651-5693 | at every x: the first entry below the table, the last one from its end on, between them the floor of the weighted sum |
| LinearInterpolation.InterpQ15Monotone | CMSIS/Include/arm_math.h:5651-5693 | on a non-decreasing table the result is non-decreasing over all x >= 0, across segments and into the constant tail |
| LinearInterpolation.InterpQ15MonotoneExactly | CMSIS/Include/arm_math.h:5513-5522 | over all x it is so if and only if the first entry is not positive or there is one entry |
| LinearInterpolation.InterpQ15Range | CMSIS/Include/arm_math.h:5680-5691 | the result is between the neighbours, at most one unit below |
| LinearInterpolation.InterpQ15Error | CMSIS/Include/arm_math.h:5684-5691 | the result is the floor of the exact interpolant less y0 / 2^20 |
| LinearInterpolation.InterpQ7IsInterpQ15 | CMSIS/Include/arm_math.h:5708-5750 | the 32-bit q7 kernel computes the same function of the table, so all of the above holds for it |
| LinearInterpolation.InterpQ31Value | CMSIS/Include/arm_math.h:5617-5633 | no cast and no final shift of the q31 kernel overflows, for any table and any x |
| LinearInterpolation.InterpQ31Error | CMSIS/Include/arm_math.h:5593-5635 | the result is in (E - 5, E + 1] for the exact interpolant E |
| LinearOrder31.InterpQ31Floor | CMSIS/Include/arm_math.h:5617-5633 | the result is twice the floor of the untruncated sum or 2 less, and not less at the left end of a segment |
| LinearOrder31.InterpQ31AlmostMonotone | CMSIS/Include/arm_math.h:5593-5635 | on a non-decreasing table the result never drops by more than 2 units, and not at all towards the start of a segment or the tail |
| LinearOrder31.InterpQ31NotMonotone | CMSIS/Include/arm_math.h:5626-5633 | the drop of 2 is reached, on a constant table |
| LinearOrder31.InterpQ31MonotoneExactly | CMSIS/Include/arm_math.h:5593-5635 | on a non-decreasing table it is non-decreasing over all x >= 0 if and only if it is within each of the cells an x can select |
| LinearOrder31.InterpQ31MonotoneEverywhereExactly | CMSIS/Include/arm_math.h:5593-5635 | over all x if and only if moreover the first entry is even and not positive, or there is one entry |
| LinearOrder31.CellMonotone31Exactly | CMSIS/Include/arm_math.h:5620-5633 | a cell is monotone if and only if no step of the fraction leaves the floor of the sum in place and brings in a borrow between the two truncations |
| LinearOrder31.SteepCellsExactly | CMSIS/Include/arm_math.h:5620-5633 | every cell that rises by D or more is monotone if and only if D >= 2^21 - 5 |
| LinearOrder31.SteepTablesExactly | CMSIS/Include/arm_math.h:5593-5635 | every table whose entries rise by D or more is interpolated monotonically if and only if D >= 2^21 - 5 |
| LinearOrder31.ConstantTableExactly | CMSIS/Include/arm_math.h:5593-5635 | a constant table is if and only if its value is 0, 1, positive even with odd part below 2^11, a negative multiple of 2^21, or negative odd v with v + 2^31 at most 2^11 * (floor(2^20 / w) + 1), w the inverse of v modulo 2^21 |
| BilinearInterpolation.GuardVersusReads | CMSIS/Include/arm_math.h:7178-7203 | for all table sizes, which points that pass the boundary test also have their reads inside, if and only if |
| BilinearInterpolation.GuardSoundExactly | CMSIS/Include/arm_math.h:7178-7203 | for which table sizes every point of 12.20 format that passes has its reads inside: with R and C the numbers of rows and columns, at most 2048 each, if and only if R = 0, C = 0 or R < (numRows - C) * numCols |
| BilinearInterpolation.BilinearQ7Everywhere | CMSIS/Include/arm_math.h:7153-7217 | at every point, on the grid or off it: zero if it does not pass the test, otherwise the floor of the exact weighted sum of the four reads over 2^40 |
| BilinearInterpolation.BilinearQ7Value | CMSIS/Include/arm_math.h:7153-7217 | on every grid cell the floor of the weighted sum of its four table entries, or zero if r >= numRows or c >= numCols |
| BilinearInterpolation.ScaledAtIsBlendedRow | CMSIS/Include/arm_math.h:6903-6914 | for fixed Y the weighted sum is the one-dimensional interpolation of the blended row |
| BilinearInterpolation.BilinearQ7SeamAlongR | CMSIS/Include/arm_math.h:7194-7213 | neighbouring cells agree on their shared edge, along the first axis |
| BilinearInterpolation.BilinearQ7SeamAlongC | CMSIS/Include/arm_math.h:7194-7213 | and along the second |
| BilinearInterpolation.BilinearQ7MonotoneInX | CMSIS/Include/arm_math.h:7153-7217 | if every row is non-decreasing the result is non-decreasing in X across all cells |
| BilinearInterpolation.BilinearQ7MonotoneInY | CMSIS/Include/arm_math.h:7153-7217 | if every column is, in Y |
| BilinearInterpolation.BilinearQ7Range | CMSIS/Include/arm_math.h:7199-7216 | the result is between the four corners, at most one unit below |
| BilinearInterpolation.BilinearQ15Everywhere | CMSIS/Include/arm_math.h:7075-7143 | the q15 twin: zero off the test, otherwise the floor of the weighted sum of the four reads less the lost unit |
| BilinearInterpolation.BilinearQ15Value | CMSIS/Include/arm_math.h:7075-7143 | the q15 result is the floor of the exact weighted sum over 2^40, less one exactly when the early shifts lose more than its remainder; it is between the corners as above, and nothing wraps |
| BilinearOrder15.FollowsExactly | CMSIS/Include/arm_math.h:7075-7143 | between two points with ordered sums the results are out of order by one unit at most, if and only if the floors agree and only the second point loses the unit |
| BilinearOrder15.SeamAlongRExactly | CMSIS/Include/arm_math.h:7121-7143 | neighbouring q15 cells differ by at most one unit where they meet along the first axis, and agree if and only if both sides lose the unit or neither does, a condition on the two entries on the seam |
| BilinearOrder15.SeamAlongCExactly | CMSIS/Include/arm_math.h:7121-7143 | and along the second |
| BilinearOrder15.MonotoneInXExactly | CMSIS/Include/arm_math.h:7075-7143 | on non-decreasing rows the q15 result is non-decreasing in X if and only if no point loses a unit that a point to its left with the same floor keeps |
| BilinearOrder15.MonotoneInYExactly | CMSIS/Include/arm_math.h:7075-7143 | the same for columns and Y |
| BilinearOrder15.SixteenthsLoseNothing | CMSIS/Include/arm_math.h:7121-7143 | if all entries are multiples of 16 the result is the floor everywhere |
| BilinearOrder15.SixteenthsMonotone | CMSIS/Include/arm_math.h:7075-7143 | and monotone in X and Y as the table is |
| BilinearOrder15.ConstantTableExactly | CMSIS/Include/arm_math.h:7075-7143 | a table of one value v gives one value at every inner point, and is monotone in X, if and only if v >= 0, v <= -14, v = -12 or v = -8 |
| BilinearInterpolation.CellSum31Range | CMSIS/Include/arm_math.h:7043-7058 | the four truncated terms add up without wrap, and four times their sum is between the corners up to 23 units below (21 from a lower bound that is not positive) and 1 above |
| BilinearInterpolation.ShiftSafeExactly | CMSIS/Include/arm_math.h:7043-7061 | the final shift overflows for no four corners at or above lo and no fractions if and only if lo >= -2^31 + 13 |
| BilinearInterpolation.BilinearQ31Range | CMSIS/Include/arm_math.h:7001-7062 | on such cells the result keeps the range of the sum |
| BilinearError31.CellSum31Error | CMSIS/Include/arm_math.h:7043-7058 | for any four corners four times the q31 accumulator is within 24 units below and 2 above the exact interpolant at their own weights |
| BilinearError31.BilinearQ31Everywhere | CMSIS/Include/arm_math.h:7001-7062 | at every point: zero if it does not pass the test, otherwise that error bound for the result, if no read is below -2^31 + 13 |
| BilinearError31.BilinearQ31Error | CMSIS/Include/arm_math.h:7001-7062 | on grid cells, in terms of the four table entries |
| BilinearError31.AlmostMonotoneInX | CMSIS/Include/arm_math.h:7001-7062 | on non-decreasing rows without an entry below -2^31 + 13 the result never drops by more than 16 units along X, across all cells |
| BilinearError31.AlmostMonotoneInY | CMSIS/Include/arm_math.h:7001-7062 | on such columns by no more than 12 along Y |
| BilinearError31.DropsReached | CMSIS/Include/arm_math.h:7043-7061 | cells that reach 16 and 12 |
| BilinearInterpolation.BilinearQ31LowestCell | CMSIS/Include/arm_math.h:7043-7061 | a cell of four corners at -1 overflows the shift and gives almost +1 |
| CircularBuffer.CircularWrite | CMSIS/Include/arm_math.h:6040-6078 | the write loop stores the strided samples at the visited offsets in order and returns the next offset as uint16_t, for any signed strides whose accesses are in bounds |
| CircularBuffer.CircularRead | CMSIS/Include/arm_math.h:6084-6135 | the read loop delivers the visited samples at the visited destination indices |
| CircularBuffer.OffsetClosed | CMSIS/Include/arm_math.h:6069-6072 | for strides 0..L the offset after k steps is (start + k * inc) mod L and in bounds |
| CircularBuffer.OffsetEverywhere | CMSIS/Include/arm_math.h:6069-6072 | the offset after k steps for every stride: start + k * inc below 0, the remainder modulo L up to L, start + k * (inc - L) above |
| CircularBuffer.OffsetNeverEscapesExactly | CMSIS/Include/arm_math.h:6069-6072 | from an offset inside it stays inside for ever if and only if the stride is in 0..L |
| CircularBuffer.StoredOffsetFits | CMSIS/Include/arm_math.h:6078-6078 | the uint16_t cast is harmless for L up to 65536 |
| CircularBuffer.BufferRefinesStream | CMSIS/Include/arm_math.h:6040-6135 | for buffers of up to 65536 samples: after any unit-stride blocks of at least L samples, each continuing from the stored uint16_t offset, from any initial buffer and offset, a full read from the write offset is the last L samples of the stream, in order |
| CircularBuffer.RefinesStreamsExactly | CMSIS/Include/arm_math.h:6040-6078 | that holds for every start and all blocks if and only if L <= 65536 |
| CircularBuffer.ReadDeliversStreamEnd | CMSIS/Include/arm_math.h:6084-6135 | and a destination of L samples then holds exactly them, for L up to 65536 |
| CircularBuffer.DistinctExactly | CMSIS/Include/arm_math.h:6069-6072 | a block hits pairwise distinct cells if and only if it is no longer than L / gcd(inc, L) |
| CircularBuffer.WrittenLast | CMSIS/Include/arm_math.h:6059-6072 | for any strides a cell holds the last sample stored in it |
| CircularBuffer.WrittenElsewhere | CMSIS/Include/arm_math.h:6059-6072 | and a cell that is not visited holds what it held |
| CircularBuffer.DeliveredLast | CMSIS/Include/arm_math.h:6105-6118 | the same for the destination of a read |
| CircularBuffer.DeliveredElsewhere | CMSIS/Include/arm_math.h:6105-6118 | and its untouched elements |
| CircularBuffer.DstEverywhere | CMSIS/Include/arm_math.h:6112-6118 | the destination index after k steps for every increment: it restarts at 0 once the increment divides the way to the end, and otherwise goes on without a limit |
| CircularBuffer.ReadBack | CMSIS/Include/arm_math.h:5939-6034 | such a block reads back unchanged |
| CircularBuffer.DstNeverEscapesExactly | CMSIS/Include/arm_math.h:6112-6118 | the equality test keeps the destination pointer inside for ever if and only if the increment divides length and starting index |
| Startup.CmsisStart | CMSIS/Include/cmsis_gcc.h:131-164 | the nested loops transform memory as the tables say, in order, for any tables inside memory |
| Startup.ForwardCopyExactly | CMSIS/Include/cmsis_gcc.h:150-152 | a copy delivers its original source for every memory if and only if the destination does not start inside the source |
| Startup.OverlapRepeats | CMSIS/Include/cmsis_gcc.h:150-152 | with the destination d words into the source, word k ends as source word k mod d |
| Startup.LastCopyWins | CMSIS/Include/cmsis_gcc.h:149-153 | for any tables, a word that several copies cover ends as the last of them leaves it |
| Startup.SourcesArrive | CMSIS/Include/cmsis_gcc.h:149-159 | with tables whose destinations do not meet each other, later sources or zero regions, every destination word ends as the original source word |
| Startup.ZeroedOrUnchanged | CMSIS/Include/cmsis_gcc.h:149-159 | every zero region is zero and every other word outside all destinations is unchanged, for any tables |
| Nvic.ReplaceLaneLanes | CMSIS/Include/core_armv8mbl.h:1453-1454 | the masked read-modify-write replaces one byte of the word and keeps the other three |
| Nvic.Indices | CMSIS/Include/core_armv8mbl.h:1239-1241 | the index macros on signed interrupt numbers, system handlers included |
| Nvic.SetWordView | CMSIS/Include/core_armv8mbl.h:1449-1461 | a packed write changes the byte of its interrupt and of no other |
| Nvic.StoredValue | CMSIS/Include/core_armv81mml.h:2386-2386 | the stored byte read back is the priority modulo 2^PRIO_BITS |
| Nvic.RunWordReads | CMSIS/Include/core_armv8mbl.h:1449-1484 | after any sequence of writes a read returns the last priority written to that interrupt, reduced, or the initial one |
| Nvic.RunByteReads | CMSIS/Include/core_armv81mml.h:2382-2415 | the same for the byte registers |
| Nvic.WordsRefineBytes | CMSIS/Include/core_armv8mbl.h:1449-1484 | after any sequence of writes packed and byte registers answer every read alike |
| Nvic.Baseline.SetPriority | CMSIS/Include/core_armv8mbl.h:1449-1461 | the register write is SetWord on the register file, and every later read returns the reduced priority for its own interrupt and the old one for any other |
| Nvic.Baseline.GetPriority | CMSIS/Include/core_armv8mbl.h:1473-1484 | the register read is the byte of this interrupt, shifted down |
| Nvic.Mainline.SetPriority | CMSIS/Include/core_armv81mml.h:2382-2392 | the same for SetByte |
| Nvic.Mainline.GetPriority | CMSIS/Include/core_armv81mml.h:2404-2415 | the same for the byte registers |
| Nvic.FieldsFillPriority | CMSIS/Include/core_armv81mml.h:2435-2436 | preempt and sub bits add up to PRIO_BITS for every group and width |
| Nvic.EncodeFitting | CMSIS/Include/core_armv81mml.h:2429-2442 | with the group argument itself: the fields, reduced to their widths, are put side by side, the sub field max(0, PriorityGroup % 8 + PRIO_BITS - 7) bits wide |
| Nvic.DecodeFields | CMSIS/Include/core_armv81mml.h:2456-2467 | the decoded fields for any priority value, with the same widths |
| Nvic.BinaryPoint | CMSIS/Include/core_armv81mml.h:2429-2442 | what the stored byte has above bit PriorityGroup % 8 is the preempt field, shifted to the top |
| Nvic.BytesAgreeExactly | CMSIS/Include/core_armv81mml.h:2429-2442 | two stored bytes agree above that bit if and only if their preempt fields agree |
| Nvic.DecodeEncode | CMSIS/Include/core_armv81mml.h:2429-2467 | decoding an encoded priority returns both fields reduced to their widths |
| Nvic.EncodeDecode | CMSIS/Include/core_armv81mml.h:2429-2467 | encoding the decoded fields is the identity modulo 2^PRIO_BITS |
| Nvic.EncodeOrder | CMSIS/Include/core_armv81mml.h:2429-2442 | encoded priorities compare lexicographically, preempt first |
| Nvic.PriorityChain | CMSIS/Include/core_armv81mml.h:2382-2467 | encode, set, get, decode loses nothing on either register file |

## Left out

- RecipNegative15.BucketReachesExactly: which inputs and seeds of those four buckets meet the bound is shown by one pair each.
- LinearOrder31.CellMonotone31Exactly: for a cell that rises by less than 2^21 - 5 the condition is on the remainders at each fraction; a form without the fraction is given for constant cells only.
- BilinearInterpolation.BilinearQ7Value: stated for cells with four corners on the grid; the reads past the right edge of the table are only located by GuardVersusReads.
- CircularBuffer.CircularWrite: the source samples are a value, so a source overlapping the buffer is not modelled, and offset sums are taken not to overflow int32_t.
- CircularBuffer.CircularRead: the destination is a different array from the buffer.
- Startup.CmsisStart: the tables are values, so a copy that overwrites its own table is not modelled; the final call of _start is not part of this model.
- BilinearOrder15.MonotoneInXExactly: the condition is on the units lost at each point; a form without the points is given for constant tables and for multiples of 16 only.
- BilinearInterpolation.ShiftSafeExactly: exact in the lowest corner; which fractions overflow a given cell with a corner within 12 units of -1 is shown by example only.
- The seed tables armRecipTableQ31 and armRecipTableQ15 are declared but not defined in the headers; the theorems hold for every accurate table.
- Lanewise saturating SIMD emulations (QADD8, QADD16, SHADD16 and the like): one clamp per lane, easy members.
- Floating-point kernels, NEON code and prototypes without a body.
- Inline assembly, special-register access, exclusive load and store, TrustZone register aliases.
- Priority grouping in AIRCR, interrupt enable and pending bits, vector tables.
