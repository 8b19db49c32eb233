# MIMDRAM microprograms, verified

This project models the bit-serial microprograms of MIMDRAM, a processing-using-DRAM system, and
proves what they compute. It also covers four pieces of the gem5 simulator that ships with it: the
80-bit floating point conversions, the IP checksum, the pipeline viewer's print queue and the
checkpoint upgrader.

A microprogram is a stream of two row commands, `AAP` (activate, activate, precharge) and `AP`
(activate, precharge), on data rows, four scratch cells T0-T3 and two dual-contact cells DCC0 and
DCC1. Row j of an operand holds bit j of every lane's number. `Dram` gives the commands a meaning on
one lane: opening three cells together leaves all of them with their majority, and the negated port of
a dual-contact cell complements. `microworkloads/mimdram.h` only declares the two commands and names
the rows, so this meaning is the one assumption the microprogram theorems rest on. `Simd` lifts a
lane's program to the whole memory: 32 slots of cells shared by the rows of each chunk, chunk after
chunk.

Each microprogram appears twice: as a `Program` value that lemmas reason about, and as a method that
issues the commands in the source's loops and is proved to do what the `Program` does. Numbers are
unbounded; widths, carries and wrap-around are written out. Operands and results are blocks of rows in
a fixed order, which stands for the source's separate allocations.

## What was found

- `bitcount` is a population count for every input exactly when it has at most four rows. From five
  rows on, the row after the left block is added twice and another row never
  (`BitcountValue.PopulationCountUpToFour`). What it does compute, the sum of the rows it visits, it
  computes exactly, without losing a carry, for every lane of every row
  (`BitcountMemory.CountEverywhere`).
- `90_bitweave` does not initialise T3. Its answer is right for every lane exactly when T3 holds 1 at
  entry, bit 0 of the constants differs, or the range is empty (`RangeQuery.DecidesExactlyWhen`). In
  later chunks T3 is the answer 32 rows earlier (`RangeQueryMemory.QueryEverywhere`).
- The select stage of `02_min`, `03_max` and `60_if_then_else` overwrites the first operand before
  reading it, so a selected lane gets all ones. The lemmas named `...RightExactly` say for which lanes
  the result is right nevertheless.
- Converting a binary64 NaN to extended precision and back is exact for the five canonical NaNs only.
  Denormals come back bit for bit, but in between they stand for half their number. An extended number
  whose exponent is one below the binary64 range loses its integer bit (`Fp80.NarrowedBelow`), so that
  2^-1023 becomes zero. Zeros make the way
  back shift by 15360, which C leaves undefined; the model takes the count modulo 64.
- The comment on the print queue says that instructions more than `min_threshold` places late appear
  out of order. They need not. `ReorderBuffer.OrderedExactlyWhen` gives the exact condition.
- A changed word that takes 0xffff out of a checksummed buffer and leaves only zeros is noticed, although
  0x0000 and 0xffff are otherwise exchanged unnoticed (`Checksum.WordErrorExactly`).
- For fewer than two bytes `ip_cksum_add` reads sixteen words (`Checksum.WordsRead`).

## Model

| member | source | states |
|---|---|---|
| Dram.WriteRow | microworkloads/mimdram.h:7-8 | writing a data row from anything but a triple changes that row only and leaves every cell as it was |
| Dram.Subarray.Aap | microworkloads/mimdram.h:7-8 | the two-activation command: the sensed value reaches every cell of the destination, a sensed triple keeps its majority |
| Dram.Subarray.Ap | microworkloads/mimdram.h:7-8 | activation alone settles a triple to its majority and changes nothing else |
| Dram.Subarray.Overwrite | microworkloads/mimdram.h:23-40 | which cells each row name stands for, with the negated ports storing the complement |
| Dram.Subarray.Issue | microworkloads/mimdram.h:20-21 | issuing a command stream one by one refines the meaning of the program |
| Adder.MajSum | microworkloads/00_addition-plus.c:47-54 | three majorities with the complemented carry make the sum bit: sum + 2 carry = a + b + c |
| Adder.AddStepAdds | microworkloads/00_addition-plus.c:47-54 | the eight commands are a full adder that touches one row |
| Adder.RippleAdds | microworkloads/00_addition-plus.c:42-55 | after k steps result + 2^k carry = sum of the low k bits + carry in; only result rows change; also in place and with a shorter second operand |
| Adder.AdditionAdds | microworkloads/00_addition-plus.c:38-57 | for every width out + 2^n DCC1 = a + b, from any starting cells |
| Adder.AddVectors | microworkloads/00_addition-plus.c:38-57 | the loop does the same and leaves every other row alone |
| Adder.SubStepSubtracts | microworkloads/01_subtraction-plus.c:46-53 | the eight commands are a full subtractor with the no-borrow bit in DCC0 |
| Adder.RippleSubtracts | microworkloads/01_subtraction-plus.c:41-54 | the borrow balance after k steps, in place or not |
| Adder.SubtractionSubtracts | microworkloads/01_subtraction-plus.c:37-56 | out = (a - b) mod 2^n and DCC0 = 1 exactly when a >= b |
| Adder.SubtractVectors | microworkloads/01_subtraction-plus.c:37-56 | the loop does the same and leaves every other row alone |
| Adder.SubtractionUndoesAddition | microworkloads/01_subtraction-plus.c:37-56 | subtracting b from the sum rows gives back every bit of a, even when the sum overflowed |
| Divider.CompareLowDecides | microworkloads/16_divu-plus.c:53-61 | the chain over the remainder's bits decides remainder >= low divisor bits |
| Divider.CompareHighDecides | microworkloads/16_divu-plus.c:62-72 | the paired steps extend the decision to divisor bits above the remainder |
| Divider.CompareTailWrites | microworkloads/16_divu-plus.c:73-79 | odd and even tails both leave the full decision in row m |
| Divider.CompareDecides | microworkloads/16_divu-plus.c:52-79 | row m = (partial remainder >= divisor), for every j, all divisor bits counted |
| Divider.MaskMasks | microworkloads/16_divu-plus.c:84-107 | tmp holds the divisor's low rows masked by m, odd and even widths, nothing else changes |
| Divider.RoundParts | microworkloads/16_divu-plus.c:47-125 | a round is its five steps in order |
| Divider.RoundRuns | microworkloads/16_divu-plus.c:47-125 | one round is one step of restoring division on the lane's numbers |
| Divider.RoundsDivide | microworkloads/16_divu-plus.c:47-125 | the invariant: after t rounds quotient and remainder of the top t dividend bits |
| Divider.RoundsDivideShifted | microworkloads/16_divu-plus.c:47-125 | after the round for bit j, rows j and up hold (a >> j) / b and (a >> j) mod b |
| Divider.DivisionDivides | microworkloads/16_divu-plus.c:46-126 | for every width: a / b and a mod b; for b = 0 all ones and a; operands kept |
| Divider.CompareRows | microworkloads/16_divu-plus.c:52-79 | the comparison loops issue exactly the comparison program |
| Divider.MaskRows | microworkloads/16_divu-plus.c:84-107 | the masking loop issues exactly the masking program |
| Divider.DivideVectors | microworkloads/16_divu-plus.c:46-126 | the nested loops divide: quotient, remainder, zero divisor, frame |
| Multiplier.MulStepAdds | microworkloads/11_multu-plus.c:61-71 | the eleven commands add a product bit, a result bit and the carry |
| Multiplier.MulRowAdds | microworkloads/11_multu-plus.c:57-72 | one pass adds bit j times the second operand, carry included |
| Multiplier.RoundsMultiply | microworkloads/11_multu-plus.c:53-74 | after round j rows 0..n+j hold (a mod 2^(j+1)) b, whatever they held before |
| Multiplier.MultiplicationMultiplies | microworkloads/11_multu-plus.c:37-77 | all 2n rows hold the exact product; nothing else changes |
| Multiplier.MultiplyVectors | microworkloads/11_multu-plus.c:37-77 | the double loop does the same |
| ConstBits.LowBitsSplit | microworkloads/10_multu_by_const-plus.c:65-66 | testing the bits of c one by one splits c into its low bits and the rest |
| ConstMultiplier.FirstSet | microworkloads/10_multu_by_const-plus.c:52-56 | the first loop stops at the lowest set bit |
| ConstMultiplier.FirstSetFound | microworkloads/10_multu_by_const-plus.c:52-56 | for 0 < c < 2^n it does stop |
| ConstMultiplier.ConstRoundsMultiply | microworkloads/10_multu_by_const-plus.c:59-93 | after the bits below r, the low n + r rows hold their product with v |
| ConstMultiplier.ConstMultiplicationMultiplies | microworkloads/10_multu_by_const-plus.c:40-95 | for every c < 2^n, zero and trailing zeros included, all 2n rows hold c v |
| ConstMultiplier.ConstAgreesWithGeneral | microworkloads/10_multu_by_const-plus.c:40-95 | same memory as the general multiplier when its first operand is c |
| ConstMultiplier.MultiplyByConst | microworkloads/10_multu_by_const-plus.c:40-95 | the loops with their break and continue do the same |
| ConstMultiplier.StoreFirstRows | microworkloads/10_multu_by_const-plus.c:58-62 | the copy loop issues exactly the first rows of the program |
| ConstMultiplier.AddConstRound | microworkloads/10_multu_by_const-plus.c:65-93 | both branches of the round loop issue exactly their round |
| Widths.FloorLog2 | microworkloads/91_bitcount-plus.c:22-29 | 2^r <= n < 2^(r+1), and -1 for zero |
| Widths.CountShifts | microworkloads/91_bitcount-plus.c:22-29 | the shift loop finds that exponent |
| Widths.SmearStep | microworkloads/91_bitcount-plus.c:13-17 | one or-shift doubles the run of ones below the highest bit |
| Widths.Foo | microworkloads/91_bitcount-plus.c:10-20 | 2^floor(log2 n) - 1 for every positive 32-bit int |
| Widths.SplitSizes | microworkloads/91_bitcount-plus.c:103-104 | both blocks are smaller, the left one full, the right one no longer than it |
| Widths.SpaceCoversWidth | microworkloads/91_bitcount-plus.c:36-58 | the scratch space has room for the result |
| Widths.SpaceBound | microworkloads/91_bitcount-plus.c:36-58 | necessary_space(size) <= f(f+1)/2 + 1 with f = floor(log2 size) |
| Widths.SpaceTight | microworkloads/91_bitcount-plus.c:36-58 | equality with f(f+1)/2 + 1 at every size 2^k - 1 |
| Bitcount.FusedStepRuns | microworkloads/91_bitcount_faster-plus.c:122-133 | storing the carry inside an adder step equals storing it afterwards |
| Bitcount.FusedMergeAgrees | microworkloads/91_bitcount_faster-plus.c:108-137 | the fused merge leaves the same lane as the plain one although the carry row is also a right-result row |
| Bitcount.Returned | microworkloads/91_bitcount-plus.c:67-138 | the returned width is floor(log2 size) + 1, and 0 for size 0 |
| Bitcount.BlocksFit | microworkloads/91_bitcount-plus.c:103-106 | the recursive calls and the merge stay where the caller may write, and b2 <= b1 with b1 >= 2 |
| Bitcount.FusedAgreesWithPlain | microworkloads/91_bitcount_faster-plus.c:67-140 | for every size and lane the fused counter leaves the very state of the plain one |
| BitcountValue.VisitedRows | microworkloads/91_bitcount-plus.c:103-109 | exactly size visits, all to input rows |
| BitcountValue.CountingCounts | microworkloads/91_bitcount-plus.c:67-138 | the returned rows hold the exact sum over the visited rows; only the scratch space changes |
| BitcountValue.CountFitsWidth | microworkloads/91_bitcount-plus.c:60-67 | the sum over the visited rows is below 2^width for the returned width |
| BitcountValue.NotVisited | microworkloads/91_bitcount-plus.c:106-109 | from five rows on there is a row that is never visited |
| BitcountValue.SharedRowTwice | microworkloads/91_bitcount-plus.c:105-109 | whenever there is a right block, row 2^floor(log2 size) - 1 is counted at least twice |
| BitcountValue.FiveToSeven | microworkloads/91_bitcount-plus.c:103-109 | for five to seven rows the sum is the population count plus the fourth row less the last |
| BitcountValue.SkippedOneIsLost | microworkloads/91_bitcount-plus.c:106-109 | a single one in that row is counted as zero |
| BitcountValue.FourOrFewerCounted | microworkloads/91_bitcount-plus.c:67-138 | up to four rows the result is the population count |
| BitcountValue.PopulationCountUpToFour | microworkloads/91_bitcount-plus.c:67-138 | population count for all inputs if and only if size <= 4 |
| BitcountPhases.BlocksCount | microworkloads/91_bitcount-plus.c:103-137 | two counted blocks and a merge from any cells make a count of the whole |
| BitcountPhases.PhasesCount | microworkloads/91_bitcount-plus.c:103-138 | the count is the same whatever cells each phase finds, plain or fused |
| BitcountMemory.CountSmall | microworkloads/91_bitcount-plus.c:68-100 | the base cases, over all chunks |
| BitcountMemory.MergeEverywhere | microworkloads/91_bitcount-plus.c:108-135 | the merge phase over all chunks completes the count of every lane |
| BitcountMemory.CountEverywhere | microworkloads/91_bitcount-plus.c:67-138 | for any number of rows, each phase going through all chunks: every lane of every row ends with its own count, plain or fused |
| BitcountSpace.StaysWithinSpace | microworkloads/91_bitcount-plus.c:36-58 | neither counter touches an output row at or above necessary_space(size) |
| BitcountSpace.SpaceIsNeeded | microworkloads/91_bitcount-plus.c:36-58 | both touch the last row below it |
| BitcountDriver.MergePlain | microworkloads/91_bitcount-plus.c:108-135 | the merge loop issues exactly the plain merge |
| BitcountDriver.MergeFused | microworkloads/91_bitcount_faster-plus.c:108-137 | the loop that reassigns c_in issues exactly the fused merge |
| BitcountDriver.CountBits | microworkloads/91_bitcount-plus.c:67-138 | the recursive procedure returns the width and counts the visited rows |
| Simd.RowThen | microworkloads/mimdram.h:16-21 | sending two programs to a row one after the other is sending their composition |
| Simd.ChunkThen | microworkloads/mimdram.h:18-21 | command-major execution on a chunk equals the whole program on each of its rows |
| Simd.Memory.VectorOp | microworkloads/mimdram.h:18-21 | one command reaches every row of the chunk once, and no other row |
| Simd.Memory.Execute | microworkloads/mimdram.h:18-21 | a program on one chunk, command after command |
| Simd.Memory.ForAllVectors | microworkloads/mimdram.h:16-21 | for every number of rows each row gets the program once, from the cells the chunk before left; the slots end as their last rows leave them |
| SimdArithmetic.AdditionOnColumn | microworkloads/00_addition-plus.c:38-57 | addition on a column with its slot's scratch |
| SimdArithmetic.SubtractionOnColumn | microworkloads/01_subtraction-plus.c:37-56 | subtraction on a column |
| SimdArithmetic.MultiplicationOnColumn | microworkloads/11_multu-plus.c:37-77 | multiplication on a column |
| SimdArithmetic.DivisionOnColumn | microworkloads/16_divu-plus.c:46-126 | division on a column, remainder and temporaries in the slot |
| SimdArithmetic.AdditionInsensitive | microworkloads/00_addition-plus.c:38-57 | the column after does not depend on cells or scratch before |
| SimdArithmetic.SubtractionInsensitive | microworkloads/01_subtraction-plus.c:37-56 | the same for subtraction |
| SimdArithmetic.MultiplicationInsensitive | microworkloads/11_multu-plus.c:37-77 | the same for multiplication |
| SimdArithmetic.DivisionInsensitive | microworkloads/16_divu-plus.c:46-126 | the same for division |
| SimdArithmetic.SlotsDoNotMatter | microworkloads/mimdram.h:16-21 | for such programs every row's result is independent of the slots' history |
| SimdArithmetic.DivideEverywhere | microworkloads/16_divu-plus.c:46-126 | every lane of every row ends with its own quotient and keeps its other rows |
| RangeQuery.RangeStepRuns | microworkloads/90_bitweave-plus.c:57-75 | which cell of each pair carries the chain in each of the four branches |
| RangeQuery.RoundsChain | microworkloads/90_bitweave-plus.c:55-76 | after k bits one pair holds the lower test and the other the upper test |
| RangeQuery.RangeQueryAnswers | microworkloads/90_bitweave-plus.c:50-81 | the output is the range test, its lower bound strict when the chain started at zero; T3 keeps the answer |
| RangeQuery.LowerBoundMissed | microworkloads/90_bitweave-plus.c:52-53 | a lane holding c1 that is answered 0 |
| RangeQuery.DecidesExactlyWhen | microworkloads/90_bitweave-plus.c:50-81 | right for every lane if and only if T3 = 1, bit 0 of c1 and c2 differs, or the range is empty |
| RangeQuery.NextChunkRightExactly | microworkloads/90_bitweave-plus.c:50-81 | when the next chunk's answer is right, in terms of the answer before it |
| RangeQueryMemory.LaneAnswers | microworkloads/90_bitweave-plus.c:50-81 | one lane's answer, when it is right, and that T3 keeps it |
| RangeQueryMemory.SlotKeepsAnswer | microworkloads/90_bitweave-plus.c:52-53 | the T3 a row finds is the answer 32 rows earlier, or what the caller left |
| RangeQueryMemory.QueryEverywhere | microworkloads/90_bitweave-plus.c:50-81 | for any number of rows: every lane's answer, and that it is right if and only if bit 0 of c1 and c2 differs, the answer 32 rows earlier (or T3 at the start) is one, the lane does not hold c1, or the range is empty |
| RangeQuery.QueryVectors | microworkloads/90_bitweave-plus.c:50-81 | the loop with its four branches gives that answer |
| Comparisons.GreaterDecides | microworkloads/40_greater-plus.c:42-49 | the chain decides > or >= on the low k bits, by its starting value |
| Comparisons.GreaterAnswers | microworkloads/41_greater_equal-plus.c:38-52 | for every width the output is a > b, or a >= b |
| Comparisons.EqualChains | microworkloads/42_equal-plus.c:42-50 | two chains at once: b >= a in T2, a >= b in T3 |
| Comparisons.EqualAnswers | microworkloads/42_equal-plus.c:38-54 | the output is a = b |
| Comparisons.Trichotomy | microworkloads/40_greater-plus.c:38-52 | exactly one of a > b, a = b, b > a; and a >= b is the negation of b > a |
| Comparisons.GreaterVectors | microworkloads/40_greater-plus.c:38-52 | the loop gives that answer |
| Comparisons.EqualVectors | microworkloads/42_equal-plus.c:38-54 | the loop gives that answer |
| Select.SelectRoundsRun | microworkloads/60_if_then_else-plus.c:46-58 | each output bit is selection or second operand; the first operand is lost |
| Select.IfThenElseRightExactly | microworkloads/60_if_then_else-plus.c:41-59 | right if and only if the selection bit is clear or the first operand is all ones; only output rows change |
| Select.LessIsGreater | microworkloads/02_min-plus.c:48-56 | the predicate loop of the minimum is the greater chain with its operands exchanged |
| Select.MinimumRightExactly | microworkloads/02_min-plus.c:46-73 | right if and only if the first operand is not the smaller one; row s ends as a < b and no row besides it and the output changes |
| Select.MaximumRightExactly | microworkloads/03_max-plus.c:46-73 | right if and only if the first operand is not the larger one or is all ones; row s ends as a > b and no row besides it and the output changes |
| Select.SelectVectors | microworkloads/02_min-plus.c:60-72 | the select loop does what the program does |
| Select.MinimumVectors | microworkloads/02_min-plus.c:46-73 | both loops: the value they leave, row s, every other row kept |
| Select.MaximumVectors | microworkloads/03_max-plus.c:46-73 | both loops: the value they leave, row s, every other row kept |
| XorReduction.ParityIsOddCount | microworkloads/30_xor_reduction-plus.c:36-59 | the parity is one exactly when the number of ones is odd |
| XorReduction.XorStepRuns | microworkloads/30_xor_reduction-plus.c:50-55 | three majorities add two bits to the parity in T1 and keep its complement in DCC1 |
| XorReduction.XorReductionIsParity | microworkloads/30_xor_reduction-plus.c:36-59 | for every width, odd or even, the output is the parity |
| XorReduction.FoldIsParity | microworkloads/30_xor_reduction-baseline.c:8-40 | log-step folding of a word of 2^(e+1) bits gives its parity |
| XorReduction.BaselineAgrees | microworkloads/30_xor_reduction-baseline.c:8-40 | at widths 8, 16, 32 and 64 both programs agree |
| XorReduction.ReduceVectors | microworkloads/30_xor_reduction-plus.c:36-59 | the stride-two loop gives the parity |
| Reductions.FoldingFolds | microworkloads/36_greater_than_0-plus.c:39-55 | for every width the vote of all rows against a constant ends in T3 |
| Reductions.ReductionReduces | microworkloads/31_and_reduction-plus.c:36-58 | and: one exactly for the number 2^n - 1; or: one exactly for numbers other than 0 |
| Reductions.FoldVectors | microworkloads/32_or_reduction-plus.c:37-55 | the stride-two loop issues the fold and ends at the row after it |
| Reductions.ReduceVectors | microworkloads/32_or_reduction-plus.c:36-58 | the and and or loops give those answers |
| Reductions.PositiveTests | microworkloads/36_greater_than_0-plus.c:36-62 | the output is the test > 0 on the two's complement number |
| Reductions.TestPositive | microworkloads/36_greater_than_0-plus.c:36-62 | the loop gives that answer |
| Reductions.NonNegativeTests | microworkloads/35_greater_equal_0-plus.c:37-41 | the output is the test >= 0 on the two's complement number |
| Fp80.Classify | gem5/ext/fputils/fp80.c:125-140 | the assertion in the last branch holds |
| Fp80.ClassExactly | gem5/ext/fputils/fp80.c:125-140 | each of the five classes as an if-and-only-if on the raw sign-exponent and significand words, for every 80-bit pattern |
| Fp80.DenormalShift | gem5/ext/fputils/fp80.c:216-219 | a denormal is doubled between 1 and 52 times and ends with its integer bit set |
| Fp80.ShiftUp | gem5/ext/fputils/fp80.c:214-219 | the loop terminates, loses no bit and counts the doublings |
| Fp80.WidenByShifting | gem5/ext/fputils/fp80.c:193-225 | the conversion with its loop equals the direct definition, whose result WidenedFields gives |
| Fp80.WidenedFields | gem5/ext/fputils/fp80.c:193-225 | for every binary64 pattern the sign, exponent word and significand of the result: specials to 0x7fff, normals moved by 15360, zeros to zero, denormals normalised |
| Fp80.WidenedClass | gem5/ext/fputils/tests/fp80_cvfd.c:45-77 | the class of a widened pattern is its own, denormals becoming normal |
| Fp80.NarrowedFields | gem5/ext/fputils/fp80.c:153-170 | for every finite 80-bit pattern the sign, exponent and fraction of the result: in range, above it (infinity) and at or below zero while the shift is below 64 |
| Fp80.NarrowedTruncates | gem5/ext/fputils/fp80.c:157-162 | in range a normalised significand is rounded towards zero: s 2^11 <= fi < (s + 1) 2^11 |
| Fp80.NarrowedBelow | gem5/ext/fputils/fp80.c:163-166 | below the range the fraction is the significand shifted down by the missing exponent; with none missing the integer bit is lost |
| Fp80.NarrowedSpecial | gem5/ext/fputils/fp80.c:171-182 | every extended infinity and NaN keeps its sign and kind, with the canonical fraction |
| Fp80.RoundTrip | gem5/ext/fputils/fp80.c:148-225 | every pattern that is not a NaN comes back bit for bit |
| Fp80.NanKindSurvives | gem5/ext/fputils/fp80.c:171-182 | NaNs keep their sign and their quiet or signalling kind |
| Fp80.RoundTripExactly | gem5/ext/fputils/fp80.c:148-225 | bit-exact if and only if not a NaN or one of the five canonical NaNs |
| Fp80.ShiftCountInRange | gem5/ext/fputils/fp80.c:163-166 | only zeros make the way back shift by 64 or more |
| Fp80.NumberKeptExactly | gem5/ext/fputils/fp80.c:193-225 | with the biases 16383 and 1023, a finite pattern keeps its number if and only if it is not a denormal; denormals are halved |
| Checksum.AddWords | gem5/ext/dnet/ip.h:427-476 | Duff's device equals the left-to-right sum with the odd byte, for either byte order |
| Checksum.WordsRead | gem5/ext/dnet/ip.h:433-470 | it reads len/2 words if and only if len >= 2 |
| Checksum.TotalFitsInt | gem5/ext/dnet/ip.h:427-476 | no buffer up to 65535 bytes overflows a 32-bit int |
| Checksum.CarryCongruent | gem5/ext/dnet/ip.h:478-483 | the complement of the result is congruent to the sum modulo 65535 |
| Checksum.CarryZeroExactly | gem5/ext/dnet/ip.h:478-483 | for every int, zero if and only if it is a positive multiple of 65535 |
| Checksum.StoredChecksumVerifies | gem5/ext/dnet/ip.h:478-483 | a sum plus its own checksum folds to zero |
| Checksum.SealedVerifies | gem5/ext/dnet/ip.h:427-483 | storing the checksum in a zeroed word makes the whole buffer fold to zero |
| Checksum.SingleByteErrorDetected | gem5/ext/dnet/ip.h:427-483 | no change of one byte goes unnoticed |
| Checksum.WordErrorExactly | gem5/ext/dnet/ip.h:427-483 | in a buffer that verifies, replacing a word goes unnoticed if and only if the word is unchanged, 0x0000 became 0xffff, or 0xffff became 0x0000 and the old sum was above 65535, so that the new one is not zero |
| ReorderBuffer.PoppedIsThePermutedTrace | gem5/util/o3-pipeview.py:159-170 | over a whole trace every instruction leaves the queue as often as it was traced |
| ReorderBuffer.PoppedLength | gem5/util/o3-pipeview.py:159-170 | how many have left after n arrivals |
| ReorderBuffer.RankIsPlace | gem5/util/o3-pipeview.py:153-155 | the rank of an instruction is its place in the stably sorted trace |
| ReorderBuffer.OrderedExactlyWhen | gem5/util/o3-pipeview.py:47-52 | sorted output if and only if each instruction on arrival finds no more gone than sort before it; duplicates allowed |
| ReorderBuffer.EqualsLeaveInOrder | gem5/util/o3-pipeview.py:159-170 | over every trace, instructions with equal sequence numbers leave in the order of their arrival |
| ReorderBuffer.SortedExactlyWhen | gem5/util/o3-pipeview.py:47-52 | under the same condition, and only then, the output is the stably sorted trace itself |
| ReorderBuffer.AtMostMinLate | gem5/util/o3-pipeview.py:47-52 | the documented assumption is enough for the output to be the sorted trace |
| ReorderBuffer.OneTooLate | gem5/util/o3-pipeview.py:51-52 | for all thresholds a trace with one instruction one place later comes out unsorted |
| ReorderBuffer.LateYetOrdered | gem5/util/o3-pipeview.py:51-52 | for unequal thresholds a later instruction that comes out in order |
| PipeView.PrintedOnceEach | gem5/util/o3-pipeview.py:167-188 | an instruction is printed as often as traced if its number and fetch tick lie in the closed ranges given by the positive bounds and it retired whenever only_committed is set, otherwise never |
| PipeView.PrintedInOrder | gem5/util/o3-pipeview.py:53-68 | with thresholds 1000 and 2000, when nothing is over 1000 places late, the sorted trace is printed, less what the filters hold back |
| PipeView.Viewer.PrintInsts | gem5/util/o3-pipeview.py:167-188 | sort, pop and filter until the threshold |
| PipeView.Viewer.QueueInst | gem5/util/o3-pipeview.py:159-164 | append, flush above the upper threshold |
| PipeView.Viewer.ProcessTrace | gem5/util/o3-pipeview.py:126-149 | the printed lines of a whole trace, with the final flush, and how often each instruction is among them, on the filter fields |
| Upgrader.Ready | gem5/util/cpt_upgrader.py:103-107 | true if and only if all dependencies are in the tag set |
| Upgrader.ReadyOf | gem5/util/cpt_upgrader.py:184-184 | exactly the waiting upgrades that are ready |
| Upgrader.ApplyRound | gem5/util/cpt_upgrader.py:190-193 | one round keeps the applied list a schedule, in whatever order it goes |
| Upgrader.ApplyUpgrades | gem5/util/cpt_upgrader.py:181-195 | each upgrade once and after its dependencies; as many as any schedule has; success if and only if resolvable |
| Upgrader.CycleBlocks | gem5/util/cpt_upgrader.py:185-188 | a dependency cycle rules out every complete schedule |
| Upgrader.UnmetBlocks | gem5/util/cpt_upgrader.py:185-188 | so does a dependency that is neither present nor known |
| Upgrader.Blocked | gem5/util/cpt_upgrader.py:185-188 | no ready upgrade left means a cycle or an unmet dependency |
| Upgrader.CompleteExactlyWhen | gem5/util/cpt_upgrader.py:181-195 | a complete schedule exists if and only if every dependency is present or known and none is circular |
| LegacyVersions.LinkLegacy | gem5/util/cpt_upgrader.py:124-128 | each version of the run depends on the one before; fails if and only if there is a 3 and no 2 |
| LegacyVersions.LegacyTags | gem5/util/cpt_upgrader.py:157-161 | the tags of versions 2 up to the number; fails if and only if one is unknown |
| LegacyVersions.VersionIsClosed | gem5/util/cpt_upgrader.py:124-161 | a converted tag set holds its own dependencies from version 3 up |
| LegacyVersions.VersionsInOrder | gem5/util/cpt_upgrader.py:124-195 | every schedule applies the later versions in order |

## Left out

- Row commands: their meaning is assumed, not derived, because `rowop_ap` and `rowop_aap` are only declared; no command stream reads a pair address, and no theorem relies on such a read.
- ConstMultiplier.MultiplyByConst: constants of more than n bits, for which the source writes past its 2n output rows when the low n bits are zero.
- Widths.Foo: negative and zero arguments, for which the shifts of a negative int are implementation-defined; sizes of the bit counter are below 2^31.
- BitcountDriver.CountBits: one lane, with the merge loops command by command; all rows, with each merge as one program per chunk, are BitcountMemory.CountEverywhere.
- Checksum.AddWords: a buffer of fewer than two bytes is given the sixteen words that the loop reads, although the source only promises the buffer itself; an odd length of 1 adds the byte after those words.
- Fp80.NarrowedFields: says nothing of the fraction when the shift is by 64 or more, which C leaves undefined; the sign and exponent fields are stated there too.
- `50_abs` (a stale T2 enters its second stage) and `51_relu` (it clears the input's top row and never writes the output's): the same kind of analysis as the select stage.
- The drivers' outer loop repeats the whole program once more for the statistics; the theorems are about one pass from any cells.
- `90_bitweave-ambit`, `bitweave-buddy` and the bitweave baselines: they take bit 0 as the most significant bit and leave both bounds out of the range, so they answer another question than the plus version. The first two also fill their match masks with the integer 1, so that one lane in 32 takes part, and keep the masks for the second pass.
- `92_bitcount-plus`: the same text as `91_bitcount_faster-plus`, whose theorems hold for it.
- The baselines for addition up to if-then-else: one C operator per element on machine integers. `91_bitcount-baseline`: it is a population count, which the plus version is for up to four rows only, and its widths start at 8.
- `main`, argument parsing, random inputs, allocation, alignment and the m5 statistics calls.
- The LLVM vectorisation pass: it rests on LLVM classes that are not part of this model.
- The pipeline viewer's text parsing, rendering, early stop (which calls `print_insts` with an argument missing) and the skipping of lines before the start tick; list.sort is a stable insertion sort by sequence number.
- The upgrader's reading and writing of checkpoint files and what the single upgrade functions do to them; two upgrade files with the same tag.
- gem5 configuration scripts, topologies, DSENT, libelf, gzstream and protolib.
