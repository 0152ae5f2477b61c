# Verified models of conet's algorithms

This project models the hard algorithms that ship with conet and proves what they promise:
the arbitrary-precision arithmetic, the regular-expression engine, the character sets and the
sort that come with QuickJS, and conet's own lock-free queue and lock-less list. The project
verifies with `dafny verify dfyconfig.toml`.

## What is modelled

**Limbs.** Numbers are arrays of 64-bit limbs with an offset; `Limbs.Val` is the integer they stand
for. `LimbKernels` holds the carry and borrow loops, `WordDivision` the two-by-one division by a
reciprocal, `Division` the schoolbook loop, `NewtonTheory` and `Reciprocal` the Newton inverse and
the division built on it, `SquareRoot` the table-seeded Karatsuba square root. `Multiplication`
chooses between the schoolbook product and the transform; division and square root stand on that
choice. The bound shown for the inverse is a * r < B^(2n) < a * (r + 2), of which the comment above
`mp_recip` is an abbreviation.

**The number-theoretic transform.** `NttArithmetic` is the lazy modular arithmetic, `NttTheory` the
transform as evaluation at roots of unity, `NttTransform` the Stockham passes, `NttSplit` the
recursive split of long transforms, `NttProduct` one prime and the choice of size, `NttRecombine`
the Chinese remainder step, `NttRoots` the constants, `NttLimbs` digits in, limbs out. The result
is a product of limbs with no hypothesis left: the orders of the roots, the inverses, the remainder
constants and the bit counts are all checked against their tables.

**Integers in other forms.** `IntegerLogic` is and/or/xor on sign and magnitude against infinite
two's complement. `RadixConversion`, `RadixEstimate` and `RadixOutput` are the divide-and-conquer
radix conversion with its cached powers and rounded inverses. `DecimalLimbs` and
`DecimalDivision` are rows of base-10^19 limbs.

**Floating point.** `RoundingTheory`, `RoundingLimbs` and `Rounding` specify correct rounding over
`real` (section 4.3 of IEEE 754-2008) and show that `__bf_round` meets it; `FloatDivision`,
`LimbStreams`, `AlignedOperands`, `CancelledBits` and `FloatAddition` show the same for division,
square root and addition. `P2(e)` is the real power of two, `Mag` the magnitude of a mantissa and an
exponent, and `CorrectlyRounded` names value and status at once.

**Regular expressions.** `RegexpSyntax` is the declarative meaning of greedy patterns without back
references (section 22.2.2 of ECMA-262, captures ignored), `RegexpAssertions` its tests of
characters and positions in plain ranges. `RegexpCode` is the code of a pattern,
`RegexpEmit` the parser's in-place insertion, patching and copying that produces it,
`RegexpMachine` the backtracking machine and the recursive search it implements, `RegexpCorrect`
the proof that the code means the pattern, `RegexpStack` the depth of the stack, `RegexpClasses` the
classes inside a pattern, `RegexpGreedy` the greedy optimisation, and `RegexpExec` the machine as a
class with a fixed stack, together with the final theorem. The position check on leaving a loop cuts
iterations that do not advance; `RegexpSyntax.RepeatIsEcma` shows that this is what ECMA-262 asks for
as far as the existence of a match goes.

**Sets and sorting.** `CharRanges` holds sets of code points as sorted end points and as range
opcodes. `Sorting` is `rqsort` on an array with its explicit stack, the heapsort fallback and the
insertion sort.

**Lock-free structures.** Each shared read and each compare-and-swap is one step of one thread, and
a run is any sequence of such steps by any number of threads. `LockFreeQueue` has the algorithm and
its invariant, `LockFreeHistory` linearizability, `LockFreeDelivery` what is in the node a caller
receives, `LockFreeProgress` that a call running alone returns. `LockLessList` allows nodes to be reused, because
that is what makes `llist_del_first` delicate. The header's table is the predicate `Disciplined`: a
consumer may start `llist_del_first`, or run `llist_del_all`, only while no other consumer is inside
`llist_del_first`; adders are unrestricted. Every run within the rule conserves nodes. Without it the
property is false, and two runs say so. In `TwoDelFirstLoseANode` one consumer has read the head and
its successor; another consumer takes that head, a new node is added, and the taken node is added
again on top of it; the first consumer's swap then succeeds and cuts the new node off. In
`DelAllDuringDelFirstDuplicates` the chain is taken whole while such a swap is pending and the old
head is added again; the swap then brings back a node that its taker still holds.

## Conventions

A method mirrors the source's loop and is specified by what it leaves in the buffer; what the source
promises about it is in its `ensures` or in lemmas about the function it equals. Buffers that a
function of the source may overlap (`res == x` and the like) may overlap in the same way here.
Parameters marked `ghost` exist for the proof only. `hide` keeps definitions out of proofs that do
not need them.

## Model

| member | source | states |
|---|---|---|
| NttLimbs.FftMul | qjs/libbf.c:8358-8457 | for all operands of one limb or more, three to 2^52 limbs together, the limbs returned are those of the exact product; the size search cannot fail in that range, and no root, inverse or table value is taken on trust |
| Multiplication.MpMul | qjs/libbf.c:1176-1194 | short operands go through the schoolbook rows, long ones through the transform, and both meet one contract: the exact product, nothing else in the buffer touched |
| LimbKernels.MpMulBasecase | qjs/libbf.c:1161-1172 | the schoolbook product is exact |
| NttSplit.NttConv | qjs/libbf.c:7940-7970 | for every length 2^k, with the recursive split above 2^19 or without, the buffer ends as the cyclic convolution modulo m times the factor and the length, entries below 2m |
| NttSplit.RowOfConvolution | qjs/libbf.c:7950-7966 | the convolution of two twisted rows is the row of the whole convolution, up to the factor 2^k2: why convolving row by row is right |
| NttSplit.ColumnBack | qjs/libbf.c:7882-7936 | twisting and transforming a column back undoes the forward step, up to the length of the column |
| NttSplit.FftPartial | qjs/libbf.c:7882-7936 | every column is transformed and twisted by the power of the root that belongs to it, forwards, or the other way round, backwards |
| NttSplit.MulTrig | qjs/libbf.c:7803-7814 | entry i is multiplied by the i-th power of the factor, entries below 2m |
| NttTransform.PassKeeps | qjs/libbf.c:7743-7765 | one Stockham pass: if every column of the buffer evaluates to its part of the transform of the input, the output columns do again |
| NttTransform.NttFft | qjs/libbf.c:7721-7778 | the lazily reduced passes leave entries below 2m, congruent to the values of the input at the powers of the root |
| NttTransform.GetTrig | qjs/libbf.c:7818-7853 | the factor table holds the powers of the root and their scaled inverses |
| NttTheory.Halving | qjs/libbf.c:7743-7765 | evaluating at even and odd powers of a root is evaluating two polynomials of half the length |
| NttTheory.Inversion | qjs/libbf.c:7940-7970 | transforming with the inverse root gives the coefficients back, times the length |
| NttTheory.EvalCyclic | qjs/libbf.c:7780-7801 | at a root of unity the cyclic convolution has the product of the values |
| NttTheory.NoWrapAround | qjs/libbf.c:8308-8355 | when the digits fit, the cyclic convolution is the product of the polynomials |
| NttProduct.VecMul | qjs/libbf.c:7780-7801 | pointwise products scaled by the stored inverse of the length, entries below 2m |
| NttProduct.GetFftSize | qjs/libbf.c:8308-8355 | a size found is wide enough for all digits, keeps every coefficient below the product of the primes, and costs no more than any other size that does; up to 2^52 limbs one is always found |
| NttProduct.ProductFits | qjs/libbf.c:8308-8355 | with the size found, the digits of both operands fit side by side, so no index wraps around |
| NttProduct.CoefficientsFit | qjs/libbf.c:8308-8355 | with the size found, no coefficient reaches the product of the primes in use |
| NttProduct.IntBitsRight | qjs/libbf.c:7294 | the table of bit counts is a lower bound for the product of the primes |
| NttRecombine.ReduceDigit | qjs/libbf.c:8002-8027 | a digit of up to 188 bits is reduced exactly by one or two reductions |
| NttRecombine.Garner | qjs/libbf.c:8175-8193 | the mixed-radix digits are below their primes and make up a number with the given residues |
| NttRecombine.ResiduesDetermine | qjs/libbf.c:8175-8193 | two numbers below the product of the primes with the same residues are equal |
| NttRecombine.ConstantsRight | qjs/libbf.c:7304-7309 | every constant of the Chinese remainder table is the inverse it stands for |
| NttRecombine.Convolve | qjs/libbf.c:8420-8434 | the rows of residues are those of the cyclic convolution of the digits, prime by prime |
| NttRecombine.CoefficientsExact | qjs/libbf.c:8308-8355 | with a size that fits, the coefficients are below the product of the primes and make up the product of the numbers |
| NttRoots.RootOrders | qjs/libbf.c:7299-7302 | every root of the table has order 2^51 |
| NttRoots.ProotsInverse | qjs/libbf.c:7299-7302 | the second row of roots holds the inverses of the first |
| NttLimbs.ReadDigits | qjs/libbf.c:7985-8016 | the digits read from up to three limbs of bits each make up the operand |
| NttLimbs.NumberOf | qjs/libbf.c:8195-8216 | from mixed radix plus carry to limbs: no limb overflows, and the value is the sum |
| NttLimbs.NextCarry | qjs/libbf.c:8232-8241 | the shifted-out limbs are the number divided by the digit size, and the unused limbs of the carry stay zero |
| NttLimbs.PutBits | qjs/libbf.c:7241-7256 | writing a limb at a bit position adds it at that position, cut off at the end of the buffer |
| NttLimbs.ToLimbs | qjs/libbf.c:8146-8243 | the limbs written are those of the number with the given coefficients |
| NttArithmetic.ModFast | qjs/libbf.c:7390-7406 | the estimated quotient and two masked corrections give the residue below m |
| NttArithmetic.MulModFast3 | qjs/libbf.c:7444-7452 | a product with a constant below 2m, congruent to the product |
| LimbKernels.MpSubUi | qjs/libbf.c:1094-1109 | limb subtraction that stops early is the subtraction of the values |
| LimbKernels.MpSubMul1 | qjs/libbf.c:1198-1211 | the row minus a product by one limb, with what is still to be subtracted above |
| WordDivision.DivideWord | qjs/libbf.c:1224-1242 | the reciprocal division of two limbs by a normalised one is exact |
| WordDivision.MpDiv1Norm | qjs/libbf.c:1245-1265 | division by one limb is exact, in place or not |
| Division.GuessClose | qjs/libbf.c:1294-1323 | the digit guessed from the top limbs is never too small and at most two too large |
| Division.DivideDigit | qjs/libbf.c:1294-1341 | one digit of the quotient: exact digit and remainder, the add-back loop at most twice |
| Division.MpDivNormBase | qjs/libbf.c:1275-1344 | the schoolbook loop leaves the exact quotient and remainder |
| Reciprocal.MpDivNorm | qjs/libbf.c:1275-1344 | one-limb, schoolbook and reciprocal division meet one contract: a = q * b + r with 0 <= r < b |
| NewtonTheory.NewtonStep | qjs/libbf.c:1372-1407 | the Newton step doubles the precision: a * x < B^(2n) < a * (x + 2) holds again |
| Reciprocal.MpRecip | qjs/libbf.c:1351-1412 | a * r < B^(2n) < a * (r + 2) for every normalised a |
| NewtonTheory.LargeEstimate | qjs/libbf.c:1433-1493 | the quotient estimated with the reciprocal never exceeds the true one and is at most three short |
| Reciprocal.EstimateQuotient | qjs/libbf.c:1433-1493 | the estimate leaves a remainder from 0 to below 4b |
| Reciprocal.MpDivNormLarge | qjs/libbf.c:1433-1522 | exact quotient and remainder after at most three corrections |
| SquareRoot.MpSqrtRem1 | qjs/libbf.c:1887-1928 | one-limb root and remainder from the table entry |
| SquareRoot.MpSqrtRem2 | qjs/libbf.c:1944-1970 | two-limb root and remainder, the case q = 2^32 included |
| SquareRoot.KaratsubaStep | qjs/libbf.c:1976-2042 | the next digit of the root leaves a remainder that at most one decrement repairs |
| SquareRoot.MpSqrtRemRec | qjs/libbf.c:1976-2042 | a = s^2 + r with 0 <= r <= 2s for every 2n-limb a with one of its two top bits set |
| SquareRoot.MpSqrtRem | qjs/libbf.c:2050-2068 | the same for the entry point, the remainder in n + 1 limbs |
| SquareRoot.RootUnique | qjs/libbf.c:2050-2068 | root and remainder are determined by that |
| IntegerLogic.LogicBits | qjs/libbf.c:2322-2406 | limbs combined under the sign masks, then negated back, have the bits of the operation |
| IntegerLogic.LengthSuffices | qjs/libbf.c:2362-2375 | beyond the limbs computed all bits equal the sign of the result |
| IntegerLogic.LogicOp | qjs/libbf.c:2322-2406 | for all integers, bit k of the result is set iff bit k of one operand or the other, of both, or of exactly one is, for or, and, exclusive or |
| IntegerLogic.LogicAll | qjs/libbf.c:2309-2406 | the operations hang together: or plus and is the sum of the operands, exclusive or is or minus and |
| IntegerLogic.OrAndSum | qjs/libbf.c:2309-2406 | or plus and is the sum, for all integers, negative ones included: what no pair of wrong operations satisfies |
| IntegerLogic.LogicUnique | qjs/libbf.c:2322-2406 | an integer is determined by its two's-complement bits |
| RadixConversion.ChildSizes | qjs/libbf.c:2693-2729 | both halves of a node have one of the two sizes of the next level |
| RadixConversion.LevelSizeIsFloor | qjs/libbf.c:2693-2729 | the size of a level is floor(n0 / 2^level) |
| RadixConversion.TableSuffices | qjs/libbf.c:2732-2753 | no node that needs a power lies below the table of powers |
| RadixConversion.PowUi | qjs/libbf.c:2261-2277 | binary exponentiation gives the power |
| RadixConversion.FromRadix | qjs/libbf.c:2732-2753 | the sum of limb * radix^i |
| RadixConversion.DigitsUnique | qjs/libbf.c:3459-3482 | limbs below the radix are determined by their value |
| RadixEstimate.GuessInRange | qjs/libbf.c:3398-3417 | multiplying by the inverse rounded to (n2 + 1) * bits + 2 bits and cutting gives a quotient off by at most one, for every node of the recursion |
| RadixEstimate.NearestEvenRounds | qjs/libbf.c:3409-3417 | the integer rounding used for the estimate is rounding to nearest, ties to even |
| RadixOutput.ExactDivision | qjs/libbf.c:3419-3441 | exact quotient and remainder, with q_add between -1 and 1 |
| RadixOutput.ToRadix | qjs/libbf.c:3459-3482 | limbs below the radix with the given value |
| RadixOutput.ThereAndBack | qjs/libbf.c:3459-3482 | limbs to integer to limbs is the identity |
| RadixOutput.BackAndThere | qjs/libbf.c:2732-2753 | integer to limbs to integer is the identity |
| DecimalLimbs.DivideBase | qjs/libbf.c:5414-5431 | multiplication by the inverse constant and two masked corrections divide by 10^19 exactly for every high limb below 2^63 |
| DecimalLimbs.BaseIs | qjs/libbf.h:48 | the base is 10^19 |
| DecimalLimbs.AddDec | qjs/libbf.c:5565-5583 | addition of rows of base-10^19 limbs |
| DecimalLimbs.SubDec | qjs/libbf.c:5605-5622 | subtraction with borrow of rows of base-10^19 limbs |
| DecimalLimbs.Mul1Dec | qjs/libbf.c:5645-5658 | a row times a limb plus a limb, in place or not |
| DecimalLimbs.SubMul1Dec | qjs/libbf.c:5681-5704 | a row minus a product by one limb |
| DecimalDivision.Div1Dec | qjs/libbf.c:5724-5785 | division of a row by one limb is exact, by reciprocal or by the machine division |
| DecimalDivision.DivideDigitDec | qjs/libbf.c:5884-5920 | one decimal digit of the quotient is exact, adding back at most twice |
| DecimalDivision.MpDivDec | qjs/libbf.c:5831-5934 | scaling, dividing and unscaling give the exact quotient and remainder in base 10^19 |
| RoundingTheory.RoundingUnique | qjs/libbf.c:395-446 | each rounding mode allows exactly one result |
| RoundingTheory.StickyRounds | qjs/libbf.c:1690-1710 | an odd last bit below the places kept rounds like everything it stands for |
| RoundingLimbs.ScanBitNz | qjs/libbf.c:373-391 | whether any bit at or below a position is set |
| RoundingLimbs.GetRndAdd | qjs/libbf.c:395-446 | the round, sticky and last bits decide the direction of every deterministic mode and INEXACT |
| Rounding.RoundedUnique | qjs/libbf.c:484-589 | the rounding specification leaves no choice of value or status |
| Rounding.Float.SetOverflow | qjs/libbf.c:448-477 | when the range is left: infinity under rounding to nearest, away from zero, towards the infinity of the sign, or at unlimited precision; otherwise the largest number of the precision |
| Rounding.Directions | qjs/libbf.c:448-589 | a correctly rounded result lies on the side its mode names: RNDD at or below the signed exact value, RNDU at or above, RNDZ finite and no larger, RNDA no smaller, infinities counted as extremes; on overflow rounding to nearest gives infinity |
| Rounding.UnlimitedOverflow | qjs/libbf.c:448-477 | at unlimited precision an overflow is infinity in every mode |
| Rounding.Float.Round | qjs/libbf.c:484-589 | the result is the correctly rounded value: underflow, overflow, subnormals and INEXACT iff the value changed included |
| Rounding.Float.NormalizeAndRound | qjs/libbf.c:592-625 | the same from an unnormalised mantissa whose last bit may be sticky |
| Rounding.StickyCorrect | qjs/libbf.c:1690-1722 | rounding a mantissa with a sticky bit is rounding the number it stands for |
| FloatDivision.Div | qjs/libbf.c:1652-1722 | the exact quotient, correctly rounded, and every special case with its status |
| FloatDivision.Sqrt | qjs/libbf.c:2126-2188 | the real root, correctly rounded, and every special case with its status |
| LimbStreams.GetBitsIs | qjs/libbf.c:318-339 | 64 bits read at any position, negative ones included, are those bits of the number |
| CancelledBits.CountCancelled | qjs/libbf.c:816-866 | the leading bits of the difference that cancel, counted up to one |
| FloatAddition.SumBelow | qjs/libbf.c:918-970 | the carry and the sticky bit of all limbs below the ones kept, the gap between the operands skipped |
| FloatAddition.AddMantissas | qjs/libbf.c:880-1003 | the truncated limb sum with its sticky bit stands for the exact sum or difference |
| FloatAddition.Add | qjs/libbf.c:868-1010 | for all operands, precisions and deterministic modes: the exact sum or difference, correctly rounded, the sign of zero and every special case |
| FloatAddition.Compare | qjs/libbf.c:738-761 | NaN after everything and equal to itself, then infinity, then finite numbers by magnitude, then zero; 0 iff the magnitudes agree |
| RegexpSyntax.RepeatIsEcma | qjs/libregexp.c:2295-2300 | counted repetition is RepeatMatcher of section 22.2.2 of ECMA-262, whose empty iterations are cut off |
| RegexpAssertions.WordBoundaries | qjs/libregexp.c:2301-2322 | a word boundary matches exactly at the two ends of every maximal run of [0-9A-Za-z_], its negation exactly elsewhere |
| RegexpAssertions.LineEnds | qjs/libregexp.c:2227-2244 | ^ and $ match at the ends of the text and, with the multi-line flag, behind and before 10, 13, 8232 and 8233 |
| RegexpAssertions.SingleCharacters | qjs/libregexp.c:2245-2274 | the dot takes every character but 10, 13, 8232 and 8233, the others the one given or any; forwards and in lookbehinds |
| RegexpAssertions.TestAssertion | qjs/libregexp.c:2227-2322 | what the machine finds by testing the two neighbouring characters is what the assertion means in terms of runs and line ends |
| RegexpEmit.CheckAdvance | qjs/libregexp.c:950-1030 | the scan answers whether the first opcode that neither saves, pushes nor resets is one that takes a character |
| RegexpEmit.IsSimpleQuantifier | qjs/libregexp.c:1034-1071 | -1 iff some opcode is neither a character test nor a position check, otherwise the number of character tests |
| RegexpCorrect.AdvanceSound | qjs/libregexp.c:950-1030 | a pattern whose code passes the scan never matches the empty string |
| RegexpEmit.Emitter.Quantifier | qjs/libregexp.c:1554-1691 | inserting, patching and copying code in place gives the code of the quantified atom, whichever of its shapes |
| RegexpEmit.Emitter.EmitTerms | qjs/libregexp.c:1704-1736 | terms of a lookbehind end up in reverse order by moving code |
| RegexpEmit.Emitter.Whole | qjs/libregexp.c:1821-1909 | the buffer ends as the code of the whole pattern |
| RegexpMachine.Simulates | qjs/libregexp.c:2089-2494 | the machine with its stack of saved states computes what the recursive search computes |
| RegexpCorrect.Fragment | qjs/libregexp.c:1554-1770 | the code of any pattern finds a way on exactly when some end of a match allows one |
| RegexpExec.ExecDecides | qjs/libregexp.c:2089-2494 | on every input the machine comes to rest, and reports a match iff the semantics admits one |
| RegexpExec.Machine.Unwind | qjs/libregexp.c:2118-2172 | taking saved states off ends where the step relation ends |
| RegexpExec.Machine.Instruction | qjs/libregexp.c:2173-2450 | one turn of the loop is one step of the relation, every access in bounds |
| RegexpExec.Exec | qjs/libregexp.c:2499-2535 | compiling and running: rejects iff some class occurs with 65535 ranges or more, or otherwise the stack is deeper than a byte holds; otherwise terminates with the answer of the semantics |
| RegexpExec.CountCopies | qjs/libregexp.c:2450-2488 | the counting loop takes as many copies as the relation does |
| RegexpCorrect.GreedyIsLongest | qjs/libregexp.c:2450-2488 | the count is the largest number of copies the bound allows |
| RegexpStack.CompileBalanced | qjs/libregexp.c:1600-1690 | the code of every pattern leaves the stack as deep as it found it and jumps to places of the right depth |
| RegexpStack.RunKeeps | qjs/libregexp.c:2089-2494 | in every reachable state, saved ones included, the stack is as deep as the linear scan says |
| RegexpStack.ComputeStackSize | qjs/libregexp.c:1773-1815 | the size computed is the largest depth, or too many |
| RegexpExec.StackFits | qjs/libregexp.c:2118-2172 | no reachable state underflows, leaves the code or differs from the scanned depth |
| RegexpGreedy.SameOrder | qjs/libregexp.c:1034-1071 | for atoms accepted by re_is_simple_quantifier, the loops and the single opcode try the same ends in the same order |
| RegexpGreedy.SameVisits | qjs/libregexp.c:1563-1590 | run by the machine, both reach what follows the quantifier at the same positions in the same order |
| RegexpClasses.ClassAccepts | qjs/libregexp.c:2367-2443 | a class, from its points through its opcode to the answer of the machine, accepts exactly its members |
| RegexpClasses.EmitClasses | qjs/libregexp.c:821-857 | the pattern is rejected iff one of its atoms is a class of 65535 ranges or more |
| CharRanges.CharRange.Compress | qjs/libunicode.c:326-352 | strictly increasing points denoting the same set |
| CharRanges.CharRange.Combine | qjs/libunicode.c:355-405 | the points in one set or the other, in both, or in exactly one, in strictly increasing form |
| CharRanges.SetLaws | qjs/libunicode.c:355-405 | the intersection lies inside both operands, the exclusive or and the intersection are apart and together the union, and the exclusive or of union and exclusive or is the very array of the intersection |
| CharRanges.CanonicalUnique | qjs/libunicode.c:326-352 | the compressed form is canonical: two of them that denote the same set are equal |
| CharRanges.CharRange.UnionWith | qjs/libunicode.c:407-417 | the union of two sets |
| CharRanges.CharRange.UnionInterval | qjs/libunicode.h:91-97 | the set with an interval added |
| CharRanges.CharRange.Invert | qjs/libunicode.c:419-431 | the complement below 0xffffffff |
| CharRanges.EmitRange | qjs/libregexp.c:821-857 | too many ranges iff 65535 or more, otherwise the opcode that denotes the set |
| CharRanges.DenotesOrdered | qjs/libregexp.c:821-857 | the operands written are in the order the search needs |
| CharRanges.Search | qjs/libregexp.c:2380-2400 | the unsigned binary search finds c iff some pair contains it |
| CharRanges.RangeOpIsSet | qjs/libregexp.c:821-857 | the opcode accepts exactly the members of the set, 0xffff as infinity included |
| Sorting.HeapSort | qjs/cutils.c:470-502 | a sorted permutation |
| Sorting.Med3IsMedian | qjs/cutils.c:504-509 | the element chosen lies between the other two |
| Sorting.Partition4 | qjs/cutils.c:540-585 | the four-part layout: equal, less, greater, equal |
| Sorting.Split | qjs/cutils.c:536-600 | a permutation in three parts around the pivot |
| Sorting.Push | qjs/cutils.c:600-622 | stacked depths strictly increase, so a push finds room in the 50-entry stack |
| Sorting.Rqsort | qjs/cutils.c:512-629 | for every total preorder and length, terminates with a sorted permutation |
| LockFreeQueue.StepRefines | base/fifo_lockfree.h:137-215 | every step of every thread keeps the invariant and changes the abstract queue at most as a queue may |
| LockFreeQueue.TailLag | base/fifo_lockfree.h:137-215 | over every run the tail is not behind the head and lags the last node by at most one, and no step dereferences a missing node |
| LockFreeQueue.PoppedIsPrefix | base/fifo_lockfree.h:178-215 | over every run the values taken are a prefix of the values linked, in link order, and the rest is queued |
| LockFreeHistory.Linearizable | base/fifo_lockfree.h:137-215 | over every run: each finished push, and each pop that returned a value, put exactly one event into the history by a step of its own between call and return; a pop that returned NULL put none and the queue was empty in between; every event belongs to one call; the history is that of a queue |
| LockFreeHistory.PointDetermines | base/fifo_lockfree.h:137-215 | the step of an event determines the thread and the event |
| LockFreeHistory.DifferentPoints | base/fifo_lockfree.h:137-215 | different calls changed the queue at different steps |
| LockFreeDelivery.HandedOut | base/fifo_lockfree.h:178-215 | over every run: the node a pop returned holds, then and ever after, the value at its place in the queue, is the node at that place of the chain, and no other pop returned it |
| LockFreeDelivery.WasDummy | base/fifo_lockfree.h:178-215 | the node a pop returned was the dummy when its own swap took it, between call and return, and now holds the value of the node behind it |
| LockFreeProgress.PushAlone | base/fifo_lockfree.h:137-169 | from every state of the invariant a push running alone returns within the steps left to it, at most 24, with exactly its value added |
| LockFreeProgress.PopAlone | base/fifo_lockfree.h:178-215 | a pop running alone returns within the steps left to it, at most 30: with what it has taken already, else NULL when the queue is empty, else the front value in a node of its own, the queue one shorter |
| LockFreeProgress.Returns | base/fifo_lockfree.h:137-215 | in every reachable state every call running alone returns, once |
| LockLessList.RunInv | base/llist.h:194-266 | over every run within the table's rule: the chain behind the head is the list, every node is in one place, and history and list agree |
| LockLessList.Conservation | base/llist.h:194-266 | added nodes are those taken plus those on the list, newest first in the order of the swaps; each add returned whether it linked onto an empty list |
| LockLessList.TakenChain | base/llist.h:220-231 | the chain llist_del_all hands out spells exactly the list it emptied |
| LockLessList.TakenReversed | base/llist.h:220-231 | over every run within the rule: a chain taken by llist_del_all, reversed, lists its nodes in the order in which their batches were swapped in |
| LockLessList.AllSinceLastTake | base/llist.h:194-231 | between two llist_del_all with no other consumer, what waits on the list is everything added since, in order |
| LockLessList.NullMeansEmpty | base/llist.h:234-266 | over every run within the rule: when llist_del_first returned NULL, the list was empty at the head it read |
| LockLessList.DelFirstAnswers | base/llist.h:249-266 | a call of llist_del_first answers once, with NULL on an empty list and otherwise with the newest node |
| LockLessList.TwoDelFirstLoseANode | base/llist.h:234-266 | two consumers in llist_del_first: a run that loses a node |
| LockLessList.DelAllDuringDelFirstDuplicates | base/llist.h:20-27 | llist_del_all beside another llist_del_first: a run that delivers a node and keeps it |
| LockLessList.ReverseOrder | base/llist.h:275-288 | relinking in place spells the nodes in reverse, that is, oldest first |
| LockLessList.ReversedIsArrivals | base/llist.h:268-288 | what llist_reverse_order makes of a taken chain is the nodes in order of arrival |
| LockLessList.ReversedTwice | base/llist.h:275-288 | reversing twice is the identity |

## Left out

- Multiplication.MpMul: beyond 2^52 limbs the schoolbook loop is taken, where the source gives up; no address space holds such a number
- NttSplit.FftPartial: columns pass through one at a time instead of in strips of sixteen, and rows are copied out and back instead of being addressed by offset
- NttLimbs.PutBits: the bitwise or onto clear bits is an addition
- NttLimbs.FftMul: the buffers of all primes are separate rows, and the overlap and memory-saving flags of the source are not modelled
- LimbStreams.GetBitsIs: the bitwise or of two shifted limbs is an addition
- RadixOutput.ToRadix: integers stand for the intermediate big floats; their arithmetic at infinite precision is exact, and the two rounded operations are written out
- RadixConversion.FromRadix: integers stand for the intermediate big floats
- IntegerLogic.LogicOp: operands and result are integers, the limbs read from them in place of buffers
- FloatAddition.Add: mantissas are sequences of limbs, so writing the result over an operand is not modelled
- FloatDivision.Sqrt: the result is stated for every real number whose square is the operand, because Dafny's reals do not exhibit one
- Rounding.Float.Round: faithful rounding (BF_RNDF) and the flag that counts precision from the radix point are left out; exponents are unbounded integers compared with the range
- RegexpExec.Exec: instructions stand for opcodes with operands counted in instructions; bytes, 32-bit fields and growth of the buffer are not modelled; the opcode of a class is built when the class is tested
- RegexpEmit.Emitter.Quantifier: the shapes of non-greedy quantifiers, which differ in the split opcode and have no position check, are left out
- RegexpExec.ExecDecides: captures, which match is found, back references, non-greedy quantifiers, UTF-16 surrogate pairs and case folding are left out
- LockFreeQueue.StepRefines: memory is sequentially consistent, a node handed to push has not been used before, and tags do not wrap
- LockLessList.Conservation: memory is sequentially consistent; the rule allows every run of the header's table, and nothing is claimed about runs outside it beyond the two examples
- Sorting.Rqsort: elements are array entries instead of runs of bytes, and the comparison is a pure total preorder
- CharRanges.EmitRange: the two-byte and four-byte operands are numbers in a sequence of pairs
- Allocation never fails, so no error path that only reports lack of memory appears
- 32-bit limbs, the double-precision SIMD transforms and the checksum option of the multiplication are not part of this model
- Transcendental functions, Ziv loops, conversion to and from text, and decimal floats above the limb kernels
- The surface syntax of patterns, Unicode properties and the tables behind them
- Coroutines, dispatcher, timers, channels, server kit, containers and glue of conet, which are declarations or simpler than what is here
