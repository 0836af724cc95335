# NuttX kernel and library code: models and proofs

This project models the parts of the avr32dev1 NuttX tree whose correctness is least
obvious, and proves what they are for. Each Dafny module follows one source file or
component; the main results hold for all inputs, all runs or all reachable states.

- **Bignum kernel and digit generation of `__dtoa`** (`Words`, `Bigints`, `MultAdds`,
  `Compare`, `Multiply`, `ShiftLeft`, `Quorem`, `Pow5`, `Scaling`, `DigitTheory`,
  `RoundOff`, `DigitGen`, `ShortestGen`, `Conversion`). Numbers are little-endian sequences
  of 16-bit digits, in size classes with free lists, as in the branch of the file that is
  compiled (`Pack_32` is not defined). Every operation is an imperative method over mutable
  numbers, proved against the value it represents. On top of them the two digit loops: the
  fixed-length one is correctly rounded, ties to even; the left-to-right one produces the
  shortest decimal inside the margins and terminates. `Conversion` puts the scaling, the
  check of the exponent estimate, the margins and the loops together.
- **`__dtoa` from the double on** (`Doubles`, `Decimals`, `Intervals`, `FixedModes`,
  `SmallestNormal`, `Mantissas`, `Dtoa`). Doubles as IEEE 754 defines them, rounding to
  nearest, and what the digits stand for, both as reals. From the two words of any finite
  double: the string of mode 0 is the shortest that reads back as it, and the closest of
  those, ties to even (`Dtoa.Shortest`); that of modes 2 and 3 is correctly rounded (`Dtoa.FixedLength`).
  Sums of units (`Times`) take the place of products of reals.
- **Block read-ahead and write buffer** (`RwModel`, `RwProofs`, `RwRuns`, `RwBuffers`). A
  plain array of blocks is refined by device, pending run and window. `RwBuffers` is the
  driver, proved against state functions; the run theorems are about those.
- **Inode tree and descriptors** (`InodeNames`, `InodeForest`, `InodeShape`, `Vfs`,
  `Files`). The pointer structure represents a tree value; searching, reserving and removing
  are proved on both levels. A ghost set says what is allocated: only what is in it can
  be freed, and the operations ask for inodes in it; reading fields of others is not
  prevented. `Files` adds descriptor lists: an inode's count is the number of descriptors
  that hold it, in all lists together, after every operation on every path.
- **CRC-32** (`CrcRegister`, `Crc32`). The table-driven loop refines a bit-serial register
  over the generator of IEEE 802.3 section 3.2.9, with start value 0 and no final
  complement, and detects every burst of up to 32 bits.
- **CAN transmit FIFO** (`CanTransmit`). Each method is a stretch that runs without
  interruption, so any sequence of calls is an interleaving of task and interrupt.
- **Calendar** (`Calendar`), **recursive stream lock** (`StreamLock`), **doubly linked
  queue** (`DqQueue`). `Basics` holds the arithmetic several modules need.

Where the code departs from what its comments or its callers expect, the model follows the
code and the exact condition is proved:

- `multadd` loses its result for a number without digits and a nonzero addend; `quorem` does
  leave such numbers, but the digit loops never add to one (`MultAdds.MultAdd`).
- `cmp` orders a zero without digits below a zero with one (`Compare.Cmp`); the shortest loop
  is right in spite of it (`ShortestGen.UpperSign`).
- A first digit nine is rounded up to ten where the upper end is exactly ten, although nine may
  be acceptable and closer (`DigitTheory.TenClosest`, `DigitTheory.NineNotNearest`). Such inputs
  are integers of the loop only; no double leads to them (`Intervals.NeverLost`).
- An exact tie between two acceptable last digits goes to the even one, except that the lower
  is taken when both ends of the interval are on them (`DigitTheory.EmitsTie`,
  `DigitTheory.TieToOdd`). No double leads to that either (`Intervals.NeverTied`).
- The lower margin of 2^-1022, the smallest normal double, is taken for half of what it is. Its
  digits are right all the same (`SmallestNormal.SmallestReads`).
- `rwb_read` flushes for the requested blocks only, but reloads a whole window, so an old
  block can be returned (`RwProofs.ReadCoherent`, `RwRuns.StaleReadExample`).
- Removing an inode below which another one is still referenced breaks the descriptors
  (`Files.Descriptors.Remove`, `Files.RemoveAboveOpen`).
- `files_dup` returns 0 on success and `file_dup2` passes that on, not the new descriptor
  (`Files.Descriptors.FileDup2`).
- A non-blocking `can_write` that finds the FIFO empty and fills it returns without starting
  the transmission, and no later call starts it (`CanTransmit.CanDevice.CanWrite`).
- `clock_gregorian2utc` counts the days from 1 March -4800 on and `clock_julian2utc` from
  1 March -5001 on, and neither from any earlier day on: the divisions round negative numbers
  up (`Calendar.RightExactly`).

## Model

| member | source | states |
|---|---|---|
| Bigints.Pool.constructor | nuttx_avr32dev1/lib/lib_dtoa.c:127-127 | no number is free and no power of five cached |
| Bigints.Pool.Balloc | nuttx_avr32dev1/lib/lib_dtoa.c:133-151 | returns a number of size class k with no digits and sign 0: the first of the free list of that class, which loses it, or a new one exactly when the list is empty; the other lists are untouched and all stay well formed, disjoint and null-terminated |
| Bigints.Pool.Bfree | nuttx_avr32dev1/lib/lib_dtoa.c:153-160 | puts exactly this number first on the free list of its class, leaves its digits and the other lists alone; freeing null does nothing; a number already free may not be freed |
| Words.ValBound | nuttx_avr32dev1/lib/lib_dtoa.c:164-204 | digits below 65536 make a value below 65536^n, so a value determines how many digits can be needed |
| Words.ValLowerBound | nuttx_avr32dev1/lib/lib_dtoa.c:541-542 | a nonzero top digit makes the value at least 65536^(n-1) |
| MultAdds.MulDigits | nuttx_avr32dev1/lib/lib_dtoa.c:173-190 | the digit loop turns the value v into v * m + a, of which the returned carry is the part above the digits kept; digits stay below 65536 |
| MultAdds.ProductBound | nuttx_avr32dev1/lib/lib_dtoa.c:185-186 | the accumulator stays below 2^32 and the carry below 2^16, so no bit is lost |
| MultAdds.MultAdd | nuttx_avr32dev1/lib/lib_dtoa.c:164-204 | value b * m + a; the number gains a digit exactly when the sum needs it, and a size class exactly when all its digits were in use then; the one input for which the value is lost is a number without digits with a > 0 |
| MultAdds.SumClassLeast | nuttx_avr32dev1/lib/lib_dtoa.c:191-202 | the size class of the sum is the least one from that of b on that holds its digits |
| Compare.Cmp | nuttx_avr32dev1/lib/lib_dtoa.c:524-555 | the sign of the difference of the values; equal values give 0 except that the zero without digits sorts below the zero with one |
| Compare.ShorterIsSmaller | nuttx_avr32dev1/lib/lib_dtoa.c:541-542 | of two trimmed numbers the one with fewer digits is smaller, or both are zero |
| Compare.FirstDifference | nuttx_avr32dev1/lib/lib_dtoa.c:547-550 | the topmost differing digit decides the order of two values |
| Compare.SubDigits | nuttx_avr32dev1/lib/lib_dtoa.c:617-631 | the two borrow loops leave exactly the difference of the values and no borrow |
| Compare.Diff | nuttx_avr32dev1/lib/lib_dtoa.c:557-637 | the absolute difference, trimmed, in a fresh or recycled number, with sign 1 exactly when the first operand is smaller; operands without digits included, but for two zeros not both written with a digit |
| Multiply.MulRow | nuttx_avr32dev1/lib/lib_dtoa.c:393-400 | one row adds a * y * 65536^j to the product and touches no digit beyond its carry |
| Multiply.RowBound | nuttx_avr32dev1/lib/lib_dtoa.c:395-396 | the accumulator of a row stays below 2^32 |
| Multiply.RowStep | nuttx_avr32dev1/lib/lib_dtoa.c:395-397 | one digit of a row keeps: digits written plus carry equal what was there plus the product so far |
| Multiply.MulRows | nuttx_avr32dev1/lib/lib_dtoa.c:386-402 | all rows together leave the full product; rows of zero digits may be skipped |
| Multiply.Mult | nuttx_avr32dev1/lib/lib_dtoa.c:313-407 | the product of the two values with as many digits as it needs, in the class of the first operand or the next one if the digits of both do not fit; operands without digits included; exactly the new number leaves the free lists, and the operands and everything else allocated are unchanged |
| Multiply.ProductClassLeast | nuttx_avr32dev1/lib/lib_dtoa.c:330-337 | the size class of the product is the least one, from that of the longer operand on, that holds the digits of both |
| ShiftLeft.ShiftDigits | nuttx_avr32dev1/lib/lib_dtoa.c:497-511 | the digit loop of a shift by fewer than sixteen bits: value times 2^k, of which z is the part above the digits written |
| ShiftLeft.ShiftSplit | nuttx_avr32dev1/lib/lib_dtoa.c:503-504 | the two halves of a shifted digit do not overlap and lose nothing |
| ShiftLeft.LShift | nuttx_avr32dev1/lib/lib_dtoa.c:455-522 | value times 2^k in the least size class large enough for every write; exactly the old number goes to the free lists and the new one leaves them; the result is trimmed except for a zero shifted by sixteen bits or more |
| Pow5.PowerStep | nuttx_avr32dev1/lib/lib_dtoa.c:445-448 | the square of the power held by one chain node is the power of the next |
| Pow5.FirstPower | nuttx_avr32dev1/lib/lib_dtoa.c:425-430 | the chain starts with 625, kept off the free lists |
| Pow5.NextPower | nuttx_avr32dev1/lib/lib_dtoa.c:445-450 | the next chain node exists or is appended as the square of the last, and the chain still holds 5^(4*2^j) at node j, linked in order and disjoint from every free list |
| Pow5.OwedStep | nuttx_avr32dev1/lib/lib_dtoa.c:434-443 | halving k while moving to the squared power leaves the power still owed unchanged |
| Pow5.Pow5Loop | nuttx_avr32dev1/lib/lib_dtoa.c:432-451 | the loop multiplies by 625^k using the cached powers and keeps the chain correct |
| Pow5.Pow5Mult | nuttx_avr32dev1/lib/lib_dtoa.c:411-453 | b * 5^k whatever state earlier calls left the cache in, exactly when no size class beyond the last is asked for on the way; the cache stays correct and off the free lists |
| Pow5.BitsFit | nuttx_avr32dev1/lib/lib_dtoa.c:432-451 | the classes suffice when there is one left for every bit of k, as there is for the exponents of a double |
| Pow5.FitsSimply | nuttx_avr32dev1/lib/lib_dtoa.c:411-453 | the same for the whole of pow5mult, and the class of the result is at most one plus those bits above that of b |
| Pow5.PowersOfTwoFit | nuttx_avr32dev1/lib/lib_dtoa.c:411-453 | and for k a power of two from 4 to 65536, which takes one multiplication, every class but the last suffices |
| Quorem.Estimate | nuttx_avr32dev1/lib/lib_dtoa.c:796-796 | with a twelve-bit top digit and a quotient below ten, the one-digit estimate is the quotient or one less |
| Quorem.SubScaled | nuttx_avr32dev1/lib/lib_dtoa.c:805-830 | b - q * S in place, with the carry and the borrow both gone at the end |
| Quorem.DividendFits | nuttx_avr32dev1/lib/lib_dtoa.c:781-791 | a dividend below ten times such a divisor has no more digits than it |
| Quorem.TrimTop | nuttx_avr32dev1/lib/lib_dtoa.c:831-837 | leading zeros are dropped without changing the value; a number with one zero digit ends with no digits |
| Quorem.Correct | nuttx_avr32dev1/lib/lib_dtoa.c:839-878 | one correction step suffices: the remainder ends below S |
| Quorem.QuoRem | nuttx_avr32dev1/lib/lib_dtoa.c:770-880 | returns the quotient digit floor(b / S) and leaves b mod S |
| Scaling.Hi0Bits | nuttx_avr32dev1/lib/lib_dtoa.c:206-243 | the number of leading zero bits of a 32-bit word, 32 for zero |
| Scaling.Alignment | nuttx_avr32dev1/lib/lib_dtoa.c:1365-1381 | the common shift brings the bit length of the top digit to 12 modulo 16 and is below 32 |
| Scaling.TwelveBits | nuttx_avr32dev1/lib/lib_dtoa.c:1345-1356 | a number whose bit length is 12 modulo 16 has exactly twelve bits in its top digit |
| Scaling.FixEstimate | nuttx_avr32dev1/lib/lib_dtoa.c:1386-1396 | after the check of the exponent estimate b lies in [S, 10 S), multiplied by ten exactly when it was below S |
| DigitTheory.Finish | nuttx_avr32dev1/lib/lib_dtoa.c:1429-1473 | a digit emitted when its remainder, or one unit more, is acceptable makes the whole decimal lie in the interval, strictly inside unless its ends are allowed |
| DigitTheory.NotYet | nuttx_avr32dev1/lib/lib_dtoa.c:1446-1473 | as long as no stopping test fires no decimal of that length is acceptable |
| DigitTheory.Advance | nuttx_avr32dev1/lib/lib_dtoa.c:1473-1484 | one more digit keeps the exact relation of digits, remainder and margins to the input, and nothing as short is acceptable |
| DigitTheory.NineOnlyFirst | nuttx_avr32dev1/lib/lib_dtoa.c:1462-1469 | a nine is rounded up only as the first digit |
| DigitTheory.EmitsNearest | nuttx_avr32dev1/lib/lib_dtoa.c:1446-1472 | with equal margins the digit emitted is within half a unit of the number |
| DigitTheory.EmitsClosest | nuttx_avr32dev1/lib/lib_dtoa.c:1436-1472 | with any margins of which the upper one is not the smaller, no acceptable decimal of the same length is closer than what the digit emitted makes |
| DigitTheory.EmitsBelowTen | nuttx_avr32dev1/lib/lib_dtoa.c:1436-1472 | a digit is emitted only where ten is not the answer; when it is, is a condition on b, S and the margins alone |
| DigitTheory.EmitsTie | nuttx_avr32dev1/lib/lib_dtoa.c:1436-1472 | of two acceptable decimals of the same length that are equally close the even one is put out, if and only if not: the ends of the interval are allowed and are two consecutive decimals, an odd one below one that ends in no zero |
| DigitTheory.TenTie | nuttx_avr32dev1/lib/lib_dtoa.c:1436-1469 | ten, which is even, is never put out for such an interval |
| DigitTheory.TieToOdd | nuttx_avr32dev1/lib/lib_dtoa.c:1436-1444 | there is one: 3.5 with margins of one half, where the stopping tests lead to three |
| DigitTheory.TenClosest | nuttx_avr32dev1/lib/lib_dtoa.c:1436-1469 | where the answer is ten it is the closest acceptable decimal of its length, and with equal margins the nearest of all, if and only if not: the ends are allowed, the upper one is exactly ten, and nine is acceptable and closer, other than nine itself over a divisor of one digit |
| DigitTheory.NineNotNearest | nuttx_avr32dev1/lib/lib_dtoa.c:1438-1468 | it does fail: for 9.1 with margins of 0.9 every decision the stopping tests allow rounds the nine up, and nine is nearest |
| DigitTheory.NineNearestAtTen | nuttx_avr32dev1/lib/lib_dtoa.c:1438-1468 | an upper end of exactly ten alone does no harm: 9.8 with margins of 0.2 is rounded up to the nearest |
| DigitTheory.RoundDecision | nuttx_avr32dev1/lib/lib_dtoa.c:1497-1499 | the comparison of twice the remainder with S rounds to nearest, ties to even |
| DigitTheory.RoundedUnique | nuttx_avr32dev1/lib/lib_dtoa.c:1497-1499 | the rounded integer is determined by the number |
| RoundOff.RoundUp | nuttx_avr32dev1/lib/lib_dtoa.c:1501-1509 | adding one unit to the last digit: the output stands for the digits plus one, with trailing nines dropped, and all nines become 1 with the exponent raised |
| RoundOff.StripTrailingZeros | nuttx_avr32dev1/lib/lib_dtoa.c:1511-1515 | the value is kept and the last digit is not zero |
| DigitGen.FixedLoop | nuttx_avr32dev1/lib/lib_dtoa.c:1486-1493 | exactly ilim decimal digits, the first not zero, whose value times S plus the remainder is the scaled number |
| DigitGen.RoundLast | nuttx_avr32dev1/lib/lib_dtoa.c:1495-1515 | the digits after round-off stand for the correctly rounded integer and end in no zero |
| DigitGen.FixedDigits | nuttx_avr32dev1/lib/lib_dtoa.c:1486-1515 | the ilim-digit decimal nearest to b / S, ties to even, trailing zeros stripped |
| ShortestGen.CompareUpper | nuttx_avr32dev1/lib/lib_dtoa.c:1432-1434 | the sign of b - (S - mhi), also when mhi exceeds S; a remainder of zero left by a divisor of one digit sorts below a difference of zero |
| ShortestGen.StopTest | nuttx_avr32dev1/lib/lib_dtoa.c:1429-1434 | the next digit, its remainder, and the signs of the comparisons with both margins |
| ShortestGen.Decide | nuttx_avr32dev1/lib/lib_dtoa.c:1436-1473 | which of going on, emitting the digit, emitting the next digit, or rounding a nine the two signs lead to, for even and odd mantissas and every mode |
| ShortestGen.LoopContinues | nuttx_avr32dev1/lib/lib_dtoa.c:1473-1484 | a pass that does not stop keeps the loop invariant for the scaled numbers, and both margins are within the remainder |
| ShortestGen.LoopEmits | nuttx_avr32dev1/lib/lib_dtoa.c:1440-1471 | emitting a digit ends with an acceptable decimal than which no acceptable one is shorter and, unless the upper margin is the smaller, none as long is closer, a tie going to the even one, and which neither begins nor ends with zero |
| ShortestGen.LoopRoundsNine | nuttx_avr32dev1/lib/lib_dtoa.c:1438-1469 | the nine that becomes ten is the first digit, ten is acceptable and nothing acceptable is shorter; it is the closest except where the last condition of TenClosest says |
| ShortestGen.ScaleUp | nuttx_avr32dev1/lib/lib_dtoa.c:1476-1483 | b and the margins times ten, whether or not mlo and mhi are one number |
| ShortestGen.ShortestDigits | nuttx_avr32dev1/lib/lib_dtoa.c:1427-1515 | the loop terminates; when a stopping test fires the output is within the digit limit, acceptable, shorter than any other acceptable decimal or as short, without a zero at either end, ten exactly where that is the answer, and closest (nearest, with equal margins) if and only if no nine is lost, and even in a tie if and only if its interval is not the one of EmitsTie; otherwise it is the correctly rounded ilim-digit decimal and nothing acceptable is shorter |
| Conversion.ScaleBoth | nuttx_avr32dev1/lib/lib_dtoa.c:1365-1385 | every positive b and S whose shifted sizes the largest class can hold come out multiplied by their powers of two and one common one, with exactly twelve bits in the top digit of S, which is what quorem needs |
| Conversion.Prepare | nuttx_avr32dev1/lib/lib_dtoa.c:1365-1396 | b ends in [S, 10 S), and is multiplied by ten exactly when the unscaled quotient was below one |
| Conversion.BothMargins | nuttx_avr32dev1/lib/lib_dtoa.c:1411-1425 | mlo is the scaled margin; mhi is the same number, or a separate one of twice the value above a power of two |
| Conversion.FewDigits | nuttx_avr32dev1/lib/lib_dtoa.c:1397-1410 | with no digit asked for the number is rounded to a multiple of ten, ties to even: one digit comes out exactly when b > 5 S and the limit is not negative; the free lists stay well formed |
| Conversion.EndsScaled | nuttx_avr32dev1/lib/lib_dtoa.c:1365-1515 | a common factor cancels in everything the shortest loop promises, the conditions at a first nine included |
| Conversion.FixedConversion | nuttx_avr32dev1/lib/lib_dtoa.c:1362-1515 | from the unscaled integers to the digits: the correctly rounded decimal of the fixed-length modes, with the exponent lowered exactly when the estimate was too large; free lists and cached powers of five are in order for the next conversion |
| Conversion.ShortestConversion | nuttx_avr32dev1/lib/lib_dtoa.c:1362-1515 | from the unscaled integers to the digits: everything ShortestDigits promises, for the interval around the quotient and with the conditions in terms of the unscaled integers, the exponent lowered exactly when the estimate was too large; free lists and cached powers of five are in order for the next conversion |
| Doubles.Neighbour | nuttx_avr32dev1/lib/lib_dtoa.c:924-928 | every other double is at least one unit of the last mantissa bit above, and below by that or, under a power of two, half of it |
| Doubles.ReadsExactly | nuttx_avr32dev1/lib/lib_dtoa.c:924-928 | a real rounded to the nearest double, ties to even, is this one if and only if it lies no farther than half the way to either neighbour, the ends belonging to even mantissas |
| Decimals.ShortestInReals | nuttx_avr32dev1/lib/lib_dtoa.c:1427-1515 | when no nine is lost, the digits of the shortest loop as a real number lie in the interval; no decimal of fewer digits, with any exponent, does; and no other of as many that does is closer, a tie going to the even one |
| Decimals.TieAnywhere | nuttx_avr32dev1/lib/lib_dtoa.c:1452-1458 | if any other decimal of as many digits, with any exponent, is as close, then it and the output are consecutive integers at the same exponent and the output is the even one |
| Decimals.RoundedInReals | nuttx_avr32dev1/lib/lib_dtoa.c:1486-1515 | the digits of the fixed-length loop stand for the number rounded to the place of the last one, ties to even |
| Decimals.RoundedRealUnique | nuttx_avr32dev1/lib/lib_dtoa.c:1497-1499 | which determines the decimal |
| Intervals.WantedDepicts | nuttx_avr32dev1/lib/lib_dtoa.c:1053-1077 | the powers of two and five set up make number, divisor and margins stand, in one unit, for the double, the power of ten of its first digit, and half the distances to its neighbours (half the lower one of those above a power of two) |
| Intervals.EstimatedNumbers | nuttx_avr32dev1/lib/lib_dtoa.c:1386-1396 | an exponent estimate right or one too large is what the check of the estimate on the integers needs |
| Intervals.NeverLost | nuttx_avr32dev1/lib/lib_dtoa.c:1438-1469 | a double never loses a nine: its even mantissa would be 6 or 8 and a multiple of 13 or 17 ten times a product of twos and fives |
| Intervals.NeverTied | nuttx_avr32dev1/lib/lib_dtoa.c:1436-1444 | the interval of a double never ends on two consecutive decimals: its ends are odd multiples of the margin |
| Intervals.BestForDouble | nuttx_avr32dev1/lib/lib_dtoa.c:1427-1515 | so the output of the loop is the best decimal for the interval of the double, and within half a unit of its last digit unless the double is a power of two |
| SmallestNormal.SmallestReads | nuttx_avr32dev1/lib/lib_dtoa.c:1338-1352 | for 2^-1022 the code takes a lower margin of half the true one; the shortest digits for it are the shortest that read back as that double all the same |
| FixedModes.DoubleIsRounded | nuttx_avr32dev1/lib/lib_dtoa.c:1386-1515 | the output of the fixed-length loop, no digits included, shows the double rounded to the place of the last digit asked for, whether or not the estimate was too large |
| Mantissas.Lo0Bits | nuttx_avr32dev1/lib/lib_dtoa.c:245-301 | the trailing zero bits of a word are counted and shifted out, 32 for zero |
| Mantissas.WordsCount | nuttx_avr32dev1/lib/lib_dtoa.c:650-656 | mantissa and exponent taken from the two words give the words back, but for the sign: read as one number they count the doubles |
| Mantissas.ThreeDigits | nuttx_avr32dev1/lib/lib_dtoa.c:685-698 | the or of the two words moved down is a sum, and the three digits make the whole |
| Mantissas.D2b | nuttx_avr32dev1/lib/lib_dtoa.c:639-750 | for every nonzero double a number without leading zero digits which times a power of two is the mantissa, with the exponent of its last bit and its bit length |
| Dtoa.Exponents | nuttx_avr32dev1/lib/lib_dtoa.c:1053-1077 | the exponents of two and five differ by those of the number divided by 10^k, and of five only one is not zero |
| Dtoa.MarginPowers | nuttx_avr32dev1/lib/lib_dtoa.c:1280-1352 | with the common power of two taken out, the exponents make the number twice its mantissa in upper margins, four times in lower ones above a power of two, and the quotient the double divided by 10^k |
| Dtoa.NumberAndMargin | nuttx_avr32dev1/lib/lib_dtoa.c:1317-1333 | number and margin take the same power of five; the cache stays in order and no other number is touched |
| Dtoa.Shortest | nuttx_avr32dev1/lib/lib_dtoa.c:1006-1535 | modes 0 and 1 from the two words of a finite double on, given an exponent estimate right or one too large: the digits and decpt read back as the double; in mode 0 no decimal of fewer digits does and no other of as many that does is closer, an exact tie going to the even digit; in mode 1 the same strictly inside the interval; no zeros at the ends; cache and free lists ready for the next call |
| Dtoa.FixedLength | nuttx_avr32dev1/lib/lib_dtoa.c:1006-1535 | modes 2 and 3, likewise: what is printed is the double rounded to max(1, ndigits) significant digits, or to ndigits places behind the point, also to none or a negative number of them, ties to even; 0 is printed as one digit |
| RwModel.OverlapCovers | nuttx_avr32dev1/drivers/rwbuffer.c:116-133 | two ranges are reported as overlapping if and only if they share a block or one ends where the other begins |
| RwProofs.WriteRefines | nuttx_avr32dev1/drivers/rwbuffer.c:597-646 | every write acts on the disk the user sees as the same write to a plain array, and keeps the pending run contiguous, within its limit and ending at the expected block |
| RwProofs.WriteCoherent | nuttx_avr32dev1/drivers/rwbuffer.c:609-614 | a write never leaves a stale block in the read-ahead window |
| RwProofs.WriteGathers | nuttx_avr32dev1/drivers/rwbuffer.c:240-285 | a write that starts a pending run or continues it and fits leaves the device untouched and all blocks pending; one that does not fit or continue sends the old run and leaves exactly its own blocks pending; one larger than the buffer goes to the device after the old run |
| RwProofs.WriteDropsWindow | nuttx_avr32dev1/drivers/rwbuffer.c:609-614 | the window is given up exactly when the write shares a block with it or touches it |
| RwProofs.FlushEmpties | nuttx_avr32dev1/drivers/rwbuffer.c:155-182 | a flush, and so a timeout, makes the device what the user sees and leaves nothing pending |
| RwProofs.ReloadExact | nuttx_avr32dev1/drivers/rwbuffer.c:341-379 | a reload restores agreement of the window with the disk exactly when no pending block of its whole window differs from the device |
| RwProofs.ReadRefines | nuttx_avr32dev1/drivers/rwbuffer.c:497-591 | a read never changes the disk, and replies what the plain array holds when the window is not stale where it meets the request |
| RwProofs.ReadLoopEnds | nuttx_avr32dev1/drivers/rwbuffer.c:531-579 | the state after the read loop is the reload at the start of its last window |
| RwProofs.ReadCoherent | nuttx_avr32dev1/drivers/rwbuffer.c:497-591 | from a coherent window a read leaves one exactly when it reloaded nothing or the device agrees with every pending block of the last window loaded |
| RwProofs.ReadFlushes | nuttx_avr32dev1/drivers/rwbuffer.c:510-524 | a read sends the pending run to the device exactly when it asks for one of its blocks or one next to it, and leaves both alone otherwise |
| RwProofs.ServedExactly | nuttx_avr32dev1/drivers/rwbuffer.c:545-559 | the window serves all the wanted blocks it has from the first one on |
| RwProofs.WindowServes | nuttx_avr32dev1/drivers/rwbuffer.c:531-579 | a read of blocks that are all in the window loads nothing |
| RwRuns.RunKeepsDisk | nuttx_avr32dev1/drivers/rwbuffer.c:155-646 | over every run of reads, writes and timeouts the invariant holds and the disk is the plain array with the same writes |
| RwRuns.RunReplies | nuttx_avr32dev1/drivers/rwbuffer.c:155-646 | over every safe run each read replies what the plain array would |
| RwRuns.WriteBufferAlwaysSafe | nuttx_avr32dev1/drivers/rwbuffer.c:597-646 | with only the write buffer configured every run is safe |
| RwRuns.RunGathers | nuttx_avr32dev1/drivers/rwbuffer.c:240-285 | over every run of writes one behind the other that fit the buffer together no block of the device changes, and all of them are pending at the end |
| RwRuns.CoherentIffReadsRight | nuttx_avr32dev1/drivers/rwbuffer.c:497-591 | the window is coherent if and only if every possible read is answered correctly |
| RwRuns.StaleReadExample | nuttx_avr32dev1/drivers/rwbuffer.c:512-579 | a run of one write and two reads that returns an old block: the flush condition looks at the requested range only |
| RwBuffers.RwBuffer.WrFlush | nuttx_avr32dev1/drivers/rwbuffer.c:155-182 | the pending run is written to the device and the buffer emptied |
| RwBuffers.RwBuffer.WriteBuffer | nuttx_avr32dev1/drivers/rwbuffer.c:232-285 | the new state is the write-buffer function of the old one |
| RwBuffers.RwBuffer.Write | nuttx_avr32dev1/drivers/rwbuffer.c:597-646 | the new state is the write function of the old one, for which refinement is proved |
| RwBuffers.RwBuffer.RhReload | nuttx_avr32dev1/drivers/rwbuffer.c:341-379 | the window is reloaded from the device, cut off at its end |
| RwBuffers.RwBuffer.CountServed | nuttx_avr32dev1/drivers/rwbuffer.c:545-559 | the number of requested blocks the window can serve |
| RwBuffers.RwBuffer.ReadAhead | nuttx_avr32dev1/drivers/rwbuffer.c:531-579 | the read loop terminates and returns the data and state of the read function |
| RwBuffers.RwBuffer.Read | nuttx_avr32dev1/drivers/rwbuffer.c:497-591 | the new state and the data are those of the read function |
| InodeNames.InodeCompare | nuttx_avr32dev1/fs/fs_inode.c:74-135 | the dictionary order of the next path component and the node name |
| InodeNames.InodeNextName | nuttx_avr32dev1/fs/fs_inode.c:324-329 | the path after the next slash |
| InodeNames.OneComponent | nuttx_avr32dev1/fs/fs_inodereserve.c:79-83 | a path without a slash is its own component, whole, with nothing behind it |
| InodeNames.FirstComponent | nuttx_avr32dev1/fs/fs_inode.c:324-329 | the component in front of the first slash is all that stands there, and the next name all that stands behind it |
| InodeNames.JoinComponents | nuttx_avr32dev1/fs/fs_inode.c:207-299 | the components with slashes between them are the path, without a single trailing slash |
| InodeNames.SameComponents | nuttx_avr32dev1/fs/fs_inode.c:207-299 | two paths have the same components if and only if they are the same but for that slash |
| InodeNames.CompareLess | nuttx_avr32dev1/fs/fs_inode.c:74-135 | a name comes before another if and only if they agree up to where it has ended or goes on with the smaller character |
| InodeNames.CompareTransitive | nuttx_avr32dev1/fs/fs_inode.c:74-135 | the order on names is transitive, so sorted siblings can be searched with an early stop |
| InodeForest.SearchResolves | nuttx_avr32dev1/fs/fs_inode.c:207-299 | the ordered search with its early stop finds exactly the inode the component path leads to, mountpoints absorbing the rest, and misses exactly when there is none |
| InodeForest.ResolveNamed | nuttx_avr32dev1/fs/fs_inode.c:207-299 | the inode a path leads to has the last of the names used up, and names are left over behind a mountpoint only |
| InodeForest.MountTakes | nuttx_avr32dev1/fs/fs_inode.c:242-262 | every longer path through a mountpoint leads to it, with the rest of the path |
| InodeForest.ResolveBelow | nuttx_avr32dev1/fs/fs_inode.c:242-290 | through any other inode it goes on among the children of that inode |
| InodeShape.UniquePlace | nuttx_avr32dev1/fs/fs_inode.c:274-299 | the insertion point reported by a failed search is the only one among those siblings that keeps the order |
| InodeForest.AddSorted | nuttx_avr32dev1/fs/fs_inodereserve.c:158-209 | inserting the chain of missing components there keeps every sibling list strictly sorted |
| InodeForest.AddResolves | nuttx_avr32dev1/fs/fs_inodereserve.c:147-209 | afterwards exactly the path and its missing ancestors are new; every other path leads where it led |
| InodeForest.DropSorted | nuttx_avr32dev1/fs/fs_inoderemove.c:68-96 | unlinking keeps every sibling list sorted |
| InodeForest.DropResolves | nuttx_avr32dev1/fs/fs_inoderemove.c:108-155 | unlinking what a search found makes exactly the paths through it lead nowhere |
| InodeForest.DropNodes | nuttx_avr32dev1/fs/fs_inoderemove.c:68-96 | it takes away that inode and its descendants and nothing else |
| InodeShape.PeerShape | nuttx_avr32dev1/fs/fs_inodereserve.c:112-116 | the two pointer writes to the right of a peer represent the tree with the new inode there |
| InodeShape.KidShape | nuttx_avr32dev1/fs/fs_inodereserve.c:122-126 | the two pointer writes under a parent represent the tree with the new inode first |
| InodeShape.AddIsInsert | nuttx_avr32dev1/fs/fs_inodereserve.c:158-203 | inserting where the search ended is inserting the path component |
| InodeShape.DropShape | nuttx_avr32dev1/fs/fs_inoderemove.c:68-96 | the single pointer write of an unlink represents the tree without the inode |
| Vfs.FileSystem.InodeSearch | nuttx_avr32dev1/fs/fs_inode.c:207-299 | the pointer-walking loop returns what the search of the represented tree returns |
| Vfs.FileSystem.InodeInsert | nuttx_avr32dev1/fs/fs_inodereserve.c:104-135 | the represented tree becomes the one with the new inode at the given place |
| Vfs.FileSystem.InodeReserve | nuttx_avr32dev1/fs/fs_inodereserve.c:147-209 | succeeds exactly for an absolute path that leads nowhere; then every path leads where it led, but for the path and its missing ancestors, which lead to the new inodes; otherwise nothing changes |
| Vfs.FileSystem.InodeUnlink | nuttx_avr32dev1/fs/fs_inoderemove.c:68-96 | exactly one pointer to the node and its own peer pointer change |
| Vfs.FileSystem.InodeFree | nuttx_avr32dev1/fs/fs_inode.c:305-313 | frees a list of siblings and everything below, each inode once and while it is allocated |
| Vfs.FileSystem.InodeRemove | nuttx_avr32dev1/fs/fs_inoderemove.c:108-155 | the paths through the inode lead nowhere and all others where they did; an unreferenced inode is freed with its subtree, a referenced one is kept aside with it and reported busy; errors change nothing |
| Vfs.FileSystem.RemovedUnreachable | nuttx_avr32dev1/fs/fs_inoderemove.c:123-137 | no path leads to a removed inode or to anything below it |
| Vfs.FileSystem.InodeFind | nuttx_avr32dev1/fs/fs_inodefind.c:76-98 | one more reference on exactly the inode the path leads to |
| Vfs.FileSystem.InodeAddref | nuttx_avr32dev1/fs/fs_inodeaddref.c:75-83 | one more reference on exactly this inode, none for null |
| Vfs.FileSystem.InodeRelease | nuttx_avr32dev1/fs/fs_inoderelease.c:77-105 | one reference less; the last one to a removed inode frees exactly it and its child subtree; no inode still referenced is lost as long as none hangs below a removed one |
| Files.TableWritten | nuttx_avr32dev1/fs/fs_files.c:323-326 | writing one slot changes the descriptor count of the inodes involved by one and of no other |
| Files.Descriptors.FilesAlloclist | nuttx_avr32dev1/fs/fs_files.c:157-172 | a new list of free slots with one reference, and all counts still right |
| Files.Descriptors.FilesAddreflist | nuttx_avr32dev1/fs/fs_files.c:180-197 | one more user of the list |
| Files.Descriptors.FilesReleaselist | nuttx_avr32dev1/fs/fs_files.c:206-250 | the last user closes every slot and the list is gone; all counts stay right |
| Files.Descriptors.CloseSlot | nuttx_avr32dev1/fs/fs_files.c:105-134 | an open slot is released and cleared whatever the driver says, a removed inode being freed with its last descriptor; a free slot is left |
| Files.Descriptors.FilesAllocate | nuttx_avr32dev1/fs/fs_files.c:369-392 | the least free slot from minfd on takes the reference over; it fails exactly when all of them are taken, with nothing changed |
| Files.Descriptors.FilesClose | nuttx_avr32dev1/fs/fs_files.c:404-430 | which error is reported exactly when, and the slot cleared otherwise even if the driver fails |
| Files.Descriptors.FilesRelease | nuttx_avr32dev1/fs/fs_files.c:440-456 | the slot is cleared and its reference is in hand again |
| Files.Descriptors.FilesDup | nuttx_avr32dev1/fs/fs_files.c:259-358 | on success the second slot is a copy of the first; after a failed close or open it is left closed; the checks change nothing, and each answer is given exactly when due; counts stay right in every case, between two lists too |
| Files.Descriptors.Open | nuttx_avr32dev1/fs/fs_open.c:76-189 | a descriptor in the least free slot, or the first failing check reported and every slot and every reference count as before; each answer exactly when due, in terms of the access bits of the flags and the methods the driver has: no descriptor is handed out for an access it does not offer |
| Files.Descriptors.FileDup | nuttx_avr32dev1/fs/fs_filedup.c:77-116 | a copy in the least free slot from minfd on, or the error with nothing changed |
| Files.Descriptors.FileDup2 | nuttx_avr32dev1/fs/fs_filedup2.c:76-117 | the same descriptor twice is returned; bad descriptors and mountpoints are refused with nothing changed; otherwise the second descriptor becomes a copy, or is left closed when a driver fails, and success returns 0; each answer exactly when due |
| Files.Descriptors.Reserve | nuttx_avr32dev1/fs/fs_inodereserve.c:147-209 | adding inodes leaves every descriptor and count right; exactly the path and its missing ancestors lead to new inodes, every other path where it led |
| Files.Descriptors.Remove | nuttx_avr32dev1/fs/fs_inoderemove.c:108-155 | a removal keeps all descriptors sound if and only if none of them holds an inode below the one removed; the paths through it lead nowhere, the others where they led |
| Files.RemoveAboveOpen | nuttx_avr32dev1/fs/fs_inoderemove.c:108-155 | that happens: in a new table, with "/a/b" reserved and open, the removal of "/a" succeeds and leaves the descriptors unsound |
| Files.Descriptors.RemoveAndRelease | nuttx_avr32dev1/fs/fs_inoderelease.c:77-105 | then the last release of the removed inode frees one that a descriptor still holds |
| Crc32.TableIsEightSteps | nuttx_avr32dev1/lib/lib_crc32.c:54-88 | every one of the 256 table entries is eight shift and xor steps of its index with the generator polynomial |
| Crc32.WordStep | nuttx_avr32dev1/lib/lib_crc32.c:21-39 | one such step on a word is one step of the bit register |
| Crc32.Generator | nuttx_avr32dev1/lib/lib_crc32.c:13-20 | bit i of the polynomial is set exactly when x^(31-i) is a term of the generator of IEEE 802.3 |
| Crc32.LowBitFirst | nuttx_avr32dev1/lib/lib_crc32.c:22-34 | the bits of a message are those of its bytes in order, each from its low bit on |
| Crc32.PassIsEightShifts | nuttx_avr32dev1/lib/lib_crc32.c:107-107 | one pass of the table loop is eight steps of the register fed with the bits of the byte |
| Crc32.Crc32Part | nuttx_avr32dev1/lib/lib_crc32.c:101-110 | for every message and start value the table-driven loop ends with the contents of the bit-serial register |
| Crc32.Crc32 | nuttx_avr32dev1/lib/lib_crc32.c:120-123 | the same from start value 0 |
| Crc32.CrcUnique | nuttx_avr32dev1/lib/lib_crc32.c:101-110 | that determines the result |
| Crc32.CrcInParts | nuttx_avr32dev1/lib/lib_crc32.c:93-110 | the CRC of a concatenation is the CRC of the second part started from that of the first |
| Crc32.CrcStartInjective | nuttx_avr32dev1/lib/lib_crc32.c:101-110 | the start value can be recovered from message and CRC |
| Crc32.BitBurstDetected | nuttx_avr32dev1/lib/lib_crc32.c:101-110 | two messages that differ only within 32 consecutive bits, wherever they begin, have different CRCs |
| Crc32.ByteBurstDetected | nuttx_avr32dev1/lib/lib_crc32.c:101-110 | in particular messages that differ only within four consecutive bytes |
| CrcRegister.RunLinear | nuttx_avr32dev1/lib/lib_crc32.c:21-39 | the register is linear in its contents and the message together |
| CrcRegister.RunAppend | nuttx_avr32dev1/lib/lib_crc32.c:101-110 | feeding a concatenation is feeding its parts |
| CrcRegister.BurstLeavesDifference | nuttx_avr32dev1/lib/lib_crc32.c:21-39 | a burst no longer than the register leaves a difference that nothing fed afterwards removes |
| CrcRegister.BurstDetected | nuttx_avr32dev1/lib/lib_crc32.c:21-39 | for every polynomial with a constant term, bursts no longer than the register are detected |
| CrcRegister.Absorb | nuttx_avr32dev1/lib/lib_crc32.c:101-110 | message bits may be added to the register all at once before shifting |
| CanTransmit.RingPush | nuttx_avr32dev1/drivers/can.c:466-473 | a message stored at the tail of the ring is appended to the queue |
| CanTransmit.RingPop | nuttx_avr32dev1/drivers/can.c:745-750 | advancing the head takes the first message off the queue |
| CanTransmit.RingLength | nuttx_avr32dev1/drivers/can.c:396-417 | the ring is empty exactly when head meets tail and full exactly when the next tail meets head, one slot staying unused |
| CanTransmit.CanDevice.CanXmit | nuttx_avr32dev1/drivers/can.c:352-371 | from a state in which nothing is being sent: the head is being sent and the interrupt enabled, or the FIFO is empty and it is off |
| CanTransmit.CanDevice.CanTxdone | nuttx_avr32dev1/drivers/can.c:737-763 | one message is finished, the next is sent, a sleeper is woken; nothing for an empty FIFO |
| CanTransmit.CanDevice.CanWrite | nuttx_avr32dev1/drivers/can.c:377-495 | messages enter in order, as many as fit; if not all do, a blocking call goes to sleep on a full FIFO with no wakeup left over, and a non-blocking one returns; it leaves a FIFO of which nothing is being sent if and only if it found it empty and was given at least as many messages as it has slots; a call that finds it so sends nothing and leaves it so |
| CanTransmit.CanDevice.Wake | nuttx_avr32dev1/drivers/can.c:437-495 | a woken call goes on where it was, puts in as many messages as fit, and ends complete, or asleep again exactly when not all do; it does not start a stopped transmission either |
| CanTransmit.CanDevice.Complete | nuttx_avr32dev1/drivers/can.c:377-495 | a sleeping call always gets to its end, in whatever order sends finish and wakeups are acted upon: no wakeup is lost |
| CanTransmit.CanDevice.Drain | nuttx_avr32dev1/drivers/can.c:737-763 | once the FIFO is empty everything written has been sent, once and in order, and the interrupt is off |
| Calendar.CountsDays | nuttx_avr32dev1/lib/lib_calendar2utc.c:88-108 | from March of the year -4800 on, and of -5001 for the Julian one, both closed formulas are the count of days, year by year and month by month |
| Calendar.OnlyIntoMarch | nuttx_avr32dev1/lib/lib_calendar2utc.c:88-108 | in every year whatever, each step from a day to the next but that into March adds one |
| Calendar.RightExactly | nuttx_avr32dev1/lib/lib_calendar2utc.c:88-108 | a formula adds one for every step from some day on if and only if that day is not before 1 March -4800, or 1 March -5001 for the Julian one |
| Calendar.MonthStart | nuttx_avr32dev1/lib/lib_daysbeforemonth.c:92-100 | within a year month starts agree with clock_daysbeforemonth |
| Calendar.YearStart | nuttx_avr32dev1/lib/lib_calendar2utc.c:88-108 | from New Year to New Year the numbers differ by the length of the year, leap rules included |
| Calendar.NextDay | nuttx_avr32dev1/lib/lib_calendar2utc.c:88-183 | the next civil day has the next number, from 1 March -5001 on, through months, leap years, centuries and the change of calendar |
| Calendar.Monotone | nuttx_avr32dev1/lib/lib_calendar2utc.c:88-183 | earlier dates have smaller numbers, in the mixed calendar too |
| Calendar.EveryNumber | nuttx_avr32dev1/lib/lib_calendar2utc.c:88-183 | every number from that of 1 March -5001 on belongs to a date |
| Calendar.Epoch | nuttx_avr32dev1/lib/lib_calendar2utc.c:145-183 | 1 January 1970 is day 0, and 15 October 1582 follows 4 October |
| Calendar.Cycles | nuttx_avr32dev1/lib/lib_calendar2utc.c:88-108 | 400 years of the one formula have 97 leap days, 4 years of the other have one |
| Calendar.KnownDates | nuttx_avr32dev1/lib/lib_calendar2utc.c:145-183 | the numbers of some known dates, in centuries that begin with a leap year and in others, and of the first of every month |
| Calendar.TooEarly | nuttx_avr32dev1/lib/lib_calendar2utc.c:88-108 | the last wrong step of each formula, at the end of February of those years |
| Calendar.ClockCalendar2utc | nuttx_avr32dev1/lib/lib_calendar2utc.c:127-189 | any integer month is brought into 1..12 with 12 * year + month unchanged, and the date numbered in the calendar in use |
| StreamLock.StepInv | nuttx_avr32dev1/lib/lib_filesem.c:84-144 | every single read or write of every thread keeps the invariant |
| StreamLock.RunSafe | nuttx_avr32dev1/lib/lib_filesem.c:84-144 | in every state of every run of any number of threads: semaphore value plus owners is 1; a thread between two calls that has begun more takes than gives is inside, fs_holder is its number and fs_counts the difference; at most one thread is inside; reading its own number in fs_holder means being inside |
| StreamLock.CallsCounted | nuttx_avr32dev1/lib/lib_filesem.c:84-144 | the depth of a thread is the takes it has begun less the gives it has begun, counted from the calls alone |
| StreamLock.OthersOut | nuttx_avr32dev1/lib/lib_filesem.c:84-144 | while one thread owes a give every other thread that is between two calls has given as often as taken |
| StreamLock.NeverStuck | nuttx_avr32dev1/lib/lib_filesem.c:84-144 | the assertion in lib_give_semaphore never fails and a thread waits nowhere but at the semaphore |
| StreamLock.WaitsForOwner | nuttx_avr32dev1/lib/lib_filesem.c:100-110 | a thread waits in vain only while another one is inside |
| DqQueue.SplicedLinked | nuttx_avr32dev1/lib/dq_addafter.c:59-74 | four pointer writes between two neighbours link the longer queue |
| DqQueue.BypassedLinked | nuttx_avr32dev1/lib/dq_rem.c:58-83 | pointers leading past an entry link the shorter queue |
| DqQueue.Queue.AddFirst | nuttx_avr32dev1/lib/dq_addfirst.c:58-73 | the entry comes first; links, head and tail stay exact; at most one other entry is written |
| DqQueue.Queue.AddLast | nuttx_avr32dev1/lib/dq_addlast.c:58-73 | the entry comes last |
| DqQueue.Queue.AddAfter | nuttx_avr32dev1/lib/dq_addafter.c:59-74 | the entry comes right after the given one, or first into an empty queue |
| DqQueue.Queue.AddBefore | nuttx_avr32dev1/lib/dq_addbefore.c:54-69 | the entry comes right before the given one, or first into an empty queue |
| DqQueue.Queue.Rem | nuttx_avr32dev1/lib/dq_rem.c:58-83 | exactly this entry leaves and is unlinked; only its neighbours are written |
| DqQueue.Queue.RemFirst | nuttx_avr32dev1/lib/dq_remfirst.c:58-81 | the first entry leaves and is unlinked, null for an empty queue |
| DqQueue.Queue.RemLast | nuttx_avr32dev1/lib/dq_remlast.c:54-77 | the last entry leaves and is unlinked, null for an empty queue |

## Left out

- Bigints.Bigint: the digits are a sequence held in the number itself, as the C structure holds them, so two numbers never share digits; writes into one number through two pointers are not expressible.
- Pow5.Pow5Mult: the size classes end with the free lists, as for `Balloc`, which indexes their table unchecked; the requirement is that no later class is asked for.
- Compare.Diff: not for two zeros unless both are written with a digit: `cmp` reads in front of the digits of two such numbers, and the search for the top digit of the difference does so for one such number (lib_dtoa.c 543-549, 633-634).
- Multiply.Mult: the product of two numbers without digits keeps whatever first digit the recycled number had, as in the code, so it is a zero only as long as its digit count is looked at.
- Dtoa.Shortest: the sign, infinities, NaNs and zero are handled before; the estimate of the exponent in floating point (lib_dtoa.c 1007-1052) is a parameter that is right or, when it is going to be checked, one too large; doubles that are integers below 10^15 are printed in floating point instead (1231-1278).
- Dtoa.FixedLength: the same, and the attempt in floating point for few digits (1118-1229), which modes 6 and 7 do without. Modes 4, 5, 8 and 9, with margins of half a unit of the last digit, are covered from the scaled integers on only, by ShortestConversion.
- ShortestGen.Decide: `ROUND_BIASED` is not defined, and the parameter `even` stands for mode 0 with an even mantissa.
- Conversion.ShortestConversion: the shifted b and S may fill the largest size class, the margin must stay three digits below it, which for doubles is far off; the release of the numbers at the end and the reuse of one result buffer between calls are left out.
- b2d and ratio, which only serve strtod.
- Failure of malloc, everywhere.
- RwBuffers.RwBuffer.Read: modelled as intended where the code is not: it holds `wrsem` while calling rwb_wrflush, which takes it again (rwbuffer.c 518-521 and 161); the inner `startblock` is initialised from itself and used after it was advanced (537, 563); and remaining blocks are read from where the window ended.
- RwBuffers.RwBuffer.WrFlush: the callbacks get the same arguments everywhere and succeed; the code passes differing ones (rwbuffer.c 172, 255, 632).
- Media removal, initialisation and the byte layout of blocks in the read/write buffer; a block is an opaque value.
- InodeNames.InodeCompare: names are strings; the checks for null pointers are left out.
- Vfs.FileSystem.InodeSearch: `i_flags` is two booleans, mountpoint and deleted, and `i_crefs` is unbounded.
- Vfs.FileSystem.InodeInsert: a node is freed by leaving the ghost set of live inodes; the reuse of its memory is not modelled.
- Semaphores around the inode tree and the file lists: operations run one at a time, signals interrupting a wait only repeat it.
- Files.Descriptors.Open: what the driver offers and returns is a parameter; a driver that itself opens or closes files is not modelled.
- Files.Descriptors.FilesAllocate: minfd is not negative; the code indexes the table with it unchecked.
- Directory streams, mount and umount, sockets, and fcntl, which drops the descriptor it duplicates.
- CanTransmit.CanDevice.CanWrite: one writer at a time, whole messages, a send that succeeds; with several writers the next tail is computed before the wait. Receiving, remote requests, open counts and ioctl are left out.
- Calendar.NextDay: integers are unbounded; overflow of int for years far away is not modelled.
- StreamLock.StepInv: taking and giving are steps of a state machine rather than methods, because what is proved is about their interleavings.
- StreamLock.RunSafe: thread numbers are not reused and sem_wait either succeeds or repeats.
- DqQueue.Queue.AddAfter: the position of the given entry is a ghost argument; adding after an entry of another queue is not allowed, as in the source it would corrupt both.
- lib_fixedmath, getopt, symbol tables, paths, byte order and the other device drivers.
