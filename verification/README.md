# Exactness of the utility layer

Dafny models of the self-contained algorithms under `src/util` of the repository, with proofs that the fast or
in-place form of each agrees with a simple one. `dafny verify dfyconfig.toml` checks everything.

| files | what they model |
|---|---|
| `Bigits`, `Comba`, `Bignum` | the base-2^28 integer with an implicit exponent: a class over an array of 128 bigits whose methods equal integer operations on its value |
| `ShortestDigits`, `BignumDtoa`, `RealPowers`, `ShortestDouble` | shortest decimal printing, from the digit loop on integers up to the statement about the real value of a double |
| `CountedDtoa` | exact printing with a requested number of digits or places |
| `Grisu`, `Acceptance`, `FastDtoa`, `FastDouble` | the 64-bit digit generators that answer right or refuse, when they do which, and what that means for a double |
| `Strtod` | the exact comparison of a decimal string with a binary number |
| `DigitRounding`, `UInt128`, `FixedDtoa`, `FastFixedDtoa` | fixed-point printing in 64 and 128 bits |
| `Bits`, `ProbingMod`, `ProbingTable`, `ProbingHashTable`, `AutoProbing` | linear probing with doubling in place, as a finite map |
| `Ordering`, `Offsets`, `MergeQueue`, `MergingReader`, `Sort` | external merge sort |
| `PCQueue`, `ThreadPool`, `Chain` | the queue, the pool and the ring of workers as state machines over single steps of any number of threads |
| `FilePiece` | buffered reading of lines and tokens |
| `BitPacking` | integers at arbitrary bit offsets |
| `TwosAndFives` | which numbers with few bits are powers of ten |
| `Powers`, `Decimal`, `Wrappers` | shared arithmetic, digit strings, optional results |

Conventions. Machine words are natural numbers with their bounds in contracts and assertions; where the source wraps
or truncates, that is written out with `%`. An exception or error return is a result. Shared numbers of the source that
are passed by reference are objects that must not overlap (`Apart`); the one aliasing the source itself introduces, one
delta object for both deltas in `GenerateShortestDigits`, is modelled. Parameters stand for what comes from outside:
the estimated power of ten, cached powers of ten, scaled sizes computed in floating point, page sizes, fresh memory contents, what one read
returns, which of several equal heap entries comes first, what the library sort does with equal records.

The queue of `PCQueue.dfy` is modelled with one transition per semaphore, mutex, pointer and assignment step and is
shown to refine a bounded first-in first-out queue; `ThreadPool.dfy` and `Chain.dfy` take steps of such queues.

Found on the way:

- The assertion in `DivideModuloIntBignum` that both lengths are equal after the first loop (bignum.cc:514) fails exactly
  for a longer dividend v and a divisor o of n bigits with P(n) - o <= v % o < P(n-1), as for 2^56 divided by 2^56 - 1
  (`Shorten`, `ShorteningCanOvershoot`). Quotient and remainder are right there too. The assertion on the divisor's top
  bigit (bignum.cc:507) is sufficient for the division and not necessary: 2^28 may be divided by 2^13
  (`TopBigitNotNeeded`).
- The strict comparison of `FixupMultiply10` for an odd significand would be wrong for a power of ten, with or without
  deltas; neither a double with an odd significand nor its upper boundary is one (`OddIsNoPowerOfTen`,
  `OddBoundaryIsNoPowerOfTen`).
- The closest decimal of its last place that reads back is the closest of all whenever both boundaries are equally far,
  and otherwise exactly when the nearest multiple of that place reads back (`ClosestExactly`); for 2^-44 it does not
  (`CloserOutside`).
- The assertion in `BiggestPowerTen` shifts a 32-bit one by 32 or 33 for 31 and 32 bits; it says what it means for up to
  30 bits only (`AssertionShift`).
- `FillFractionals` shifts by -1, or in 128 bits by 64 and then by -1, exactly when the point has reached the left end
  (`ShiftsPastTheEnd`), as for 2251799813685248.5 to one place (`PrintShiftsPastTheEnd`, `HalfAfterManyDigits`); the
  shifted value is then zero, which is what `ShiftRight` and `ShiftLeft` allow.
- `FromMax` shifts by 64 for maxima from 2^63 on; with the count taken modulo 64 its mask keeps every value exactly for
  maxima below that (`FromMax`, `TopBitIsLost`).
- The shortest digit generator may refuse a decimal that is the only one in the safe interval, when the upper end is a
  decimal of the same place (`ClosestIsNotEnough`); `Decided` is the exact condition on its inputs.
- A thread pool without workers never handles its requests.
- Looking up the invalid key in the probing table reports it as found at an empty slot.
- The comment on `ReadLine` says that an unterminated last line may never be read; the code returns it.

## Model

| member | source | states |
|---|---|---|
| BignumModule.Bignum.constructor | src/util/double-conversion/bignum.cc:33-38 | a new number is zero, clamped, with every bigit zero |
| BignumModule.Bignum.Zero | src/util/double-conversion/bignum.cc:686-692 | value 0, all used bigits cleared |
| BignumModule.Bignum.Clamp | src/util/double-conversion/bignum.cc:670-678 | drops leading zero bigits; the value stays and the invariant (28-bit bigits, zeros above `used`, no leading zero) holds |
| BignumModule.Bignum.AssignUInt16 | src/util/double-conversion/bignum.cc:47-55 | the value is the operand |
| BignumModule.Bignum.AssignUInt64 | src/util/double-conversion/bignum.cc:58-72 | the value is the operand, although a bigit holds 28 bits |
| BignumModule.Bignum.AssignBignum | src/util/double-conversion/bignum.cc:75-85 | same value and shape as the other number; what was used beyond it is cleared |
| BignumModule.Bignum.ReadUInt64 | src/util/double-conversion/bignum.cc:88-98 | the number of up to 19 digits, below 2^64 |
| BignumModule.Bignum.AssignDecimalString | src/util/double-conversion/bignum.cc:101-119 | the value is the number the digit string stands for, although it is read in pieces of 19 digits |
| BignumModule.Bignum.AddUInt64 | src/util/double-conversion/bignum.cc:161-166 | adds exactly |
| BignumModule.Bignum.Align | src/util/double-conversion/bignum.cc:695-716 | lowers the hidden exponent to the other's, moving bigits up in place; value and length stay |
| BignumModule.Bignum.AddBignum | src/util/double-conversion/bignum.cc:169-208 | adds exactly in place, reading the zeros above `used`; length grows by at most one |
| BignumModule.Bignum.SubtractBignum | src/util/double-conversion/bignum.cc:211-235 | subtracts exactly in place, the borrow ends inside the number, the result is clamped |
| BignumModule.Bignum.BigitsShiftLeft | src/util/double-conversion/bignum.cc:719-732 | multiplies the bigits by 2^shift in place with a carry |
| BignumModule.Bignum.ShiftLeft | src/util/double-conversion/bignum.cc:238-244 | multiplies by 2^shift, whole bigits going into the exponent |
| BignumModule.Bignum.MultiplyByUInt32 | src/util/double-conversion/bignum.cc:247-270 | multiplies exactly; the 64-bit carry never overflows |
| BignumModule.Bignum.Times10 | src/util/double-conversion/bignum.h:63 | multiplies by ten |
| BignumModule.Bignum.MultiplyByUInt64 | src/util/double-conversion/bignum.cc:273-297 | multiplies exactly with the carry split over two halves of the factor |
| BignumModule.Bignum.MultiplyByPowerOfTen | src/util/double-conversion/bignum.cc:300-337 | multiplies by 10^e through powers of five of three widths and one shift |
| BignumModule.Bignum.SquareLow | src/util/double-conversion/bignum.cc:367-382 | first half of the in-place Comba square: columns that only read the shifted copy |
| BignumModule.Bignum.SquareHigh | src/util/double-conversion/bignum.cc:383-402 | second half: each column is complete before the copy's bigit is overwritten |
| BignumModule.Bignum.Square | src/util/double-conversion/bignum.cc:340-409 | the value becomes exactly its square, in place |
| BignumModule.Bignum.AssignPowerUInt16 | src/util/double-conversion/bignum.cc:412-482 | the value is exactly base^e through the 64-bit phase, at most one delayed multiplication and the bignum phase |
| BignumModule.Bignum.SubtractTimes | src/util/double-conversion/bignum.cc:735-761 | subtracts factor times the other number exactly; for factors from 3 on at most one bigit may lie above the other's top, which is what its double increment needs |
| BignumModule.Bignum.Shorten | src/util/double-conversion/bignum.cc:503-514 | the first division loop: terminates, and takes off exactly `result` times the divisor; it leaves less than the divisor's length, so that the assertion after it fails, if and only if the dividend was longer and its remainder v mod o lies between P(n) - o and P(n-1), n being the length of o |
| BignumModule.Bignum.DivideModuloIntBignum | src/util/double-conversion/bignum.cc:486-546 | returns the exact quotient and leaves the exact remainder, for every quotient below 2^16, whatever the divisor's top bigit |
| BignumModule.Bignum.ShorteningCanOvershoot | src/util/double-conversion/bignum.cc:503-514 | 2^56 divided by 2^56 - 1 meets the condition: the dividend is longer and the loop leaves one bigit against two |
| BignumModule.Bignum.TopBigitNotNeeded | src/util/double-conversion/bignum.cc:507 | 2^28 divided by 2^13: a longer dividend and a quotient below 2^16, with a divisor whose top bigit is below the asserted bound |
| BignumModule.Bignum.Compare | src/util/double-conversion/bignum.cc:615-630 | the sign of the difference of the values |
| BignumModule.Bignum.PlusCompare | src/util/double-conversion/bignum.cc:633-667 | the sign of a + b - c, although it scans from the top keeping a borrow of 0 or 1 and leaves early |
| BignumDtoa.PrepareNextDigit | src/util/double-conversion/bignum-dtoa.cc:223-231 | numerator and both deltas times ten, also when both deltas are one object |
| BignumDtoa.RoundLast | src/util/double-conversion/bignum-dtoa.cc:232-272 | the last digit is the rounded one, and never goes above nine |
| BignumDtoa.GenerateShortestDigits | src/util/double-conversion/bignum-dtoa.cc:185-274 | terminates with digits inside the boundary interval (closed if even, else open), no shorter decimal lies inside, they are the nearest of their length inside with ties to an even last digit |
| BignumDtoa.InitialScaledStartValuesPositiveExponent | src/util/double-conversion/bignum-dtoa.cc:416-445 | numerator, denominator and deltas are v, 1 and the gaps, scaled by one common factor |
| BignumDtoa.InitialScaledStartValuesNegativeExponentPositivePower | src/util/double-conversion/bignum-dtoa.cc:449-479 | the same for a negative exponent and an estimated power that is not negative |
| BignumDtoa.InitialScaledStartValuesNegativeExponentNegativePower | src/util/double-conversion/bignum-dtoa.cc:483-526 | the same for a negative exponent and a negative estimated power, the power being built in the numerator |
| BignumDtoa.InitialScaledStartValues | src/util/double-conversion/bignum-dtoa.cc:567-597 | the same over all three cases and the closer lower boundary |
| BignumDtoa.FixupMultiply10 | src/util/double-conversion/bignum-dtoa.cc:611-638 | the decimal point goes up by one exactly when v plus its upper gap reaches the denominator (or exceeds it, if odd), else all three numbers are multiplied by ten |
| ShortestDigits.NoRoomMeansNone | src/util/double-conversion/bignum-dtoa.cc:206-231 | when neither test succeeds no decimal ending at this place is inside the interval |
| ShortestDigits.RoundedIsNearest | src/util/double-conversion/bignum-dtoa.cc:232-272 | whichever way the tests go, the rounded decimal is the nearest of its length inside the interval |
| ShortestDigits.NineStays | src/util/double-conversion/bignum-dtoa.cc:238-243 | a nine is never rounded up |
| ShortestDouble.FinishedMeansShortest | src/util/double-conversion/bignum-dtoa.cc:89-168 | what the digit loop guarantees about its integers is, about the real number v: the decimal reads back as v, none ending further left does, it is the closest |
| ShortestDouble.PrintShortest | src/util/double-conversion/bignum-dtoa.cc:89-155 | start values, fix-up and digit loop together print at most 17 digits (9 in single precision), the point where the upper boundary has it, that read back as v, are shortest and closest, without a leading zero; with equally far boundaries the closest of all decimals of that last place |
| ShortestDouble.BignumDtoaShortest | src/util/double-conversion/bignum-dtoa.cc:89-169 | both shortest modes for every double and every single with a usable power estimate, into a buffer of one character more than 17 (or 9) digits, starting from fresh numbers and ending with the terminator |
| ShortestDouble.OddBoundaryIsNoPowerOfTen | src/util/double-conversion/bignum-dtoa.cc:615-620 | the upper boundary of a number with an odd significand is never a power of ten, so that numerator plus delta stays strictly below ten denominators although the comparison is strict |
| ShortestDouble.PowerOfTenExactly | src/util/double-conversion/bignum-dtoa.cc:615-623 | an odd number times 2^a is 10^p if and only if p is not negative, a is p, and it is 5^p |
| ShortestDouble.EnoughRoom | src/util/double-conversion/double-conversion.h:292-295 | once the last place is below the sum of the gaps there are enough digits, and that is after 17 of a double, 9 in single precision |
| ShortestDouble.EstimateInRange | src/util/double-conversion/bignum-dtoa.cc:133-137 | a usable power estimate keeps every number within the bigits there are |
| ShortestDouble.ClosestExactly | src/util/double-conversion/fast-dtoa.cc:515-517 | the closest decimal that reads back is the closest of all if the boundaries are equally far, and otherwise if and only if the nearest multiple of its last place reads back, which v and the place decide |
| ShortestDouble.NearestPlaceIsClosest | src/util/double-conversion/fast-dtoa.cc:515-517 | the multiple of 10^t nearest to v, the even one of two, is the closest of all decimals of that place |
| ShortestDouble.CloserOutside | src/util/double-conversion/fast-dtoa.cc:515-517 | 2^-44 with its closer lower boundary: 5.684341886080802e-14 is what reads back and is printed, 5.684341886080801e-14 is nearer and does not read back |
| CountedDtoa.GenerateCountedDigits | src/util/double-conversion/bignum-dtoa.cc:283-317 | exactly count digits of the quotient, rounded half up, the first not zero if the quotient is at least one; a carry through nines past the first digit, and only that, moves the point |
| DigitRounding.PropagateCarry | src/util/double-conversion/bignum-dtoa.cc:304-315 | the carry loop keeps the number; it overflows exactly when the carry reaches the first digit of all nines |
| CountedDtoa.BignumToFixed | src/util/double-conversion/bignum-dtoa.cc:325-366 | the quotient rounded half up to the requested places after the point, also where all or all but the rounding lies below them |
| CountedDtoa.RoundedMeans | src/util/double-conversion/bignum-dtoa.cc:276-282 | a quotient rounded half up is, about the real number v, v rounded to a multiple of a power of ten |
| CountedDtoa.OddIsNoPowerOfTen | src/util/double-conversion/bignum-dtoa.cc:615-623 | no double with an odd significand is a power of ten, so that the strict comparison is right without deltas too |
| CountedDtoa.StartCounted | src/util/double-conversion/bignum-dtoa.cc:133-145 | start values and fix-up without deltas: the point after the first digit, numerator at least the denominator and below ten of them |
| CountedDtoa.Print | src/util/double-conversion/bignum-dtoa.cc:89-169 | fixed and precision mode for every double and estimate of its power: the decimal printed is v rounded half up to the requested place and a multiple of it, with no leading zero and ending at that place or, after a carry, one above; in precision mode it has the requested number of digits; the buffer holds what v's own point asks for |
| Strtod.CompareBufferWithDiyFp | src/util/double-conversion/strtod.cc:392-418 | the exact sign of buffer * 10^exponent - f * 2^e |
| FastDtoa.BiggestPowerTen | src/util/double-conversion/fast-dtoa.cc:240-259 | the largest power of ten that is at most the number, with its exponent plus one; zero gives zero |
| FastDtoa.AssertionShift | src/util/double-conversion/fast-dtoa.cc:244 | for a number of at least two, below what BiggestPowerTen admits, the assertion holds if and only if it has at most 30 bits, its 32-bit shift being taken modulo 32 |
| FastDtoa.RoundWeed | src/util/double-conversion/fast-dtoa.cc:61-166 | decrements as long as that brings the digit closer; accepts if and only if no other decrement might be right and the result is clear of both ends; no 64-bit step wraps and the digit stays a digit |
| Grisu.AcceptedIsShortest | src/util/double-conversion/fast-dtoa.cc:61-166 | the conditions on integers under which RoundWeed accepts imply the property for all true boundaries and values within one unit |
| FastDtoa.DigitGen | src/util/double-conversion/fast-dtoa.cc:303-397 | accepts if and only if some decimal is clear: nothing with a higher place is near the interval, it keeps three units from low and one from high, and the midpoints to its neighbours near the interval keep one unit from w. Then, for all true low, w, high within one unit, the decimal lies strictly between the boundaries, no multiple of a higher power of ten does, and it is the closest of its place to w among those inside; its first digit is not zero if the upper end has a digit before the point; no 64-bit step leaves its word |
| Acceptance.WeedingFinds | src/util/double-conversion/fast-dtoa.cc:134-165 | of all decimals of that place only the one where the decrementing ends can be clear |
| Acceptance.OnlyThere | src/util/double-conversion/fast-dtoa.cc:352-370 | no decimal of another place than the one where the generator stops is clear: higher ones have none near, and lower ones have the digits so far |
| Acceptance.TestDecides | src/util/double-conversion/fast-dtoa.cc:134-165 | where the generator stops, its last test holds if and only if any decimal is clear, and then the one found is |
| FastDtoa.FiveIsDecided | src/util/double-conversion/fast-dtoa.cc:303-397 | 5 with boundaries a quarter away is accepted |
| FastDtoa.ClosestIsNotEnough | src/util/double-conversion/fast-dtoa.cc:134-165 | inputs for which a decimal is the closest strictly inside the safe interval for all values in question, and the generator refuses: the upper end is itself a decimal, nearer to w, which it does not leave |
| FastDtoa.RoundWeedCounted | src/util/double-conversion/fast-dtoa.cc:181-223 | accepts if and only if what was cut off, with the error of one unit, stays on one side of half a last place; then the error is below half of it, an all-nines carry bumping kappa; refusing changes nothing |
| Acceptance.RoundingTests | src/util/double-conversion/fast-dtoa.cc:181-223 | the integer test of the rounding holds if and only if the cut number rounds clearly, whatever way it is scaled |
| Acceptance.RestShrinks | src/util/double-conversion/fast-dtoa.cc:490-501 | what is cut off gets less with every digit, so that a rest within the error stays so |
| FastDtoa.DigitGenCounted | src/util/double-conversion/fast-dtoa.cc:429-504 | accepts if and only if what is cut off at the place of the last requested digit, with its error, stays on one side of half that place, and, after the point, what is left before the last digit is more than the error; then there are exactly the requested number of digits, less than half a last place from every true value within one unit, without a leading zero if w has a digit before the point |
| FastDouble.Times | src/util/double-conversion/diy-fp.cc:34-55 | the upper 64 bits of the product, rounded, from four 32-bit halves; no partial sum leaves 64 bits |
| FastDouble.Normalize | src/util/double-conversion/diy-fp.h:77-95 | shifted until the top bit is set, same value |
| FastDouble.AsNormalizedDiyFp | src/util/double-conversion/ieee.h:66-79 | the double with its significand filling 64 bits, denormals included |
| FastDouble.NormalizedBoundaries | src/util/double-conversion/ieee.h:171-185 | both boundaries with the exponent of the normalized double: half the distance to the neighbour above, and half or a quarter of it below |
| FastDouble.TimesNear | src/util/double-conversion/fast-dtoa.cc:554-560 | half a unit of error in the cached power and half a unit from rounding the product leave less than one unit |
| FastDouble.SameForm | src/util/double-conversion/fast-dtoa.cc:531-538 | a number has one normalized form, so that the boundaries of its single precision have the exponent of the double |
| FastDouble.AcceptedForDouble | src/util/double-conversion/fast-dtoa.cc:507-517 | an accepted result of the digit generator, in terms of the number: strictly between its boundaries, nothing ending further left reads back, closer than any other of its last place that does |
| FastDouble.Grisu3 | src/util/double-conversion/fast-dtoa.cc:518-582 | for every double, with its own boundaries or those it has in single precision, and every cached power in range: returns true if and only if some decimal is clear of the scaled boundaries and midpoints; then at most 17 digits, 9 in single precision, the first not zero, that lie strictly between the boundaries, nothing ending further left reads back, and no other decimal of that last place that reads back is as close, with equally far boundaries none at all |
| FastDouble.Grisu3Counted | src/util/double-conversion/fast-dtoa.cc:590-631 | returns true if and only if the scaled number rounds clearly to the requested digits and has more left before the last than its error; then the requested number of digits, the first not zero, less than half a last place away from the double |
| FastDouble.Print | src/util/double-conversion/fast-dtoa.cc:634-662 | the same conditions and results in all three modes with the decimal point and the terminator set, in a buffer of one character more than 17, 9, or the digits requested |
| UInt128Module.UInt128.Multiply | src/util/double-conversion/fixed-dtoa.cc:42-57 | exact product over 32-bit halves; no partial sum leaves 64 bits and the assertion holds |
| UInt128Module.UInt128.Shift | src/util/double-conversion/fixed-dtoa.cc:59-78 | right shift is division by 2^n, left shift is multiplication modulo 2^128 |
| UInt128Module.UInt128.DivModPowerOf2 | src/util/double-conversion/fixed-dtoa.cc:82-95 | returns the quotient by 2^power and keeps the remainder |
| UInt128Module.UInt128.BitAt | src/util/double-conversion/fixed-dtoa.cc:101-107 | the bit of the 128-bit value at the position |
| FixedDtoa.RoundUp | src/util/double-conversion/fixed-dtoa.cc:189-216 | adds one to the last place; an all-nines carry moves the point; nothing becomes 1 |
| DigitRounding.AddOne | src/util/double-conversion/fixed-dtoa.cc:199-215 | the carry through trailing nines adds exactly one; overflow exactly when all digits were nine |
| FixedDtoa.FiveTimesFits | src/util/double-conversion/fixed-dtoa.cc:243-253 | multiplying by five with a moving point never overflows the word, 64 or 128 bits wide |
| FixedDtoa.ExpansionRounds | src/util/double-conversion/fixed-dtoa.cc:260-263 | the digits plus the bit after the point are the fraction rounded half up; a zero remainder does not round |
| FixedDtoa.Fractionals64 | src/util/double-conversion/fixed-dtoa.cc:237-263 | the 64-bit loop yields the places and the rounding bit of fractionals * 2^exponent; the last shift count is negative exactly when ShiftsPastTheEnd says so |
| FixedDtoa.Fractionals128 | src/util/double-conversion/fixed-dtoa.cc:264-283 | the 128-bit loop does the same for exponents down to -128; the word is shifted by 64 exactly when ShiftsPastTheEnd says so |
| FixedDtoa.AllPlaces | src/util/double-conversion/fixed-dtoa.cc:237-263 | the point reaches the left end if and only if there are no bits after it, or the fraction is odd and that many places are asked for |
| FixedDtoa.HalfShiftsPastTheEnd | src/util/double-conversion/fixed-dtoa.cc:260 | one half to one place is such a case; to no place, and a half written with an even fraction, are not |
| FixedDtoa.FirstProductFits | src/util/double-conversion/fixed-dtoa.cc:264-275 | the first multiplication by five fits 128 bits if and only if the fraction is below a fifth |
| FixedDtoa.WideFractionOverflows | src/util/double-conversion/fixed-dtoa.cc:264-275 | 2^63 of 2^65 does not fit |
| FixedDtoa.FillFractionals | src/util/double-conversion/fixed-dtoa.cc:230-284 | old digits plus fraction, rounded half up to the requested places, with carries into the old digits and the point |
| FastFixedDtoa.FillDigits32FixedLength | src/util/double-conversion/fixed-dtoa.cc:120-127 | appends the number in exactly that many digits |
| FastFixedDtoa.FillDigits32 | src/util/double-conversion/fixed-dtoa.cc:130-150 | appends the number without leading zeros, nothing for zero, by writing it backwards and exchanging in place |
| FastFixedDtoa.FillDigits64FixedLength | src/util/double-conversion/fixed-dtoa.cc:153-165 | appends the number in 17 digits |
| FastFixedDtoa.FillDigits64 | src/util/double-conversion/fixed-dtoa.cc:168-186 | appends the number without leading zeros from three pieces |
| FastFixedDtoa.TrimZeros | src/util/double-conversion/fixed-dtoa.cc:289-304 | no zero at either end, same number, point moved along |
| FastFixedDtoa.LargeDigits | src/util/double-conversion/fixed-dtoa.cc:328-365 | up to 73 bits printed exactly through division by 5^17 * 2^17 in 64 bits |
| FastFixedDtoa.Print | src/util/double-conversion/fixed-dtoa.cc:307-400 | declines exactly for an exponent or count above 20, touching nothing; else the digits and point show significand * 2^exponent rounded half up to the requested places, in a buffer with room for the digits before the point, the places and the terminator |
| FastFixedDtoa.PrintShiftsPastTheEnd | src/util/double-conversion/fixed-dtoa.cc:260 | printing a double shifts by -1 if and only if its significand is odd and has no more bits after the point than places asked for |
| FastFixedDtoa.HalfAfterManyDigits | src/util/double-conversion/fixed-dtoa.cc:260 | 2251799813685248.5 to one place is such a double |
| ProbingMod.Mod.IdealIsRemainder | src/util/probing_hash_table.hh:37-39 | masking agrees with the remainder for both moduli |
| ProbingMod.Mod.NextIsCyclic | src/util/probing_hash_table.hh:76-78 | the masked step agrees with stepping and wrapping |
| ProbingMod.Mod.DoubleFits | src/util/probing_hash_table.hh:80-82 | doubling keeps the modulus right for twice the buckets |
| ProbingMod.MakePower2Accepts | src/util/probing_hash_table.hh:55-58 | the constructor throws exactly when the count is not a power of two |
| ProbingMod.RoundBuckets | src/util/probing_hash_table.hh:61-70 | the least power of two that is at least the argument; 0 for 0 and above 2^63, by wrap-around |
| ProbingTable.InsertKeepsProbed | src/util/probing_hash_table.hh:309-313 | storing in the first empty slot of the probe keeps every entry reachable |
| ProbingTable.MissMeansAbsent | src/util/probing_hash_table.hh:195-204 | an empty slot at the end of a probe proves the key is nowhere in the table |
| ProbingTable.RoomLeft | src/util/probing_hash_table.hh:146-152 | a table has an empty slot if and only if it stores fewer entries than it has slots |
| ProbingTable.NoWrapPast | src/util/probing_hash_table.hh:252-255 | once the first run is lifted out, no remaining entry sits before its first choice |
| ProbingTable.RehashSlot | src/util/probing_hash_table.hh:264-270 | the entry of slot i goes to i or below, or to n + i or below in the new half, never wrapping, and what was rehashed before stays right |
| ProbingTable.AllRehashed | src/util/probing_hash_table.hh:264-270 | after the last slot the probing invariant holds for twice the buckets |
| ProbingHashTables.ProbingHashTable.constructor | src/util/probing_hash_table.hh:119-132 | the table over given memory, usable at once if every slot is empty |
| ProbingHashTables.ProbingHashTable.Clear | src/util/probing_hash_table.hh:220-225 | empties every slot and establishes the invariant |
| ProbingHashTables.ProbingHashTable.UncheckedInsert | src/util/probing_hash_table.hh:309-313 | terminates when a slot is empty, and fills the first one of the probe |
| ProbingHashTables.ProbingHashTable.Insert | src/util/probing_hash_table.hh:146-152 | throws exactly when the count reaches the buckets, which it has then raised; else stores one entry more |
| ProbingHashTables.ProbingHashTable.FindOrInsert | src/util/probing_hash_table.hh:155-170 | found if and only if the key was stored (or is the invalid key); else stores the entry or throws |
| ProbingHashTables.ProbingHashTable.FindFromIdeal | src/util/probing_hash_table.hh:195-204 | found if and only if the key is stored (or is the invalid key) |
| ProbingHashTables.ProbingHashTable.Find | src/util/probing_hash_table.hh:206-209 | the same from the key's first choice |
| ProbingHashTables.ProbingHashTable.RollOver | src/util/probing_hash_table.hh:252-255 | lifts exactly the run before the first empty slot |
| ProbingHashTables.ProbingHashTable.RehashLower | src/util/probing_hash_table.hh:263-270 | the middle loop rehashes every slot and keeps the contents |
| ProbingHashTables.ProbingHashTable.Reinsert | src/util/probing_hash_table.hh:271-274 | puts the lifted entries back under the invariant |
| ProbingHashTables.ProbingHashTable.Double | src/util/probing_hash_table.hh:240-275 | doubling in place keeps the probing invariant for twice the buckets and exactly the same entries |
| AutoProbings.SameSize | src/util/probing_hash_table.hh:381-383 | a table that represents a finite map stores as many entries as the map has keys |
| AutoProbings.ThresholdGrows | src/util/probing_hash_table.hh:347 | the threshold is below the bucket count, and doubling raises it |
| AutoProbings.ThresholdIsLargest | src/util/probing_hash_table.hh:347 | the threshold is the largest count below the buckets that is at most 0.9 of them, that being the double nearest to 0.9 |
| AutoProbings.AutoProbing.constructor | src/util/probing_hash_table.hh:345-351 | starts as the empty map in the least power of two of buckets that is above the initial size and at least the scaled size |
| AutoProbings.AutoProbing.DoubleIfNeeded | src/util/probing_hash_table.hh:397-404 | below the threshold nothing changes, from there on the buckets double; afterwards the count is under the threshold; contents unchanged |
| AutoProbings.AutoProbing.Insert | src/util/probing_hash_table.hh:353-358 | stores the entry once more, also for a key that is there already; a key not bound is bound afterwards; all other slots stay as they are while the table is below its threshold, else the buckets double |
| AutoProbings.AutoProbing.FindOrInsert | src/util/probing_hash_table.hh:360-363 | found if and only if the key is stored, else stores the entry; as a map, binds it; all other slots stay as they are while the table is below its threshold, else the buckets double; the size exception cannot occur |
| AutoProbings.AutoProbing.Find | src/util/probing_hash_table.hh:373-375 | finds exactly the keys stored; in a map, at a slot with the bound value |
| AutoProbings.AutoProbing.Size | src/util/probing_hash_table.hh:381-383 | the number of keys bound |
| AutoProbings.AutoProbing.Clear | src/util/probing_hash_table.hh:385-387 | the empty map, in as many buckets as before |
| OffsetsLog.Offsets.Append | src/util/stream/sort.hh:55-65 | the size joins the sequence; zero leaves it |
| OffsetsLog.Offsets.FinishedAppending | src/util/stream/sort.hh:67-76 | the run-length coded log stands for the same sequence, ready to read |
| OffsetsLog.Offsets.NextSize | src/util/stream/sort.hh:86-99 | hands out the first remaining size and sums the offset |
| OffsetsLog.Offsets.Reset | src/util/stream/sort.hh:101-108 | the empty sequence again |
| OffsetsLog.LogRoundTrip | src/util/stream/sort.hh:55-99 | the log returns exactly the nonzero sizes appended, in order |
| MergeQueues.MergeQueue.Read | src/util/stream/sort.hh:175-190 | refills a buffer with the next records of the stripe and touches no other memory |
| MergeQueues.MergeQueue.Increment | src/util/stream/sort.hh:166-170 | the stripe without its first record, or the news that there is none left |
| MergeQueues.MergeQueue.Push | src/util/stream/sort.hh:130-132 | adds a stripe in a buffer disjoint from all others and inside the memory |
| MergeQueues.MergeQueue.Pop | src/util/stream/sort.hh:138-143 | takes exactly the top record; none of the remaining goes before it; buffers stay disjoint |
| MergingReaders.PerBufferBounds | src/util/stream/sort.hh:261-268 | the buffer size is the largest number of whole entries in the larger of the configured size and a fair share, not zero and at least the configured size |
| MergingReaders.FootprintBounds | src/util/stream/sort.hh:270-277 | the buffers of a group take at most a buffer for each stripe, and at most the stripes themselves |
| MergingReaders.GroupHasTwo | src/util/stream/sort.hh:270-282 | with memory for two buffers, a group closed early has at least two stripes |
| MergingReaders.GroupTakesAll | src/util/stream/sort.hh:270-286 | with room for all stripes the next one always fits, so one group takes all |
| MergingReaders.PopulateQueue | src/util/stream/sort.hh:270-277 | hands over a prefix of the remaining stripes, each in its own part of the memory, whose buffers take exactly what fits it, and stops only when the next does not fit |
| MergingReaders.MergeGroup | src/util/stream/sort.hh:288-298 | the merged records are sorted and the same as in the stripes |
| MergingReaders.RunGroup | src/util/stream/sort.hh:261-301 | neither abort is reached; as many stripes as the memory has buffers for, at least two unless only one was left, become one stripe of all their bytes |
| MergingReaders.ReadSingle | src/util/stream/sort.hh:305-319 | copies the stripe exactly in blocks of at most the block size |
| MergingReaders.Run | src/util/stream/sort.hh:238-302 | a pass merges the stripes in groups, each as large as the memory allows, into one sorted stripe each with as many bytes: the same records in at most half as many stripes, rounded up, in just one when asked for one, and logs their sizes; no abort |
| Sorting.ConfigureFits | src/util/stream/sort.hh:402-406 | the constructor accepts a configuration if and only if the buffer holds an entry and four times its whole entries fit the memory; the buffer is the largest multiple of the entry size that is not above the one asked for |
| Sorting.Sort.SortBlocks | src/util/stream/sort.hh:363-379 | the file is the blocks in order, each with its own records sorted, and the log has the size of each that is not empty |
| Sorting.Sort.OnePass | src/util/stream/sort.hh:440-461 | one pass from file to file: same records, in groups as large as the memory allows that two write buffers leave, or the size of the file if that is less; at most half as many stripes, rounded up |
| Sorting.Sort.MergePasses | src/util/stream/sort.hh:440-468 | the loop of passes terminates with few enough stripes, or a file that fits; each pass merges what the one before left and is made only while that is too much |
| Sorting.Sort.Merge | src/util/stream/sort.hh:416-473 | same records; the memory returned is the size of the file or a buffer for each stripe, whichever is less, at most what was given and enough for the lazy merge, 0 if at most one stripe is left; each pass merges what the one before left, in groups as large as the memory allows, and is made only while there are too many stripes and too many bytes |
| Sorting.Sort.Output | src/util/stream/sort.hh:477-483 | the lazy merge delivers a sorted permutation in one group; no abort |
| Sorting.Sort.StealCompleted | src/util/stream/sort.hh:518-524 | merging with no lazy memory leaves one sorted file of the same records |
| Sorting.BlockingSort | src/util/stream/sort.hh:540-546 | for all blocks, any accepted configuration and any lazy memory: a sorted permutation of the records; fails if and only if the entries are empty, larger than the buffer, or four buffers of whole entries exceed the memory |
| PCQueues.StepInv | src/util/pcqueue.hh:92-124 | every atomic step of every thread keeps mutual exclusion, the slot accounts, the pointers and the slots' contents |
| PCQueues.SlotIsRight | src/util/pcqueue.hh:92-124 | a producer about to assign never overwrites an unread value, a consumer about to read has the oldest unread one |
| PCQueues.RunDelivers | src/util/pcqueue.hh:92-124 | after any run the k-th value read is the k-th written, and semaphores plus operations in progress account for the capacity |
| PCQueues.TakeKeepsValue | src/util/pcqueue.hh:108-124 | the step that takes a value leaves its own thread with it, and with the number of reads before as its ticket; it is the value written at that place |
| PCQueues.CarriedStays | src/util/pcqueue.hh:108-124 | no step of any thread changes the value and ticket that a call carries, until its own last step returns them |
| PCQueues.CallsReturnEachOnce | src/util/pcqueue.hh:108-124 | on every run each ticket below the number of reads is returned by one call or carried by one, never twice, and no other is; what a call returns is the value written at its ticket |
| PCQueues.CallsStoreTheirValues | src/util/pcqueue.hh:92-106 | on every run the calls of a producing thread end in the order they were made, each with its own value stored or thrown, all but at most the last |
| PCQueues.WrittenIsStored | src/util/pcqueue.hh:92-106 | on every run what was written is what these calls stored, in order |
| PCQueues.StepRefines | src/util/pcqueue.hh:92-124 | each step is one step of a bounded first-in first-out queue, or none |
| PCQueues.Quiescent | src/util/pcqueue.hh:96-102 | with no call in progress, throwing ones included, the semaphores say exactly what is stored |
| PCQueues.StuckMeansFullOrEmpty | src/util/pcqueue.hh:92-124 | if no call can move on, all wait to produce into a full queue or all wait to consume from an empty one |
| ThreadPools.StepInv | src/util/thread_pool.hh:24-41 | every step keeps: requests ahead of poison, poison counted, every request in exactly one place |
| ThreadPools.NoDeadlock | src/util/thread_pool.hh:68-75 | with a worker and a queue of some capacity, a step is possible until the destructor is through |
| ThreadPools.StepsRunOut | src/util/thread_pool.hh:24-41 | every step lowers a bound on the steps left |
| ThreadPools.DestructionCompletes | src/util/thread_pool.hh:68-75 | no run is infinite, and none stops before the destructor is through |
| ThreadPools.EveryRequestHandledOnce | src/util/thread_pool.hh:68-75 | when the destructor is through, every request was handled exactly once if and only if the pool has a worker or there was no request |
| ThreadPools.OneWorkerInOrder | src/util/thread_pool.hh:24-41 | with one worker and one producer, on every run the requests handled are a prefix of the producer's list |
| ThreadPools.FinishedState | src/util/thread_pool.hh:24-41 | at the end every worker has taken one poison and returned, and the queue is empty |
| ThreadPools.NoWorkersCounterexample | src/util/thread_pool.hh:62-75 | a pool of no workers is destroyed with its request unhandled |
| Chains.StepInv | src/util/stream/chain.cc:112-160 | every step of every link keeps: workers pass on in order what they receive, channels lose nothing |
| Chains.TokensConserved | src/util/stream/chain.cc:84-101 | blocks and poison, in queues and in hand, are always as many as the blocks |
| Chains.SendNeverBlocks | src/util/stream/chain.cc:143-160 | whoever holds a block or poison finds room in the next queue |
| Chains.SeenInOrder | src/util/stream/chain.cc:143-153 | every worker has seen a prefix of what the first one sent, in its order |
| Chains.SourceGetsBlocks | src/util/stream/chain.cc:143-160 | no poison reaches the first worker before it has poisoned |
| Chains.NoDeadlock | src/util/stream/chain.cc:112-160 | until every worker has finished some worker can take a step |
| Chains.PoisonDrains | src/util/stream/chain.cc:125-160 | once the first worker has finished, every step lowers the number of steps left |
| Chains.RingCompletes | src/util/stream/chain.cc:65-82 | any run that stops has all workers finished; then the first queue holds all blocks but one and then poison, and every worker saw exactly what the first one sent |
| Chains.BlockSizeFits | src/util/stream/chain.cc:36-42 | there is a block size if and only if each block can have an entry; blocks are whole entries, fit the memory, and are as large as that allows |
| Chains.Chain.Start | src/util/stream/chain.cc:84-101 | all blocks enter the lead queue without blocking, each at its own address |
| Chains.Chain.Add | src/util/stream/chain.cc:48-53 | the next position takes the last queue in and a new queue out |
| Chains.Chain.Complete | src/util/stream/chain.cc:103-108 | the last position hands on to the first queue, which closes the ring; a second call throws |
| Chains.Chain.Wait | src/util/stream/chain.cc:65-82 | after any run of the workers until none can move on: reads the block count less one, then poison, and never aborts |
| Chains.BuildAndWait | src/util/stream/chain.cc:36-108 | building a chain of any number of positions, any run of its workers until none can move on, and waiting: all have finished, each saw exactly what the first one sent, the blocks come back without an abort |
| Chains.SomeRunStops | src/util/stream/chain.cc:112-160 | from every new ring some run gets to the end |
| FilePieces.Source.Read | src/util/read_compressed.cc:433-435 | some nonempty part of what is left, nothing only at the end |
| FilePieces.FilePiece.constructor | src/util/file_piece.cc:54-64 | an empty buffer of at least two pages in front of the whole stream |
| FilePieces.FilePiece.ReadShift | src/util/file_piece.cc:297-335 | reset, move-down or doubling lose nothing unread; the buffer doubles exactly when all of it is unread; the end is noted only when there is nothing left |
| FilePieces.FilePiece.Shift | src/util/file_piece.cc:227-241 | signals the end exactly when it was noted before |
| FilePieces.FilePiece.Consume | src/util/file_piece.hh:135-140 | hands out a prefix of the unread stream |
| FilePieces.FilePiece.ReadLine | src/util/file_piece.cc:68-92 | the next line of the stream whatever pieces the source returns: one carriage return stripped before the delimiter, an unterminated tail as it is, end only when nothing is unread; terminates |
| FilePieces.FilePiece.ReadLineOrEOF | src/util/file_piece.cc:94-99 | the same with the end as a result |
| FilePieces.FilePiece.ReadAllLines | src/util/file_piece.cc:68-99 | reading to the end yields exactly the lines of the stream, none with a delimiter in it; writing them back gives the stream with its last line terminated; with carriage returns stripped they are the texts of however the stream was written, with or without a carriage return before each delimiter |
| FilePieces.LinesHaveNoDelimiter | src/util/file_piece.cc:68-92 | no line contains the delimiter |
| FilePieces.LinesRoundTrip | src/util/file_piece.cc:68-92 | writing the lines back, each terminated, gives the stream with its last line terminated |
| FilePieces.SplitTerminated | src/util/file_piece.cc:68-92 | splitting terminated lines gives the lines |
| FilePieces.StrippedLines | src/util/file_piece.cc:74-78 | stripping takes at most one carriage return off each line and changes no line boundary |
| FilePieces.WrittenReadsBack | src/util/file_piece.cc:74-78 | a line written with a carriage return and the delimiter comes back without both, one written with the delimiter alone and not ending in a carriage return comes back as it is, and so does an unterminated tail, whatever it ends in |
| FilePieces.AsWritten | src/util/file_piece.cc:68-92 | every stream is the writing of some such lines and tail, so that these say what is read from any stream |
| FilePieces.FilePiece.Get | src/util/file_piece.hh:44-50 | the next character of the stream |
| FilePieces.FilePiece.SkipSpaces | src/util/file_piece.hh:109-120 | drops exactly the leading delimiters |
| FilePieces.FilePiece.FindDelimiterOrEOF | src/util/file_piece.cc:212-225 | the first delimiter of the unread stream, brought into the buffer |
| FilePieces.FilePiece.ReadDelimited | src/util/file_piece.hh:53-56 | the next maximal run without delimiters, its delimiter left unread |
| FilePieces.FilePiece.ReadWordSameLine | src/util/file_piece.hh:59-76 | the same unless the line or the stream ends first |
| BitPacking.ReadInt57 | src/util/bit_packing.hh:63-65 | exactly the bits of memory from the offset on |
| BitPacking.WriteInt57 | src/util/bit_packing.hh:69-80 | sets the value's bits at the offset and changes no other bit |
| BitPacking.ReadInt25 | src/util/bit_packing.hh:83-92 | the same through a 32-bit word |
| BitPacking.WriteInt25 | src/util/bit_packing.hh:94-105 | the same through a 32-bit word |
| BitPacking.HoldsOne | src/util/bit_packing.hh:63-65 | a field holds at most one value |
| BitPacking.WriteFields | src/util/bit_packing.hh:58-80 | fields that do not overlap, written in any order into zeroed memory, all hold their values |
| BitPacking.WriteFieldsAndRead | src/util/bit_packing.hh:58-80 | and read back as written |
| BitPacking.RequiredBits | src/util/bit_packing.cc:17-22 | the least number of bits that holds every number up to the maximum |
| BitPacking.FromMax | src/util/bit_packing.hh:168-171 | the mask keeps every number up to a 64-bit maximum if and only if the maximum is below 2^63; from there on 64 bits are needed and the shift by 64, taken modulo 64, leaves no mask |
| BitPacking.TopBitIsLost | src/util/bit_packing.hh:168-171 | 2^63 needs 64 bits and its mask keeps nothing of it |
| BitPacking.BitLengthIsLeast | src/util/bit_packing.cc:17-22 | the bit length is the only number of bits that x fits in but not in one less |
| BitPacking.PackByMaxima | src/util/bit_packing.hh:63-80 | values up to maxima below 2^57, in fields as long as RequiredBits says that do not overlap, all read back through the masks of FromMax |
| BitPacking.BitPackingSanity | src/util/bit_packing.cc:24-39 | the start-up check throws if and only if the sign bit of the float encodings is elsewhere; the eight touching 57-bit fields never throw |

## Left out

- InitialScaledStartValues: the power estimate comes in as a parameter with 10^(k-1) <= v and v plus its upper gap below 10^(k+1); `EstimatePower` computes it with floating-point `ceil`.
- FastDouble.Grisu3: the cached power comes in as a parameter, within half a unit of its last place of the power of ten and in the range the source asserts; the table of constants and the choice from it are not modelled.
- FastDouble.Print: in single precision the conversion from double to single is not modelled; the single comes in beside the double, with the same value.
- CountedDtoa.Print: where v has its point comes in as a ghost parameter with its two bounds, to say how much room the buffer needs.
- GenerateShortestDigits: the number of digits there is room for is a precondition, proved for doubles and singles, as is the capacity of 128 bigits that the source only checks at run time.
- FixedDtoa.FillFractionals: the fraction must be below 2^56 in both branches, which the source asserts in the first only; callers pass 53 bits, and without bits to spare the product by five need not fit (`FirstProductFits`, `WideFractionOverflows`).
- CountedDtoa.GenerateCountedDigits: the count is positive; the source asserts that it is not negative and then stores at count - 1. `BignumToFixed` calls it with a positive count only.
- AutoProbings.AutoProbing.Find: which of several entries with one key is found is not said.
- ProbingHashTable.Double: memory is counted in buckets and 2 * buckets in unbounded integers; a table of 2^63 buckets does not exist.
- Sorting.Sort.Merge: the product of stripes and buffer size is unbounded here, 64 bits in the source, whose comment argues that it does not overflow.
- MergingReaders.Run: records are never combined, the stream's blocks are one growing sequence, and a heap entry is chosen among the smallest without saying which.
- Sorting.Sort.SortBlocks: the library sort is any function that returns a sorted permutation.
- FilePieces.FilePiece.Shift: only the path that falls back to `read()`; memory mapping, progress reporting, the last-space pointer of number parsing and `Offset()` are not modelled.
- BitPacking.ReadInt57: little-endian byte order only.
- Chains.Chain.Wait: the workers' interleaving is a run given to it that ends where none can move on; what workers do to a block's contents is not modelled, nor workers other than the first that poison early.
- PCQueues.StepInv: capacity zero is not modelled; such a queue lets nobody produce.
- Hexadecimal strings and the reading of doubles around `CompareBufferWithDiyFp`.
- The choice between fast and exact printing in double-conversion.cc, and its formatting.
- `MustFind`, `UnsafeMutableFind`, `CheckConsistency` and custom key equality of the hash table.
- File descriptors, temporary files, memory mapping, decompression, huge pages.
- `RewindableStream`, combiners other than `NeverCombine`, `DefaultLazy`.
- Decoder, language models, phrase tables and device code.
