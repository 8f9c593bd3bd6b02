# Verified model of spdlog's exact arithmetic, asynchronous pipeline and text engines

This project models the parts of spdlog, and of the formatting library bundled with it, whose
correctness rests on arguments rather than on reading: exact conversion of numbers to text, the
asynchronous logging pipeline, the parser of format strings, UTF-8 coding, rotation of log files,
and compilation of log patterns. `dafny verify dfyconfig.toml` checks all of it.

Code that updates objects in place is modelled by classes and loops with the same branches; each
method is tied to a mathematical value or to a specification function, and what the library
promises is proved about those. Unsigned wrap-around is written out where the original relies on
unsigned types.

## What is proved

**Numbers to text.** `BigintModule` is the 32-bit-limb natural number with a limb exponent. Its
operations are exact, with two exceptions that are stated and not glossed over. The borrow loop at
the end of the subtraction stays on one limb, so the difference is exact unless a borrow has to pass
a zero limb; that cannot happen when the quotient fits 32 bits. Comparison counts extra low zero
limbs, so division misjudges a pair of equal values of which the first has the larger exponent.
`FallbackFormat` shows that neither happens on the numbers it is used with, and that the digits it
writes are the value rounded to nearest, ties to even, for every significand, exponent and number of
digits. `Grisu` shows that the fast generator ends, never wraps, and either gives a correct rounding
for every real number within its error or admits that it cannot, which it does exactly where the
error leaves the remainder in doubt. `CachedPowers` shows that all 87 entries of the table of powers
of ten are right to half a unit and for which binary exponents the lookup keeps to its window.
`FormatFloat` joins them: for every positive double what is printed is the value rounded to nearest at
the place asked for and with the number of digits asked for, whichever algorithm has produced it.
Three oddities of the code come out there. The exponent handed over would be wrong for a scaled number
one short of a power of ten if its error could reach a whole unit, and only then. A zero could come
first only where the value falls short of a power of ten that the scaled number just reaches. With a
precision of zero and no fixed point the exact algorithm rounds one place higher than the fast one, so
that the result depends on which of them runs. `DigitLimit` shows why no more than 767 digits are
generated: counted from the first digit no double has more; counted from the point some have, and then
the last digits asked for are missing exactly when what lies beyond is too large for them to be zeros.
`Products`, `Divisibility`, `DigitCount` and `Decimal` cover the word-level helpers around them.

**Asynchronous logging.** `CircularQueue` refines a bounded sequence, `QueueLaw` says what every
history of such a queue keeps, `BlockingQueue` gives the monitor sections, and `ThreadPool` is the
state machine of producers, workers, notifications after unlocking, spurious wakeups, timeouts and
the shutdown by terminate messages. Every run keeps the invariants, no wakeup is lost, the
destructor always has a step to make and is done after a number of steps that is known beforehand,
and when it has joined its workers everything that was handed in has been processed exactly once or
was overrun. A single worker handles messages in the order in which they were pushed. A pool without
capacity never shuts down, and that is proved as well.

**Texts.** `FormatParser` proves both loops of the format-string parser against one grammar, that
doubling braces is the only way to write a text and always works, and that the strings it accepts are
exactly the writings of layouts of texts and fields, each of which is read back as it was written; an
index beyond the largest int is read as the largest int. `Utf8` proves that the encoder takes exactly
UTF-16 writings and sequences of scalar values, that the decoder gives back what was encoded, and says
exactly which bytes the decoder accepts. `PatternFormatter` proves for every pattern what is written:
each is a layout of texts and flags with their padding, and each layout is shown as it means.

**Rotation.** `FileNames` and `RotatingFile` prove what the files are called, that names are distinct,
that the newest message is always in the file of the base name, and that the files always hold a suffix
of everything written. One expectation is false of the code: the constructor's own
rotation does not reset `current_size_`, so until the next rotation the sink believes file 0 to be
as large as the file it has just moved away. `OpenExact`, `LogExact` and `SessionExact` give the
exact conditions, `StaleSizeLosesFile` an input.

## Reading the model

- `Common`, `Powers`, `Limbs`, `LimbLemmas`, `ProductLoops`, `SubtractLoop`, `Convolution`, `PowerLoop`,
  `AddCompareLoop`, `DigitText` and `Totals` hold the types and the mathematics the other modules rest on.
- A waiting monitor section is modelled by a method that reports that it would wait; the waiting
  itself, who is woken and in which order threads run are the nondeterministic steps of `ThreadPool`.
- Format-string handlers, custom flags and the text of flags other than the message are parameters:
  the results hold for all of them.
- Files are a map from names to contents; renaming and writing succeed.

## Model

| member | source | states |
|---|---|---|
| `BigintModule.Accumulator.Add` | include/spdlog/fmt/bundled/format-inl.h:351-354 | adds a 64-bit word to the two-word sum with the carry passed on, modulo 2^128 |
| `BigintModule.Accumulator.ShiftRight32` | include/spdlog/fmt/bundled/format-inl.h:355-360 | divides the two-word sum by 2^32, rounding down |
| `BigintModule.Bigint.Assign` | include/spdlog/fmt/bundled/format-inl.h:448-456 | holds exactly n, without leading zero limbs, at exponent 0 |
| `BigintModule.Bigint.RemoveLeadingZeros` | include/spdlog/fmt/bundled/format-inl.h:386-390 | same value, no leading zero limb; zero keeps one limb and an empty number stays empty |
| `BigintModule.Bigint.Multiply32` | include/spdlog/fmt/bundled/format-inl.h:404-413 | value times a 32-bit factor, no intermediate overflow; a nonzero top limb is kept for a nonzero factor |
| `BigintModule.Bigint.Multiply64` | include/spdlog/fmt/bundled/format-inl.h:415-430 | value times a 64-bit factor, although the 64-bit carry itself is built from two half products |
| `ProductLoops.WideProduct` | include/spdlog/fmt/bundled/format-inl.h:421-425 | the half products and the carry of one turn never wrap and account for the whole product limb * factor + carry |
| `BigintModule.Bigint.ShiftLeft` | include/spdlog/fmt/bundled/format-inl.h:460-473 | value times 2^shift for every shift, whole limbs going into the exponent |
| `ProductLoops.ShiftLimb` | include/spdlog/fmt/bundled/format-inl.h:466-470 | the bits staying in a limb and the bits leaving it are the limb times 2^bits, and adding the carry does not overflow |
| `BigintModule.Bigint.Square` | include/spdlog/fmt/bundled/format-inl.h:541-568 | value squared and exponent doubled for every number, no leading zeros left |
| `BigintModule.AddLowTerms` | include/spdlog/fmt/bundled/format-inl.h:551-554 | adds exactly the cross products of a position in the bottom half to the accumulator |
| `BigintModule.AddHighTerms` | include/spdlog/fmt/bundled/format-inl.h:559-562 | the same for a position in the top half, whose first index starts above zero |
| `Convolution.ConvSumValue` | include/spdlog/fmt/bundled/format-inl.h:548-565 | the cross products at all positions, each at its place, add up to the product of the two numbers |
| `Convolution.ConvBound` | include/spdlog/fmt/bundled/format-inl.h:553-562 | the cross products of one position add up to at most as many full limb products as there are terms, so the accumulator does not overflow |
| `Convolution.SquareDone` | include/spdlog/fmt/bundled/format-inl.h:548-567 | after the last position no carry is left and the limbs are exactly the square |
| `BigintModule.Bigint.Align` | include/spdlog/fmt/bundled/format-inl.h:572-581 | same value, exponent lowered to the smaller of the two by zero limbs from below |
| `BigintModule.Bigint.SubtractBigits` | include/spdlog/fmt/bundled/format-inl.h:380-384 | stored limb and new borrow account for limb - other - borrow, through the unsigned 64-bit wrap |
| `BigintModule.Bigint.PropagateBorrow` | include/spdlog/fmt/bundled/format-inl.h:400 | the trailing borrow loop terminates and rewrites only the limb it starts on, as it never advances |
| `BigintModule.Bigint.SubtractAligned` | include/spdlog/fmt/bundled/format-inl.h:393-402 | difference of the values plus the stated excess, which is zero unless the borrow is lost; no leading zeros |
| `BigintModule.Bigint.SubtractLimbs` | include/spdlog/fmt/bundled/format-inl.h:397-399 | the limbs above the offset become the wrapped difference and the borrow says whether it wrapped |
| `SubtractLoop.OneExtraLimb` | include/spdlog/fmt/bundled/format-inl.h:398-401 | with at most one limb above the subtrahend no borrow is lost |
| `SubtractLoop.NoBorrowLost` | include/spdlog/fmt/bundled/format-inl.h:393-402 | so the subtraction is exact whenever the quotient of the operands is below 2^32 |
| `SubtractLoop.LostBorrowExample` | include/spdlog/fmt/bundled/format-inl.h:400 | a minuend two limbs longer than the subtrahend for which the loop gives a wrong difference |
| `BigintModule.Bigint.DivmodAssign` | include/spdlog/fmt/bundled/format-inl.h:585-596 | the quotient rounded down and the remainder of the values for quotients below 2^32, ending by the value as measure; the only misjudged operands are equal values of which this one has the larger exponent, and they give quotient 0 |
| `BigintModule.MisjudgedDivision` | include/spdlog/fmt/bundled/format-inl.h:585-590 | two representations of 2^32 on which the division is misjudged |
| `BigintModule.Compare` | include/spdlog/fmt/bundled/format-inl.h:481-495 | the sign of the difference of the limb positions when these differ, and then of the values if the longer number has a nonzero top limb; else the sign of the difference for different values, and for equal values the sign of the difference of the exponents |
| `BigintModule.CompareLimbs` | include/spdlog/fmt/bundled/format-inl.h:485-495 | for two numbers that reach the same position the sign of the difference, and for equal values that of the exponents, whatever their limbs are |
| `BigintModule.ZeroTakenForLarger` | include/spdlog/fmt/bundled/format-inl.h:483-484 | a zero that has been shifted by two limbs is taken for larger than one |
| `LimbLemmas.TopDifference` | include/spdlog/fmt/bundled/format-inl.h:489-492 | the first differing limb from the top decides the order of two numbers whatever their low limbs are |
| `LimbLemmas.LongerIsLarger` | include/spdlog/fmt/bundled/format-inl.h:483-484 | more limb positions mean a larger number when the top limb is not zero |
| `BigintModule.AddCompare` | include/spdlog/fmt/bundled/format-inl.h:498-519 | the exact sign of lhs1 + lhs2 - rhs for any exponents, although the loop stops as soon as the lead exceeds one |
| `AddCompareLoop.LeadStep` | include/spdlog/fmt/bundled/format-inl.h:509-517 | a lead of the third number that is negative or more than one at some limb settles the comparison whatever the lower limbs are, and it carries over to the next limb as the loop computes it |
| `LimbLemmas.FarSmaller` | include/spdlog/fmt/bundled/format-inl.h:502 | two summands ending more than one position below the third number cannot reach it |
| `BigintModule.Bigint.AssignPow10` | include/spdlog/fmt/bundled/format-inl.h:522-539 | exactly 10^power by walking the bits of the power, without overflow of the bit mask |
| `PowerLoop.NextBit` | include/spdlog/fmt/bundled/format-inl.h:526-537 | the bit tested by the mask is the remainder of the prefix of the power by two |
| `PowerLoop.FiveStep` | include/spdlog/fmt/bundled/format-inl.h:533-537 | squaring and multiplying by five when the bit is set takes in one more bit of the power |
| `Dragon4.DivideDigit` | include/spdlog/fmt/bundled/format-inl.h:2307-2311 | every division of the digit loop is exact and gives a digit from 0 to 9, also where the numerator has the larger exponent |
| `Dragon4.LeadingDigits` | include/spdlog/fmt/bundled/format-inl.h:2306-2310 | the digits written so far and the numerator left are numerator * 10^count split exactly |
| `Dragon4.LastDigit` | include/spdlog/fmt/bundled/format-inl.h:2311-2313 | comparing twice the remainder with the divisor, digit parity breaking ties, rounds to nearest even |
| `Dragon4.PropagateCarry` | include/spdlog/fmt/bundled/format-inl.h:2314-2326 | a carry from the last digit gives the digits of the next number, or 10...0 with the carry reported |
| `Dragon4.FinishText` | include/spdlog/fmt/bundled/format-inl.h:2311-2330 | the text denotes the generated digits rounded up or not, in both ways the last digit is stored |
| `Dragon4.GenerateDigits` | include/spdlog/fmt/bundled/format-inl.h:2297-2330 | digits and exponent are numerator / denominator rounded to nearest at the requested number of digits, ties to even, including 99..9 becoming 10..0 with the exponent raised |
| `DigitText.CarryMove` | include/spdlog/fmt/bundled/format-inl.h:2318-2321 | moving an overflowing digit one place to the left keeps the number denoted |
| `DigitText.CarryOutOfText` | include/spdlog/fmt/bundled/format-inl.h:2322-2325 | a carry that leaves the text came from all nines and leaves a one followed by zeros |
| `DigitText.NearestEvenRatio` | include/spdlog/fmt/bundled/format-inl.h:2266 | rounding to nearest even does not depend on how the fraction is written |
| `FallbackFormat.SetUpIntegral` | include/spdlog/fmt/bundled/format-inl.h:2233-2244 | for a binary exponent of zero or more the two big numbers are the value over 10^exp10, scaled by the extra shift |
| `FallbackFormat.SetUpSmall` | include/spdlog/fmt/bundled/format-inl.h:2245-2255 | the same for a negative decimal exponent |
| `FallbackFormat.SetUpFraction` | include/spdlog/fmt/bundled/format-inl.h:2256-2265 | the same for a fraction at least one |
| `FallbackFormat.TooManyTwos` | include/spdlog/fmt/bundled/format-inl.h:2306-2311 | a numerator with more factors of two than the power of ten below it never equals it at any decimal shift, so the operands that division would misjudge do not occur |
| `FallbackFormat.RoundsPlace` | include/spdlog/fmt/bundled/format-inl.h:2297-2298 | rounding the scaled fraction is rounding the value at the place the exponent names |
| `FallbackFormat.FormatDigits` | include/spdlog/fmt/bundled/format-inl.h:2217-2331 | for every significand and exponents, from set-up to text: the digits are the value rounded to nearest even at the wanted place; with no digits wanted, to zero or one unit of the place above |
| `Grisu.GetRoundDirection` | include/spdlog/fmt/bundled/format-inl.h:605-619 | down exactly when twice remainder plus error is at most the divisor, up exactly when the opposite side is certain, by tests that do not overflow |
| `Grisu.DirectionIsSound` | include/spdlog/fmt/bundled/format-inl.h:758-773 | a total rounded in a known direction is within half a unit of every number within the error |
| `Grisu.FixedHandler.OnStart` | include/spdlog/fmt/bundled/format-inl.h:727-742 | adjusts a fixed precision; with nothing to print it is done, with one place it prints 0 or 1 or gives up when the direction is unknown |
| `Grisu.FixedHandler.OnDigit` | include/spdlog/fmt/bundled/format-inl.h:744-774 | asks for more only below the wanted number of digits and with the error below the remainder; when done the digits are settled by remainder and error |
| `Grisu.FixedHandler.IncrementLast` | include/spdlog/fmt/bundled/format-inl.h:761-772 | the digits denote one more than before, through the carry chain, with a zero appended in fixed mode or the exponent raised otherwise |
| `Grisu.IntegralTurn` | include/spdlog/fmt/bundled/format-inl.h:657-706 | one turn of the integral loop splits the input at the next place and no shift or sum wraps |
| `Grisu.IntegralPart` | include/spdlog/fmt/bundled/format-inl.h:657-706 | the integral loop ends, prints at most the digits of the integral part, and when done the result is a correct rounding |
| `Grisu.FractionTurn` | include/spdlog/fmt/bundled/format-inl.h:708-713 | one turn of the fractional loop splits the scaled input at the next place, and neither product by ten wraps |
| `Grisu.FractionalPart` | include/spdlog/fmt/bundled/format-inl.h:708-716 | the endless loop ends because the error grows tenfold until it reaches the remainder; done means correctly rounded |
| `Grisu.NothingToPrint` | include/spdlog/fmt/bundled/format-inl.h:737 | when not even the first digit reaches the wanted place, the empty output is the correct rounding |
| `Grisu.OneUnitOrNothing` | include/spdlog/fmt/bundled/format-inl.h:738-741 | when one place above the first digit is wanted, 0 or 1 is the correct rounding |
| `Grisu.GenerateDigits` | include/spdlog/fmt/bundled/format-inl.h:640-717 | never asks for more; done means a correct rounding, and in fixed and other mode alike exponent and number of digits are those of the wanted place, one more digit or a raised exponent coming only with a one followed by zeros; error comes exactly where the error of one unit leaves the remainder in doubt, and exponent and length then still locate the first digit |
| `Grisu.IntegralVerdict` | include/spdlog/fmt/bundled/format-inl.h:701-705 | whether a place before the point is in doubt depends only on the input, not on the digits generated |
| `Grisu.FractionVerdict` | include/spdlog/fmt/bundled/format-inl.h:709-715 | the same for a place behind the point, where also an error that reaches the remainder leaves it in doubt |
| `Grisu.CorrectForEveryReal` | include/spdlog/fmt/bundled/format-inl.h:636-640 | such a rounding is within half a unit of the last place of every real number within one unit of the scaled input |
| `CachedPowers.RowIsNearest` | include/spdlog/fmt/bundled/format-inl.h:282-324 | every one of the 87 cached significands is its power of ten rounded to the nearest, at the exponent listed beside it |
| `CachedPowers.GetCachedPower` | include/spdlog/fmt/bundled/format-inl.h:277-341 | for every wanted exponent that has a row, the power is one of 10^-348 to 10^340 with a significand of 64 bits that is right to half a unit; its exponent is at least the wanted one and at most 28 more exactly from -1221 on, and below that for six exponents only |
| `CachedPowers.TableEnds` | include/spdlog/fmt/bundled/format-inl.h:326-340 | one exponent further on either side the index computed lies outside the table |
| `CachedPowers.Normalize` | include/spdlog/fmt/bundled/format-inl.h:240-254 | the same number with a significand of exactly 64 bits, for every significand of a double |
| `FormatFloat.ScaledByProduct` | include/spdlog/fmt/bundled/format-inl.h:2368-2371 | the product of a normalized significand and a cached power that is right to half a unit is less than one unit away from the scaled value |
| `FormatFloat.Scale` | include/spdlog/fmt/bundled/format-inl.h:2365-2371 | every double is scaled to a number with an integral part of 1 to 32 bits and 32 to 60 bits behind the point that is less than one unit away from the value times the power of ten |
| `FormatFloat.FitsMeans` | include/spdlog/fmt/bundled/format-inl.h:2377-2379 | the exponent handed to the exact algorithm fits its contract exactly when the scaled value is below the power of ten that its digit count gives |
| `FormatFloat.HandOver` | include/spdlog/fmt/bundled/format-inl.h:2377-2379 | so it fits whenever the scaled number is not one short of that power, or the error of the scaled value stays below one unit |
| `FormatFloat.HandOverExactly` | include/spdlog/fmt/bundled/format-inl.h:2377-2379 | with nothing known but an error of at most one unit it fits for every value if and only if the scaled number is not one short of the power of ten |
| `FormatFloat.RoundedValue` | include/spdlog/fmt/bundled/format-inl.h:2377-2382 | digits that are right for all numbers within one unit of the scaled number are right for the value |
| `FormatFloat.LeadsMeans` | include/spdlog/fmt/bundled/format-inl.h:2377-2379 | the value reaches the power of ten of the first digit exactly when the scaled value has as many digits before the point as the scaled number |
| `FormatFloat.FirstDigitExactly` | include/spdlog/fmt/bundled/format-inl.h:2377-2379 | all values within one unit of the scaled number lead with a nonzero digit at the exponent handed over if and only if the number exceeds its power of ten by at least one unit |
| `FormatFloat.PrintDigits` | include/spdlog/fmt/bundled/format-inl.h:2376-2383 | digits and exponent are the value rounded to nearest at the wanted place, whether the fast or the exact algorithm has produced them; their number is the one asked for, with one more only after a carry in fixed mode, and the first is a zero exactly when the rounded value falls short of the power of ten |
| `FormatFloat.RemoveZeros` | include/spdlog/fmt/bundled/format-inl.h:2385-2391 | removing zeros from the end keeps the number denoted, leaves none at the end and something if the first digit is not zero |
| `FormatFloat.FormatZero` | include/spdlog/fmt/bundled/format-inl.h:2339-2347 | zero is one digit, or as many as there are places behind the point |
| `DigitLimit.ReachesEnd` | include/spdlog/fmt/bundled/format-inl.h:2372-2375 | for every double, 767 places from a first digit that twice the value reaches get down to where its binary fraction ends |
| `DigitLimit.EndsThere` | include/spdlog/fmt/bundled/format-inl.h:2372-2375 | what has been rounded at a place that low is the value itself |
| `DigitLimit.EndsWithin` | include/spdlog/fmt/bundled/format-inl.h:2372-2375 | a value ends within 767 places behind the point if and only if its binary exponent is at least -767 or its low bits below 2^-767 are zero |
| `DigitLimit.FixedLimit` | include/spdlog/fmt/bundled/format-inl.h:2372-2375 | rounding at the 767th place behind the point gives the value just when nothing lies beyond, and gives the rounding at a lower place if and only if twice what lies beyond, counted at that place, is at most one unit |
| `DigitLimit.LimitLosesDigit` | include/spdlog/fmt/bundled/format-inl.h:2374-2375 | 2^-768 at 768 places behind the point is not printed as asked |
| `FormatFloat.LimitIsExact` | include/spdlog/fmt/bundled/format-inl.h:2372-2375 | with 767 digits counted from the first nothing of any double is left out |
| `FormatFloat.Format` | include/spdlog/fmt/bundled/format-inl.h:2363-2393 | for every positive double, precision and mode the result is the value rounded to nearest; up to a precision of 767 at exactly that many places behind the point, or with exactly that many digits; beyond it, without fixed point the value itself, and with fixed point the rounding asked for exactly under the condition of FixedLimit |
| `FormatFloat.NoDigitsWanted` | include/spdlog/fmt/bundled/format-inl.h:2375-2380 | with precision zero and no fixed point the place depends on which algorithm runs: 2.25 is rounded to units, 2.5 to tens |
| `DigitCount.CountDigitsFallback` | include/spdlog/fmt/bundled/format.h:899-912 | the number of decimal digits of any natural number, one for zero |
| `DigitCount.CountDigits64` | include/spdlog/fmt/bundled/format.h:921-939 | the same number by the table over the top bit and one comparison, for every 64-bit value |
| `DigitCount.CountDigits32` | include/spdlog/fmt/bundled/format.h:959-988 | the same number by one addition whose carry corrects the table entry, for every 32-bit value |
| `DigitCount.DigitCountUnique` | include/spdlog/fmt/bundled/format.h:919-921 | a number has only one digit count, so all versions agree |
| `DigitCount.RowBounds` | include/spdlog/fmt/bundled/format.h:926-935 | each row of the 64-bit table stands for the top bits between two powers of two and ten |
| `DigitCount.IncRow` | include/spdlog/fmt/bundled/format.h:962-975 | the same for the entries of the 32-bit table |
| `Decimal.Copy2` | include/spdlog/fmt/bundled/format.h:1034-1039 | puts the two characters at the given place and leaves all others as they are |
| `Decimal.FormatDecimal` | include/spdlog/fmt/bundled/format.h:1049-1078 | writes exactly the digits of the value without leading zeros at the end of the given size, as many as counted, and touches nothing else in the buffer |
| `Decimal.ParseNonnegativeInt` | include/spdlog/fmt/bundled/core.h:2095-2116 | consumes the whole run of digits and returns its number, or the error value exactly when it exceeds an int or has more than ten digits, despite 32-bit wrap-around |
| `Decimal.RoundTrip` | include/spdlog/fmt/bundled/core.h:2095-2116 | reading what was written gives the number back for every int from zero |
| `Decimal.ReadOrTooLarge` | include/spdlog/fmt/bundled/core.h:2111-2116 | a numeral without needless zeros is read as its number if that fits an int, and as the error value otherwise, however long it is |
| `Products.Multiply` | include/spdlog/fmt/bundled/format-inl.h:258-273 | the product divided by 2^64, rounded to nearest with ties upwards |
| `Products.Umul128` | include/spdlog/fmt/bundled/format-inl.h:828-853 | the full 128-bit product from four half products |
| `Products.Umul128Upper64` | include/spdlog/fmt/bundled/format-inl.h:856-865 | the upper 64 bits of the product |
| `Products.AddWord` | include/spdlog/fmt/bundled/format-inl.h:810-821 | adding a word to a 128-bit value with the carry into the upper word, modulo 2^128 |
| `Products.Umul192Upper64` | include/spdlog/fmt/bundled/format-inl.h:869-873 | the product with a 128-bit value divided by 2^128 |
| `Products.Umul192Middle64` | include/spdlog/fmt/bundled/format-inl.h:883-887 | the same product divided by 2^64, modulo 2^64 |
| `Divisibility.InverseTest` | include/spdlog/fmt/bundled/format-inl.h:952-962 | for any divisor and word size, a product with the modular inverse is at most the largest quotient exactly for the multiples, and is then the quotient |
| `Divisibility.Entry64` | include/spdlog/fmt/bundled/format-inl.h:966-990 | every entry of the 64-bit table is the inverse of its power of five and the largest quotient |
| `Divisibility.Entry32` | include/spdlog/fmt/bundled/format-inl.h:955-961 | the same for the 32-bit table |
| `Divisibility.DivisibleByPowerOf5_64` | include/spdlog/fmt/bundled/format-inl.h:964-992 | true exactly when 5^exp divides x, for every x and table entry |
| `Divisibility.DivisibleByPowerOf5_32` | include/spdlog/fmt/bundled/format-inl.h:953-963 | the same for 32 bits |
| `Divisibility.RemoveTrailingZeros32` | include/spdlog/fmt/bundled/format-inl.h:1919-1944 | n is the result times 10^s; all zeros are gone exactly when 10^8 does not divide n |
| `Divisibility.RemoveTrailingZeros64` | include/spdlog/fmt/bundled/format-inl.h:1947-2029 | for 0 < n <= (2^64 - 1) / 1000, n is the result times 10^s and no zero is left |
| `Divisibility.ZeroLeftBehind` | include/spdlog/fmt/bundled/format-inl.h:1925-1943 | removing the zeros of 10^8 stops after seven and leaves 10 |
| `Divisibility.ManyZeros` | include/spdlog/fmt/bundled/format-inl.h:1965-1980 | the quotient by 10^8 found with one product loses its further zeros too |
| `Divisibility.FewZeros` | include/spdlog/fmt/bundled/format-inl.h:1982-2028 | zeros found on the eight low digits, with the upper digits moved down as far |
| `Divisibility.AllZerosRemoved` | include/spdlog/fmt/bundled/format-inl.h:1925-1943 | stopping at a limit leaves no zero exactly when there were no more than the limit allows |
| `QueueLaw.PushLaw` | include/spdlog/details/circular_q.h:49-62 | a push keeps the queue law: contents are a suffix of what was pushed, the rest popped or lost in push order, and the overrun counter counts the lost; it appends the item and a full queue loses its oldest one |
| `QueueLaw.PopLaw` | include/spdlog/details/circular_q.h:99-102 | a pop keeps the queue law |
| `QueueLaw.EveryRunKeepsLaw` | include/spdlog/details/mpmc_blocking_q.h:32-67 | every run of blocking and overrunning pushes and pops keeps the law; with blocking pushes only nothing more is lost and the overrun counter stays as it was |
| `QueueLaw.Conservation` | include/spdlog/details/circular_q.h:49-122 | pushed = popped + overrun counter + stored by count, and pushed = popped + lost + stored by content; with the counter at 0 popped is a prefix of pushed |
| `QueueLaw.PoppedInOrder` | include/spdlog/details/circular_q.h:49-102 | what has been popped came out in push order, missing only what was lost |
| `QueueLaw.BlockingRunsLoseNothing` | include/spdlog/details/mpmc_blocking_q.h:32-40 | from an empty queue, with blocking pushes the overrun counter stays 0 and what comes out is a prefix of what went in |
| `CircularQueue.CircularQ.Disabled` | include/spdlog/details/circular_q.h:24-25 | an empty queue that stores nothing |
| `CircularQueue.CircularQ.constructor` | include/spdlog/details/circular_q.h:27-30 | an empty queue of the given capacity, overrun counter zero |
| `CircularQueue.CircularQ.MoveFrom` | include/spdlog/details/circular_q.h:37-46 | takes over contents and counter and leaves the other queue disabled |
| `CircularQueue.CircularQ.PushBack` | include/spdlog/details/circular_q.h:49-62 | appends the item; a full queue drops exactly its oldest item and counts one overrun; a disabled queue does nothing |
| `CircularQueue.CircularQ.Front` | include/spdlog/details/circular_q.h:66-74 | the oldest item |
| `CircularQueue.CircularQ.Size` | include/spdlog/details/circular_q.h:77-87 | the number of stored items, also when the tail has wrapped around |
| `CircularQueue.CircularQ.At` | include/spdlog/details/circular_q.h:91-95 | the i-th oldest item |
| `CircularQueue.CircularQ.PopFront` | include/spdlog/details/circular_q.h:99-102 | removes exactly the oldest item |
| `CircularQueue.CircularQ.Empty` | include/spdlog/details/circular_q.h:104-107 | true exactly when nothing is stored |
| `CircularQueue.CircularQ.Full` | include/spdlog/details/circular_q.h:109-117 | true exactly when as many items are stored as the capacity allows, never for a disabled queue |
| `CircularQueue.WindowPush` | include/spdlog/details/circular_q.h:53-54 | writing the slot behind the last item appends to the contents around the end of the buffer |
| `CircularQueue.WindowPop` | include/spdlog/details/circular_q.h:58 | moving the head on takes the oldest item out |
| `BlockingQueue.MpmcBlockingQueue.TryEnqueue` | include/spdlog/details/mpmc_blocking_q.h:32-40 | appends the item exactly when there are fewer items than the capacity, and never overruns; otherwise nothing changes |
| `BlockingQueue.MpmcBlockingQueue.EnqueueNowait` | include/spdlog/details/mpmc_blocking_q.h:43-50 | appends the item at once; exactly a full queue gives up its oldest one, which is counted |
| `BlockingQueue.MpmcBlockingQueue.TryDequeue` | include/spdlog/details/mpmc_blocking_q.h:54-67 | takes the oldest item, or reports that the queue stayed empty and changes nothing; the history takes a pop or stays |
| `BlockingQueue.MpmcBlockingQueue.Counted` | include/spdlog/details/mpmc_blocking_q.h:32-67 | on the object, whatever has been called: pushed = popped + overrun counter + stored, and with the counter at 0 popped is a prefix of pushed |
| `BlockingQueue.MpmcBlockingQueue.OverrunCounter` | include/spdlog/details/mpmc_blocking_q.h:107-111 | the number of items that were lost: all that were pushed and neither popped nor still stored |
| `BlockingQueue.MpmcBlockingQueue.Size` | include/spdlog/details/mpmc_blocking_q.h:113-117 | the number of stored items |
| `ThreadPool.StartsWorkers` | include/spdlog/details/thread_pool-inl.h:16-31 | the constructor starts exactly the number of workers asked for, if that is from 1 to 1000, on an empty queue of the capacity asked for, and throws otherwise |
| `ThreadPool.StartInv` | include/spdlog/details/thread_pool-inl.h:16-31 | a pool with 1 to 1000 workers starts in a state that has all the invariants |
| `ThreadPool.StepPushes` | include/spdlog/details/thread_pool-inl.h:55-86 | a post with room, an overrunning post and a retry with room append exactly their message to what was pushed; a post or retry without room leaves the queue alone and sleeps with exactly that message; an overrunning post never sleeps; no other step pushes, and only a step that processes a message adds that message to those processed |
| `ThreadPool.PendingKept` | include/spdlog/details/mpmc_blocking_q.h:32-50 | every step keeps what was handed in balanced with what was pushed and what sleeping and woken producers hold |
| `ThreadPool.EveryRunPushes` | include/spdlog/details/thread_pool-inl.h:55-86 | over every run what was handed in is what was pushed plus what producers still hold |
| `ThreadPool.PostKeepsWakeups` | include/spdlog/details/mpmc_blocking_q.h:32-50 | a push, or falling asleep on a full queue, keeps enough notifications owed for all sleepers |
| `ThreadPool.TakeKeepsWakeups` | include/spdlog/details/mpmc_blocking_q.h:54-67 | so does taking a message or falling asleep on an empty queue |
| `ThreadPool.WakeupsKept` | include/spdlog/details/mpmc_blocking_q.h:32-67 | no lost wakeup: every step keeps owed pop notifications plus woken producers at least the free slots while a producer sleeps, and the same for consumers and queued items |
| `ThreadPool.TerminatesKept` | include/spdlog/details/thread_pool-inl.h:38-53 | every step keeps posted terminates = queued terminates + those taken or obeyed by workers, terminates last in the queue |
| `ThreadPool.RolesKept` | include/spdlog/details/thread_pool-inl.h:38-86 | during destruction only the destructor posts, it posts at most one terminate a worker, and joined workers have left |
| `ThreadPool.MessagesKept` | include/spdlog/details/thread_pool-inl.h:96-126 | every step keeps: a message taken is in a worker's hands or processed, exactly once; no terminate is overrun |
| `ThreadPool.StepKeepsInv` | include/spdlog/details/thread_pool-inl.h:38-126 | every step of every thread, spurious wakeups and timeouts included, keeps all invariants |
| `ThreadPool.EveryRunKeepsInv` | include/spdlog/details/thread_pool-inl.h:38-126 | so does every run |
| `ThreadPool.EveryRunIsSafe` | include/spdlog/details/thread_pool-inl.h:16-126 | from the constructor on, every reachable state has the invariants, what the posts handed in is what was pushed or is still held by producers, and once all workers have been joined the queue is empty and what was handed in has been processed exactly once or was overrun |
| `ThreadPool.ProgressUsesWork` | include/spdlog/details/thread_pool-inl.h:38-53 | during destruction every progress step uses up one unit of a bounded amount of work and no other step changes it |
| `ThreadPool.BoundedProgress` | include/spdlog/details/thread_pool-inl.h:38-53 | so a run of the destructor makes a bounded number of progress steps however often threads wake for nothing |
| `ThreadPool.NeverStuck` | include/spdlog/details/thread_pool-inl.h:38-53 | until the last worker is joined some progress step is possible, even while posting to a full queue, if the capacity is not zero |
| `ThreadPool.ShutdownDrains` | include/spdlog/details/thread_pool-inl.h:38-126 | when all workers have been joined the queue is empty, all have obeyed a terminate, and all that was pushed was processed or overrun, by content and by the overrun counter |
| `ThreadPool.NoWorkLeft` | include/spdlog/details/thread_pool-inl.h:38-53 | the work is used up exactly when the last worker has been joined |
| `ThreadPool.ShutdownEnds` | include/spdlog/details/thread_pool-inl.h:38-53 | a run of the destructor has joined all workers exactly when it has made as many progress steps as there was work, and never makes more |
| `ThreadPool.FinishingRun` | include/spdlog/details/thread_pool-inl.h:38-53 | from every state of the destructor, with a capacity above zero, some run of exactly that many steps joins all workers |
| `ThreadPool.ShutdownCanFinish` | include/spdlog/details/thread_pool-inl.h:16-126 | so whatever run a started pool has been through, its destructor can finish |
| `ThreadPool.OneProducerPushes` | include/spdlog/details/thread_pool-inl.h:55-86 | a single producer has its messages pushed in the order in which it hands them in |
| `ThreadPool.OneWorkerDeliversInOrder` | include/spdlog/details/thread_pool-inl.h:88-126 | a pool with one worker has always processed a prefix of what was pushed and not overrun, in push order, and all of it once it has been joined; with one producer and no overruns a prefix of what was handed in |
| `ThreadPool.NoCapacityNoShutdown` | include/spdlog/details/thread_pool-inl.h:42-45 | with capacity zero no terminate is ever posted and nobody is joined |
| `FormatParser.ParseArgId` | include/spdlog/fmt/bundled/core.h:2164-2200 | the method form of the argument id: number, identifier or nothing, with the numbering mode checked |
| `FormatParser.ParseReplacementField` | include/spdlog/fmt/bundled/core.h:2342-2379 | the method form of a replacement field, every error branch included |
| `FormatParser.ParseShort` | include/spdlog/fmt/bundled/core.h:2389-2406 | the simple loop reports the events of the reference grammar, or fails with it, for every string and handler |
| `FormatParser.Find` | include/spdlog/fmt/bundled/core.h:2076-2091 | the first position at which the value stands, or none |
| `FormatParser.WriteText` | include/spdlog/fmt/bundled/core.h:2407-2422 | the writer reports a text segment with closing braces undoubled, or fails on a single one |
| `FormatParser.ParseLong` | include/spdlog/fmt/bundled/core.h:2407-2432 | the searching loop reports the events of the same grammar, or fails with it |
| `FormatParser.ParseFormatString` | include/spdlog/fmt/bundled/core.h:2381-2432 | so the length that selects a loop makes no difference |
| `FormatParser.DoubledFormatsBack` | include/spdlog/fmt/bundled/core.h:2381-2432 | any text with its braces doubled is reported as exactly that text, wherever it stands in a format string |
| `FormatParser.TextOnlyIsDoubled` | include/spdlog/fmt/bundled/core.h:2381-2432 | and what parses to nothing but a text is that text with its braces doubled |
| `FormatParser.EscapingIsExact` | include/spdlog/fmt/bundled/core.h:2381-2432 | a format string gives exactly the text t if and only if it is t with its braces doubled |
| `FormatParser.NumberedArg` | include/spdlog/fmt/bundled/core.h:2164-2180 | any numeral is read as the index it denotes, and one beyond the largest int as the largest int |
| `FormatParser.ArgRead` | include/spdlog/fmt/bundled/core.h:2164-2200 | an argument left out, given by number or by name is read back as it was written |
| `FormatParser.LayoutIsExact` | include/spdlog/fmt/bundled/core.h:2341-2432 | any sequence of texts, automatic, numbered and named fields, and fields with specifiers that the handler takes where they stand, parses to exactly those texts and fields |
| `FormatParser.LayoutFound` | include/spdlog/fmt/bundled/core.h:2341-2432 | whatever parses is the writing of some such sequence |
| `FormatParser.ParsesExactly` | include/spdlog/fmt/bundled/core.h:2381-2432 | a format string parses if and only if it is the writing of a layout, and then to what the layout says |
| `Utf8.JoinedIsScalar` | include/spdlog/fmt/bundled/chrono.h:324-331 | a surrogate pair joins to the scalar value it stands for |
| `Utf8.AppendUtf8` | include/spdlog/fmt/bundled/chrono.h:332-348 | appends the one to four bytes of a scalar value and refuses exactly the other values |
| `Utf8.WideUnits` | include/spdlog/fmt/bundled/chrono.h:316-350 | code units that are not 16-bit stand for themselves and are readable exactly when all are scalar values |
| `Utf8.ReadsExactly` | include/spdlog/fmt/bundled/chrono.h:322-331 | 16-bit units are read as v if and only if they are the UTF-16 writing of v |
| `Utf8.EncodeUnits` | include/spdlog/fmt/bundled/chrono.h:322-350 | units that are not 16-bit give the bytes of those values, or fail exactly when one is no scalar value; 16-bit units give the bytes of v if and only if they are the UTF-16 writing of v, and fail exactly when they are the writing of nothing |
| `Utf8.EncodedByTable` | include/spdlog/fmt/bundled/chrono.h:332-345 | the bytes of a scalar value are those of the table of section 3 of RFC 3629 |
| `Utf8.CodePointLength` | include/spdlog/fmt/bundled/core.h:2063-2074 | a length from one to four for every lead byte |
| `Utf8.NoError` | include/spdlog/fmt/bundled/format.h:469-478 | the error bits are zero exactly for a value in range, not a surrogate, not over-long, with proper tail bytes |
| `Utf8.PayloadOf` | include/spdlog/fmt/bundled/format.h:461-467 | the value is put together from the payload bits of lead and tail bytes |
| `Utf8.DecodeEncoded` | include/spdlog/fmt/bundled/format.h:451-481 | a block starting with the bytes of a scalar value decodes to it without error |
| `Utf8.AcceptsExactly` | include/spdlog/fmt/bundled/format.h:451-481 | for a lead byte that begins a sequence, no error is reported if and only if the block begins with the bytes of the value decoded |
| `Utf8.InvalidLeadPasses` | include/spdlog/fmt/bundled/format.h:451-481 | all other lead bytes are decoded without error as one character below 128 |
| `Utf8.ForEachCodepoint` | include/spdlog/fmt/bundled/format.h:483-505 | block loop and padded tail make exactly the calls of decoding one code point after the other, with all reads inside the data or the buffer |
| `Utf8.CallsCover` | include/spdlog/fmt/bundled/format.h:483-505 | whatever the bytes are, errors or not, there is one call for each of the offsets that follow one another by the lengths of the lead bytes from the beginning to the end |
| `Utf8.CutOffIsError` | include/spdlog/fmt/bundled/format.h:494-505 | a sequence that the end of the data cuts off is an error |
| `Utf8.RoundTrip` | include/spdlog/fmt/bundled/format.h:483-505 | what was encoded is called back value by value with error 0 for every sequence of scalar values (section 3 of RFC 3629), whatever follows |
| `Utf8.AcceptedAt` | include/spdlog/fmt/bundled/format.h:483-489 | each such call carries its value and no error |
| `Utf8.CalledBack` | include/spdlog/fmt/bundled/format.h:483-505 | so what the encoder returns for units is called back as exactly the values they stand for |
| `FileNames.SplitByExtension` | include/spdlog/details/file_helper-inl.h:124-144 | stem and extension always put the name back together |
| `FileNames.SplitOfComponent` | include/spdlog/details/file_helper-inl.h:110-144 | whatever the folders are called, the extension is the one the documented rule gives the last component: from its last dot, unless that opens or ends it |
| `FileNames.IsSplitUnique` | include/spdlog/details/file_helper-inl.h:110-123 | the documented rule allows only one split |
| `FileNames.NumeralDenotes` | include/spdlog/sinks/rotating_file_sink-inl.h:53 | the index is written as its decimal digits |
| `FileNames.CalcFilenameInjective` | include/spdlog/sinks/rotating_file_sink-inl.h:44-54 | different indices never give the same file name |
| `FileNames.CalcFilenameIs` | include/spdlog/sinks/rotating_file_sink-inl.h:41-54 | index 0 is the base name itself; any other index stands between the stem and the extension of the last component, whatever the folders are called |
| `FileNames.CalcFilenameBare` | include/spdlog/sinks/rotating_file_sink-inl.h:51-53 | a name without extension gets a dot and the index behind it |
| `FileNames.CalcFilenameSplits` | include/spdlog/sinks/rotating_file_sink-inl.h:41-54 | a rotated name keeps folder and extension, the index standing between stem and extension |
| `RotatingFile.RotatingFileSink.constructor` | include/spdlog/sinks/rotating_file_sink-inl.h:27-39 | opens the file of the base name for appending and takes its size; if asked to and not empty, every file of the row moves to the next name and the base file begins anew, otherwise nothing else changes |
| `RotatingFile.RotatingFileSink.RenameFile` | include/spdlog/sinks/rotating_file_sink-inl.h:123-128 | the target is replaced by the source, which is gone |
| `RotatingFile.RotatingFileSink.Rotate` | include/spdlog/sinks/rotating_file_sink-inl.h:89-118 | every file moves to the next name, the last one is overwritten, the file of the base name begins anew; files under other names are untouched |
| `RotatingFile.RotatingFileSink.SinkIt` | include/spdlog/sinks/rotating_file_sink-inl.h:64-75 | a message within the limit is appended to the file of the base name and nothing else changes; one that would pass it moves every file to the next name first and is then the whole base file; the size follows |
| `RotatingFile.SlotSet` | include/spdlog/sinks/rotating_file_sink-inl.h:44-54 | setting one file of the row leaves the others alone, as no two indices share a name |
| `RotatingFile.RotationKeepsOrder` | include/spdlog/sinks/rotating_file_sink-inl.h:94-117 | rotation keeps all bytes in order but those of the file it overwrites |
| `RotatingFile.EveryRunKeepsSuffix` | include/spdlog/sinks/rotating_file_sink-inl.h:27-118 | from any files and over any run of openings and messages, all bytes there were and were logged are the deleted ones followed by those in the files, oldest file first |
| `RotatingFile.EveryRunIsContiguous` | include/spdlog/sinks/rotating_file_sink-inl.h:27-118 | files without gaps stay without gaps, and nothing is deleted before all max_files + 1 files exist |
| `RotatingFile.EveryRunIsBounded` | include/spdlog/sinks/rotating_file_sink-inl.h:64-75 | every file written to is within max_size or holds exactly one message |
| `RotatingFile.OpenExact` | include/spdlog/sinks/rotating_file_sink-inl.h:34-38 | after opening, current_size_ is the size of file 0 if and only if no bytes were rotated away, as the constructor does not reset it |
| `RotatingFile.LogExact` | include/spdlog/sinks/rotating_file_sink-inl.h:68-73 | after a message it is exact if and only if it was before or the message caused a rotation |
| `RotatingFile.SessionExact` | include/spdlog/sinks/rotating_file_sink-inl.h:27-75 | over a whole session it is exact if and only if opening rotated nothing away or the old file and all messages together exceed max_size |
| `RotatingFile.StaleSizeLosesFile` | include/spdlog/sinks/rotating_file_sink-inl.h:34-38 | an input for which the stale size rotates an empty file away and loses an old one |
| `PatternFormatter.ScopedPadder.constructor` | include/spdlog/pattern_formatter-inl.h:40-62 | spaces go before the text on the left, none on the right, half of them rounded down when centred; the rest is remembered |
| `PatternFormatter.ScopedPadder.PadIt` | include/spdlog/pattern_formatter-inl.h:84-92 | never more than the 64 spaces there are |
| `PatternFormatter.ScopedPadder.Finish` | include/spdlog/pattern_formatter-inl.h:70-81 | the remembered spaces, or the text cut back by what it is too long |
| `PatternFormatter.FormatPayload` | include/spdlog/pattern_formatter-inl.h:687-691 | the buffer gains exactly the padded payload |
| `PatternFormatter.FieldWidth` | include/spdlog/pattern_formatter-inl.h:37-93 | a field takes max(width, length) characters, exactly width with the mark, and shows the text unbroken between spaces on the named side |
| `PatternFormatter.ReadWidth` | include/spdlog/pattern_formatter-inl.h:1327-1332 | the number of the whole digit run modulo 2^64 |
| `PatternFormatter.WidthIsCapped` | include/spdlog/pattern_formatter-inl.h:1327-1346 | the width used is the number capped at 64 if and only if the number fits size_t or still wraps to 64 or more |
| `PatternFormatter.WidthLost` | include/spdlog/pattern_formatter-inl.h:1327-1346 | a width of 2^64 counts as none |
| `PatternFormatter.HandlePadspec` | include/spdlog/pattern_formatter-inl.h:1293-1347 | side, width and mark are read as specified and everything else is left to the flag |
| `PatternFormatter.SpecRoundTrip` | include/spdlog/pattern_formatter-inl.h:1293-1347 | reading a written specification, with or without digits and before any flag, gives back what it was written from |
| `PatternFormatter.PatternFormatter.SetPattern` | include/spdlog/pattern_formatter-inl.h:1067-1071 | the new pattern is stored and compiled, the rest stays as it is |
| `PatternFormatter.PatternFormatter.CompilePattern` | include/spdlog/pattern_formatter-inl.h:1349-1394 | the formatters are those of the specified pattern, user text gathered between flags |
| `PatternFormatter.PatternFormatter.Format` | include/spdlog/pattern_formatter-inl.h:1050-1065 | the buffer gains what the formatters show, in order, and the end of line; that is what every layout of the pattern means |
| `PatternFormatter.PiecesWellPadded` | include/spdlog/pattern_formatter-inl.h:1346 | no compiled field is wider than the spaces there are |
| `PatternFormatter.PiecesShift` | include/spdlog/pattern_formatter-inl.h:1349-1394 | a pattern means the same wherever it stands |
| `PatternFormatter.DoublingIsExact` | include/spdlog/pattern_formatter-inl.h:1349-1394 | doubling every percent sign of any text gives a pattern that writes exactly that text, if no custom flag takes the percent sign |
| `PatternFormatter.BuiltinFlags` | include/spdlog/pattern_formatter-inl.h:1096-1258 | the flags that are handled are the message, the percent sign and the known ones, listed by what they show |
| `PatternFormatter.FlagLine` | include/spdlog/pattern_formatter-inl.h:1080-1290 | a flag is shown by the custom handler if there is one, as the percent sign, as the message in its field, as a known flag with its padding, or as it stands; an unknown flag behind a truncation mark is shown as the function name in its field followed by the flag |
| `PatternFormatter.LayoutIsExact` | include/spdlog/pattern_formatter-inl.h:1349-1394 | any sequence of texts and flags, bare or with any padding specification, custom, known or unknown, with or without an unfinished flag at the end, is written exactly as it means |
| `PatternFormatter.PatternMeans` | include/spdlog/pattern_formatter-inl.h:1349-1394 | what is compiled from a pattern writes what any layout of it means |
| `PatternFormatter.EveryPatternMeans` | include/spdlog/pattern_formatter-inl.h:1349-1394 | every pattern has such a layout, so the meaning of none is left open |

## Left out

- The shortest-representation branch of `fallback_format`, and Dragonbox with its tables of powers: only the helpers used there are modelled.
- FormatFloat.Format: significand and binary exponent of the double are inputs, any significand below 2^53 with any exponent a double can have; taking them out of its bits is not modelled. Negative precisions, which ask for the shortest digits, and values that are not handled by Grisu are left out.
- CachedPowers.GetCachedPower: wanted exponents below -1268 or above 1066, for which the original would read outside its table, are excluded; no double asks for them.
- CachedPowers.Row: the two parallel arrays of the original are one function from index to significand and exponent.
- BigintModule.Bigint.Multiply32: the 128-bit integer overload of the multiplication is not modelled, nor are the limb capacity of 32 and the width of `exp_`; limb sequences grow without bound.
- BigintModule.Bigint.Square: needs a limb count whose double fits an int, as the original's int counters do; the accumulator is the portable one.
- BigintModule.Bigint.DivmodAssign: the quotient is a natural number, though the original counts it in an int, so a quotient from 2^31 on is outside the original's range; the digit loops only produce digits below ten. A zero that reaches more limb positions than the divisor is excluded, because comparison takes it for the larger number, as `ZeroTakenForLarger` shows, and the subtraction that follows wraps around; the digit loops never meet one.
- BigintModule.AddCompare: an operand with a zero top limb reaches no further than the other side, or one position further on the right, as the original presumes; a plain zero never does.
- BigintModule.Bigint.AssignPow10: powers from 2^30 on are excluded, because the original's int bit mask overflows there.
- FallbackFormat.FormatDigits: decimal exponents reach 2^30 either way for the same reason, and a nonnegative binary exponent needs a nonnegative decimal one, which the original asserts.
- Divisibility.RemoveTrailingZeros32: n is not zero, as the original takes its count of trailing zero bits; the same holds for the 64-bit version, whose bound is the one its comment gives.
- The compiler-specific variants for 128-bit integers, carries and high products, and the compile-time branches of `count_digits` and `format_decimal`.
- CircularQueue.CircularQ.constructor: `max_items + 1` wrapping around in size_t is not modelled, and neither is the overrun counter's.
- Popping from an empty queue, which is undefined in the original.
- Mutex internals, memory orders, clocks and the MinGW variants that notify before unlocking; a timeout may happen at any time.
- Exceptions thrown by a logger's sinks while a worker processes a message, and the callback at thread start.
- Fairness: `BoundedProgress` and `NeverStuck` bound the steps that matter and say that one is always possible; that threads are scheduled at all is left to the system.
- FormatParser.ParseFormatString: an error handler that returns is treated as stopping the parse; the contents of format specifiers are up to the handler.
- Wide characters, column width and locale in the formatting library.
- Rejection of invalid UTF-8 lead bytes: the decoder lets them pass, which `Utf8.InvalidLeadPasses` states.
- The conversion of time strings by the locale's facet before they are encoded.
- Rename failures with their retry and exception, reopening attempts, and sizes beyond size_t.
- FileNames.SplitByExtension: the folder separator is the one of systems other than Windows.
- The formatters of flags other than the message, such as time, level and source location, which rest on library calls; they are functions of flag and padding here.
- Other sinks, the registry, colour output and configuration.
