# Number conversion, formatted output and streams of the bundled C libraries

The repository carries two small C libraries. This project models their real algorithms and proves what they
compute:

* `mtv_50/clib/dtoa.c` and `mtv_50/clib/mprec.c`: binary to decimal conversion in multiple-precision arithmetic.
  The multiple-precision operations are modelled on arrays of 32-bit words, half-word carries and signed borrows
  included. On top of them stand the scaling of a double to a quotient b/S, the two digit generators, and a theory
  of IEEE doubles in which "reads back as the same double" is defined over all doubles.
* `miniclib/c-lib.c`: `_vfprintf_r` with its queue of I/O vectors, the stream writer under it, `snprintf`, `strtoul`,
  `rand`, `memmove` and `strstr`.
* `miniclib/libc.c`: `_doprntx`, a second formatter for the same directive language.

The main results:

* **Shortest output.** In modes 0 and 1 the digits denote a decimal in the rounding interval of the double, no
  decimal with fewer significant digits, at any exponent, lies in it, and none with the same last place is closer; of
  two equally close the even one is taken (`Dtoa.Dtoa`). Read with rounding to nearest-even the mode 0 digits give the
  same double back (`Dtoa.ReadsBack`), and nothing shorter does (`Dtoa.NothingShorterReadsBack`), for every finite
  double.
* **Correct rounding.** In modes 6 and 7, and in modes 2 and 3 where the floating-point shortcut is not tried or gives
  up, the digits are the value rounded half-even at the requested place, through runs of nines and down to no digit at
  all, when the point stands at that place. `Dtoa.Dtoa` takes the shortcut's outcome as a parameter and promises nothing about digits it has produced.
* **Exact division.** `quorem` leaves b mod S and returns b div S.
* **Full period.** In any run of `rand` the state is the seed again exactly after the multiples of 2^64 calls, and any
  2^64 calls in a row return every value exactly 2^33 times.
* **Conservation.** A stream receives exactly the bytes written, in order, or a prefix of them and its error flag,
  whatever the device does with each write. A line-buffered one keeps its last line to itself while that is shorter
  than the buffer.
* **Formatting.** `_vfprintf_r` writes exactly the text the directive language defines and returns its length, however
  the fragments are queued and flushed; `_doprntx` writes its own dialect; the two agree exactly where stated. What
  that language means is proved separately, character by character: which flag letters, width, precision and size a
  directive is read as (`Reading.DirectiveRead`), the text of its field (`Fields.NumberText`, `Fields.DigitsUnique`,
  `Fields.OtherText`), and how text, fields and stored counts follow one another (`Directives.DirectiveRendered`).
* **Round trip.** `strtoul` reads back what `_vfprintf_r` prints for an integer, modulo 2^32.

Where the code departs from what it or a standard promises, the departure is stated exactly:

* For an integer below 10^15 that the floating-point shortcut has not converted (always in modes 6 and 7) the digits
  can end in a zero, although the comment at `mtv_50/clib/dtoa.c:195-213` promises none. `Dtoa.Dtoa` says exactly when
  (predicate `ZeroKept`), and `Dtoa.TrailingZeroSurvives` gives the double 1002 to two digits in mode 6.
* At 2^-1022 the lower half-gap is taken too narrow (`Dtoa.LowGapExact`, an equivalence). The output is nevertheless
  still the shortest, by a numeric argument of its own (`LeastNormal.TooFewDigits`).
* `snprintf` keeps to `size` bytes exactly when the text is shorter than `size`; otherwise its NUL lands on the byte
  behind them (`Snprintf.KeepsToSize`, an equivalence, and `Snprintf.NulBeyondSize`).
* `strtoul` always returns the value of the subject sequence of ISO C, sign and overflow included
  (`Strtoul.ValueConforms`), but its end pointer is the standard's exactly unless a base prefix is followed by no hexadecimal digit (`Strtoul.EndConforms`,
  `Strtoul.BareInput`).
* The two formatters part on a precision with a prefix, on `%p`, on quad modifiers and on padded unknown conversions
  (`Agreement.ScansAgree`, `Agreement.LayoutsAgree`, `Agreement.FieldsAgree`, all equivalences).

## Layout

| files | contents |
|---|---|
| Powers, Decimal | powers and quotients; decimal digit strings |
| Bigint, Mprec, D2b | multi-word numbers: comparison and quotient; the other operations; taking a double apart |
| Doubles, Scaling, Rounding, LeastNormal | doubles as exact numbers; b/S; what a decimal means for a double; 2^-1022 |
| FreeFormat, FreeDigits | shortest digits: the theory, and the loop |
| FixedDigits, SmallInteger | digits to a fixed place; the shortcut for integers |
| Dtoa | the conversion and its theorems |
| Ctype, Rand, Strtoul, Memory | character classes; `rand`; `strtoul` and ISO C; `memmove` and `strstr` |
| Streams | the stream writer |
| Format, Vfprintf, Snprintf | the directive language; `_vfprintf_r`; the string functions |
| Doprnt, Doprntx | the second dialect; `_doprntx` |
| Agreement, RoundTrip | the two formatters compared; printing and reading back |
| Reading, Fields, Directives | both directive languages told by their characters; examples |

A double is a pair of fields (`Doubles.Double`). Numbers derived from it are compared in whole multiples of 2^-1076, so
no rounding is involved anywhere. A method follows the C function it cites, in place where the C function works in
place. The word loops are those of the `Pack_32` layout with 32-bit `long`.

## Model

| member | source | states |
|---|---|---|
| Bigints.SubtractWord | mtv_50/clib/dtoa.c:75-85 | one word of b - q*S in 32-bit arithmetic: nothing overflows, the carry stays at most 9 and the borrow in {0, -1}, and word, carry and borrow together account for the exact difference |
| Bigints.SubtractMultiple | mtv_50/clib/dtoa.c:70-97 | the word loop takes q times S away from b exactly, leaving nothing owed at the top |
| Bigints.EstimateQuotient | mtv_50/clib/dtoa.c:65 | the one-word quotient guess is at most 9, never high, and at most one low |
| Bigints.TrimTop | mtv_50/clib/dtoa.c:98-104 | dropping zero words keeps the value and restores the representation invariant, zero without words included |
| Bigints.SubtractAndTrim | mtv_50/clib/dtoa.c:70-105 | subtraction and trimming together |
| Bigints.SubtractOnce | mtv_50/clib/dtoa.c:107-144 | S is taken away once more exactly when it still fits, and then no word had been trimmed before |
| Bigints.Quorem | mtv_50/clib/dtoa.c:40-147 | exact division: b = q*S + r with r < S left in b and q at most 9, for any b below 10*S and S with four leading zero bits |
| Bigints.Cmp | mtv_50/clib/mprec.c:521-549 | the sign of the result orders the numbers; only two zeroes of different word counts are told apart |
| Bigints.FewerWords | mtv_50/clib/mprec.c:535-536 | fewer significant words mean a smaller number |
| Bigints.DecidedAbove | mtv_50/clib/mprec.c:541-547 | the highest differing word decides |
| Mprec.I2b | mtv_50/clib/mprec.c:319-328 | a word as a number |
| Mprec.MultAdd | mtv_50/clib/mprec.c:147-192 | b*m + a, in b itself exactly when b's array can hold it and otherwise in a copy of twice the size; no leading zero word appears |
| Mprec.MultWords | mtv_50/clib/mprec.c:161-178 | the word loop with its half-word products never overflows and loses no carry |
| Mprec.AddLow | mtv_50/clib/mprec.c:364-378 | adds the low half of a multiplier word times x at word j |
| Mprec.AddHigh | mtv_50/clib/mprec.c:380-396 | adds the high half, half a word further up, through the loop that stores one half late |
| Mprec.Mult | mtv_50/clib/mprec.c:330-420 | the product, without leading zero words, whichever factor is the longer |
| Mprec.Pow5Mult | mtv_50/clib/mprec.c:422-459 | b * 5^k by a small factor and repeated squaring of 625 |
| Mprec.Lshift | mtv_50/clib/mprec.c:461-519 | b * 2^k, whole words and bits, with a nonzero top word, every store inside an array of the size the C code computes |
| Mprec.DiffWords | mtv_50/clib/mprec.c:589-611 | the two borrow loops give a - b |
| Mprec.Diff | mtv_50/clib/mprec.c:551-633 | the distance of a and b, and the sign of a - b |
| Mprec.CountHi0bits | mtv_50/clib/mprec.c:234-267 | leading zero bits, 32 for zero |
| Mprec.Lo0bits | mtv_50/clib/mprec.c:269-317 | trailing zero bits k and the odd word left: y = x * 2^k |
| Mprec.BitsOfTop | mtv_50/clib/mprec.c:896 | word count and top word tell the exact number of significant bits |
| Unpacking.Unpack | mtv_50/clib/mprec.c:800-826 | two words moved down by their k trailing zero bits: an odd number times 2^k |
| Unpacking.D2b | mtv_50/clib/mprec.c:758-902 | the double is b * 2^e with b odd, and the bit count is the one its level and b demand, denormals included |
| Doubles.Neighbours | mtv_50/clib/dtoa.c:202-206 | every other double is at least twice a half-gap away, and one exactly that far from an even one is odd |
| Doubles.NextUnits | mtv_50/clib/dtoa.c:202-206 | the next double up is exactly twice the upper half-gap away, overflow to a power of two included |
| Doubles.PrevUnits | mtv_50/clib/dtoa.c:659-673 | the next double down is exactly twice the lower half-gap away, with the narrower gap below a power of two |
| Doubles.GapBelowNarrow | mtv_50/clib/dtoa.c:663-667 | the next double down is closer than the next one up exactly at powers of two above the least normal one, and elsewhere both are equally far |
| Scaling.Split | mtv_50/clib/dtoa.c:364-386 | the exponents of 2 and 5 put in numerator, half-gap and divisor balance to v/10^k, with no negative one |
| Scaling.Align | mtv_50/clib/dtoa.c:685-705 | the common shift makes the divisor's bit count 28 modulo 32 |
| Scaling.TopFromBits | mtv_50/clib/dtoa.c:677-679 | that bit count means four leading zero bits in the top word |
| Scaling.ApplyFives | mtv_50/clib/dtoa.c:637-653 | b * 5^b5 through either route, and mhi = 5^m5 |
| Scaling.Divisor | mtv_50/clib/dtoa.c:654-709 | the divisor is 2^s2 * 5^s5, aligned as `quorem` requires |
| Scaling.FromExponents | mtv_50/clib/dtoa.c:364-386 | numbers with balanced exponents denote the same fraction |
| Scaling.Scale | mtv_50/clib/dtoa.c:592-709 | b/S = v/10^k, and in modes 0 and 1 mhi*2^m2/S is the lower half-gap over 10^k |
| Scaling.CompareToOne | mtv_50/clib/dtoa.c:712 | b < S exactly when v < 10^k |
| Scaling.DenotesTenth | mtv_50/clib/dtoa.c:714-717 | ten times the numerator over one power of ten less is the same number |
| FreeFormat.NextDigit | mtv_50/clib/dtoa.c:758-765 | the two comparisons say exactly whether the digits so far, and the digits plus one, are in the interval |
| FreeFormat.OtherDigits | mtv_50/clib/dtoa.c:758-765 | a decimal further off is inside only if the neighbour on that side is |
| FreeFormat.KeepGoing | mtv_50/clib/dtoa.c:793-807 | when neither test fires no decimal of that length is inside, and the interval is narrower than a unit |
| FreeFormat.LastDigit | mtv_50/clib/dtoa.c:785-790 | the first digit is not 0, no last digit is 0, and a 9 is rounded up at most as the first digit |
| FreeFormat.NoneAtFewer | mtv_50/clib/dtoa.c:755-757 | with no decimal of n digits inside there is none of fewer |
| FreeFormat.StopIsShortest | mtv_50/clib/dtoa.c:755-757 | stopping inside after going on so far is stopping at the shortest |
| FreeFormat.ChoiceIsNearest | mtv_50/clib/dtoa.c:776-782 | the neighbour taken is the nearest decimal of that length in the interval, and of two equally near the even one |
| FreeFormat.NotOnBothEnds | mtv_50/clib/dtoa.c:765-782 | when b is an even number of equal half-gaps the two neighbours never lie on both ends of the interval, the one tie that the first test would not take to the even digit |
| FreeDigits.CompareHigh | mtv_50/clib/dtoa.c:759-760 | j1 tells on which side of S - mhi the remainder is, also when mhi exceeds S |
| FreeDigits.Decide | mtv_50/clib/dtoa.c:758-793 | the order of the tests: stop exactly when a neighbour is inside, on one that is, on the nearer one when both are, and on the even digit when they are equally near |
| FreeDigits.RoundUpResult | mtv_50/clib/dtoa.c:785-790 | rounding a 9 up happens only at the first digit and gives "1" one place up, which is shortest |
| FreeDigits.RoomForDigit | mtv_50/clib/dtoa.c:752-753 | an interval wider than a unit of the last place bounds the number of digits, hence the loop |
| FreeDigits.Step | mtv_50/clib/dtoa.c:754-793 | one digit and its decision lead to a finished shortest result or to the next loop state |
| FreeDigits.TimesTen | mtv_50/clib/dtoa.c:799-806 | multiplying by ten in place keeps all four numbers apart, with mlo and mhi one object if they were |
| FreeDigits.Generate | mtv_50/clib/dtoa.c:752-808 | the loop ends with digits that are canonical and shortest, and nearest of their length |
| Decimal.DigitPlaces | mtv_50/clib/dtoa.c:754 | each digit emitted is the character of its value |
| Decimal.Roundoff | mtv_50/clib/dtoa.c:829-838 | one unit more in the last place: the carry through nines, and "1" one place up when all are nines |
| Decimal.StripZeros | mtv_50/clib/dtoa.c:839-843 | trailing zeroes dropped, the value scaled accordingly |
| FixedDigits.HalfEvenUnique | mtv_50/clib/dtoa.c:825-828 | rounding half-even has one result |
| FixedDigits.RoundByRemainder | mtv_50/clib/dtoa.c:825-828 | twice the remainder against S with the parity of the last digit decides half-even rounding |
| FixedDigits.Digits | mtv_50/clib/dtoa.c:814-821 | ilim digits of b/S and the remainder they leave |
| FixedDigits.Fixed | mtv_50/clib/dtoa.c:814-843 | the digits are b/S rounded half-even at ilim digits, without leading or trailing zero, one place up after a carry off the front |
| SmallIntegers.TruncatesTo | mtv_50/clib/dtoa.c:558 | truncating any correctly rounded quotient of such doubles is integer division |
| SmallIntegers.KeepsZeroWhen | mtv_50/clib/dtoa.c:569-585 | the last digit is an unrounded 0 with something after it exactly when v modulo ten units of that place is positive and at most half a unit |
| SmallIntegers.BumpUp | mtv_50/clib/dtoa.c:574-582 | one unit more in the last place, like the other rounding loop |
| SmallIntegers.IsHeld | mtv_50/clib/dtoa.c:556-588 | every integer below 2^53 is the value of a double |
| SmallIntegers.EmitInteger | mtv_50/clib/dtoa.c:556-588 | all digits of the integer exactly, or ilim digits rounded half-even, with a trailing zero exactly when one is kept; every product, difference and sum on the way is an integer a double holds |
| Rounding.ReadsBackExactlyInGap | mtv_50/clib/dtoa.c:202-206 | a decimal is nearest to d, ties to even, exactly when it lies within the half-gaps, the ends included for an even d |
| Rounding.NearestStrictlyInGap | mtv_50/clib/dtoa.c:204-206 | a decimal is closer to d than to any other double exactly when it lies strictly within the half-gaps |
| Rounding.InsideIsInGap | mtv_50/clib/dtoa.c:755-757 | inside for the scaled numbers is inside for the double |
| Rounding.ShortestHasNoShorter | mtv_50/clib/dtoa.c:202-206 | shortest at one exponent means that no decimal of fewer digits at any exponent is in the gap |
| Rounding.NearestIsClosest | mtv_50/clib/dtoa.c:776-782 | nearest for the scaled numbers is closest to the double, ties to the even digit included |
| Rounding.ScaledRounding | mtv_50/clib/dtoa.c:825-843 | rounding b/S at the n-th digit is rounding v at that power of ten |
| Rounding.RoundedAway | mtv_50/clib/dtoa.c:721-733 | where no digit is asked for the rounded value is 0, or one unit when v exceeds half of it |
| LeastNormal.TooFewDigits | mtv_50/clib/dtoa.c:659-667 | no decimal of 16 digits or fewer, at any exponent, is nearest to 2^-1022 |
| Dtoa.RepairK | mtv_50/clib/dtoa.c:710-720 | after the repair k is floor(log10 v) and 1 <= b/S < 10, with the half-gap rescaled and the digit limit switched |
| Dtoa.SeventeenDigits | mtv_50/clib/dtoa.c:400-403 | seventeen digits always make the interval wider than a unit, so the buffer of modes 0 and 1 suffices |
| Dtoa.GapsScaled | mtv_50/clib/dtoa.c:735-750 | mlo/S and mhi/S are the half-gaps over 10^k, the power-of-two case included |
| Dtoa.NineIsDecided | mtv_50/clib/dtoa.c:765-770 | for doubles the one case in which a farther neighbour could be taken does not occur |
| Dtoa.GapsAreSpaced | mtv_50/clib/dtoa.c:735-750 | every double is an even number of its half-gaps where these are equal |
| Dtoa.FreePart | mtv_50/clib/dtoa.c:735-808 | modes 0 and 1 from the scaled numbers on: shortest, closest, at most 17 digits |
| Dtoa.FixedPart | mtv_50/clib/dtoa.c:814-843 | modes 2 and 3 from the scaled numbers on: v rounded half-even at the place asked for |
| Dtoa.NoDigits | mtv_50/clib/dtoa.c:721-734 | with no place left the result is a lone 1, or nothing with the point at the place asked for, whichever is v rounded half-even |
| Dtoa.WholeWhen | mtv_50/clib/dtoa.c:545 | the exponent test recognises exactly the integers |
| Dtoa.WholeIsShortest | mtv_50/clib/dtoa.c:556-588 | the exact digits of an integer below 10^15 are the shortest and closest output |
| Dtoa.SmallPart | mtv_50/clib/dtoa.c:543-590 | the integer shortcut meets the same promises, except for a trailing zero exactly when one is kept |
| Dtoa.Exact | mtv_50/clib/dtoa.c:543-859 | the integer shortcut and the scaled numbers together: the mode's promise for every nonzero double |
| Dtoa.Dtoa | mtv_50/clib/dtoa.c:184-859 | for every finite double: shortest and closest digits in modes 0 and 1; in modes 6 and 7, and in 2 and 3 unless the floating-point shortcut was tried and took the number, half-even rounding at the place asked for, with a trailing zero exactly when one is kept, and without digits the point at that place; mode by mode what the comment at the head of the file promises (predicate `ByMode`); "0" for zero, and a NUL inside the buffer |
| Dtoa.TrailingZeroSurvives | mtv_50/clib/dtoa.c:569-585 | the double 1002, to two digits in mode 6, is converted without the floating-point shortcut and keeps its zero |
| Dtoa.LowGapExact | mtv_50/clib/dtoa.c:659-673 | the lower half-gap used is the true one for exactly the doubles other than 2^-1022, and never wider |
| Dtoa.ReadsBack | mtv_50/clib/dtoa.c:202-203 | the mode 0 digits read back as the same double |
| Dtoa.NothingShorterReadsBack | mtv_50/clib/dtoa.c:202-203 | no decimal with fewer significant digits does |
| Dtoa.ReadsBackStrictly | mtv_50/clib/dtoa.c:204-206 | the mode 1 digits are closer to the double than to any other, so no tie-breaking rule matters |
| Dtoa.NothingShorterIsNearest | mtv_50/clib/dtoa.c:204-206 | no decimal with fewer significant digits is |
| Dtoa.ModesKept | mtv_50/clib/dtoa.c:201-222 | each mode number keeps its own promise: 0 and numbers outside 0 to 9 read back and are shortest, 1 likewise for the strictly nearest, 2 and 6 round to max(1, ndigits) significant digits, 3 and 7 to ndigits places behind the point |
| Rand.Generator.Rand | miniclib/c-lib.c:410-417 | a run of the generator returns, call by call, the outputs of the states that follow the seed; each call multiplies by 6364136223846793005, adds 1 modulo 2^64 and returns bits 32 to 62 |
| Rand.FromOne | miniclib/c-lib.c:410-417 | the first three states and results after seed 1, in numerals |
| Rand.Generator.Srand | miniclib/c-lib.c:405-408 | seeding starts a run anew |
| Rand.StateClosed | miniclib/c-lib.c:415 | the state after n calls in closed form |
| Rand.GeometricTwos | miniclib/c-lib.c:415 | for a multiplier congruent 1 modulo 4, 2^e divides the sum of n of its powers exactly when it divides n |
| Rand.FullPeriod | miniclib/c-lib.c:410-417 | from any state, n calls lead back to it exactly when 2^64 divides n |
| Rand.StatesDistinct | miniclib/c-lib.c:410-417 | calls less than a period apart leave different states |
| Rand.OutputsUniform | miniclib/c-lib.c:410-417 | in a period every value from 0 to RAND_MAX is returned exactly 2^33 times |
| Rand.RunReturns | miniclib/c-lib.c:405-417 | in a run the state is the seed exactly when the number of calls is a multiple of 2^64 |
| Rand.RunRepeats | miniclib/c-lib.c:405-417 | what a run returns repeats after 2^64 calls |
| Rand.RunUniform | miniclib/c-lib.c:405-417 | any 2^64 calls in a row of a run return every value exactly 2^33 times |
| Streams.LastLineParts | miniclib/c-lib.c:723-731 | what follows the last newline: a suffix without newline, and the whole text or just behind one |
| Streams.LastLineBehind | miniclib/c-lib.c:766-771 | text before a newline does not matter for the last line |
| Streams.ConcatAppend | miniclib/c-lib.c:882-892 | a fragment queued last is written last |
| Streams.Stream.FnWrite | miniclib/c-lib.c:604-605 | a device write takes any prefix, or fails |
| Streams.Stream.Fflush | miniclib/c-lib.c:577-613 | for a stream of any buffering with a device: on success the device has everything written so far; on failure a prefix of it, the error flag is set, and the buffer is empty either way; nothing happens without a buffer or write permission |
| Streams.Stream.LineStep | miniclib/c-lib.c:742-764 | each branch conserves data and makes progress in the bytes left to write or, when none are, in the bytes buffered: it fills and empties the buffer, or writes at most a buffer size directly, or, when the piece fits, buffers it and leaves the device alone |
| Streams.Stream.LineAdvance | miniclib/c-lib.c:742-773 | the buffer is emptied when the newline is reached and a fitting piece without one stays in it; a newline never stays, and the newline distance stays right after a partial write |
| Streams.Stream.LineStays | miniclib/c-lib.c:742-773 | a step leaves the same last line to buffer, while that is shorter than the buffer |
| Streams.Stream.LineTurn | miniclib/c-lib.c:742-773 | a step with its line: shorter than the buffer it stays there, and without newline nothing reaches the device |
| Streams.Stream.NextVector | miniclib/c-lib.c:618-625 | skipping empty vectors never runs past the queued ones |
| Streams.Stream.WriteString | miniclib/c-lib.c:681-722 | a string stream counts everything and keeps the first `size` characters, its memory beyond what is kept being that of the beginning |
| Streams.Stream.WriteUnbuffered | miniclib/c-lib.c:652-667 | on success all data in order, otherwise a prefix and the error flag; always ends |
| Streams.Stream.WriteLines | miniclib/c-lib.c:723-776 | device and buffer together hold the old data and the new, and the buffer exactly the last line when that is shorter than it; what has no newline and fits only goes into the buffer, without failure; on failure a prefix; always ends |
| Streams.Stream.Sfvwrite | miniclib/c-lib.c:634-782 | the same for the three modes, so that the result depends only on the concatenation of the vectors; in line mode the last line, when shorter than the buffer, is exactly what is buffered, and what has no newline and fits reaches no device |
| Ctype.ClassMembers | miniclib/c-lib.c:13-49 | the characters of each class used, one by one |
| Strtoul.DigitAlphabet | miniclib/c-lib.c:2438-2441 | digits stand for their values and letters of either case for 10 and up |
| Strtoul.NoOtherDigit | miniclib/c-lib.c:2438-2443 | no other character is a digit in any base |
| Strtoul.OverflowTest | miniclib/c-lib.c:2446 | the cutoff test fires exactly when the next digit would take the value beyond ULONG_MAX |
| Strtoul.ScanHead | miniclib/c-lib.c:2419-2434 | blanks, sign, base prefix and base as the text shows them, without reading past the terminator |
| Strtoul.AddDigit | miniclib/c-lib.c:2446-2452 | a digit is added exactly or the overflow mark is set, and stays set |
| Strtoul.Strtoul | miniclib/c-lib.c:2408-2461 | the value of the longest digit run, negated modulo 2^32 after a minus, or ULONG_MAX when too large, which is the standard's value in every case; the end pointer just past the run, or the start when there is none, which is the standard's exactly without a bare prefix |
| Strtoul.LongestSubject | miniclib/c-lib.c:2419-2460 | where the longest subject sequence of ISO C (section 7.10.1.6 of ISO/IEC 9899:1990) ends, in terms of what the code reads |
| Strtoul.EndConforms | miniclib/c-lib.c:2427-2460 | the end pointer is the end of that sequence exactly unless a base prefix is followed by no hexadecimal digit; then the sequence ends just past the 0 |
| Strtoul.MagnitudeConforms | miniclib/c-lib.c:2408-2461 | the magnitude read is that of the subject sequence, however large |
| Strtoul.ValueConforms | miniclib/c-lib.c:2408-2461 | the result is that of the subject sequence in every case: 0xffffffff when its number m is larger, otherwise m, or 2^32 - m modulo 2^32 when the sequence begins with a minus, and 0 without one |
| Strtoul.BareInput | miniclib/c-lib.c:2427-2432 | "0xg" in base 16 ends at its start for the code and at 1 for the standard |
| Format.ScanV | miniclib/c-lib.c:971-1050 | reading a directive ends, within the format, past at least its conversion character |
| Format.ScanProper | miniclib/c-lib.c:965-1050 | no sequence of flags leaves another sign than blank, plus or none, or a precision below -1 |
| Format.LayoutV | miniclib/c-lib.c:1297-1375 | padding, prefix, precision zeroes and body add up to the larger of width and size |
| Format.Digits | miniclib/c-lib.c:1236-1262 | at least one digit, every one of them a digit of the base |
| Vfprintf.FitsBuffer | miniclib/c-lib.c:543 | a 64-bit number has at most 22 digits in any base printed, so the 40 bytes suffice |
| Vfprintf.FillByDigits | miniclib/c-lib.c:1238-1241 | the backward loop leaves exactly the digits of the number |
| Vfprintf.FillDecimal | miniclib/c-lib.c:1249-1253 | the decimal loop with its separate last digit does too |
| Vfprintf.FillNumber | miniclib/c-lib.c:1229-1268 | the converted number with its octal zero, and nothing for zero at precision zero |
| Vfprintf.ReadNumber | miniclib/c-lib.c:1008-1012 | the decimal number read is the value of the digit run |
| Vfprintf.ReadDirective | miniclib/c-lib.c:971-1050 | the loop over the switch reads the directive the language defines |
| Vfprintf.Printer.Sprint | miniclib/c-lib.c:788-800 | writing the queue moves it, unaltered, to the stream and empties it |
| Vfprintf.Printer.Print | miniclib/c-lib.c:882-892 | queueing appends, wherever the eighth entry falls, and every queued fragment still shows the bytes it was queued for |
| Vfprintf.Printer.Pad | miniclib/c-lib.c:893-901 | padding in chunks of the table is padding |
| Vfprintf.Printer.PutPrefix | miniclib/c-lib.c:1308-1314 | sign or 0x, through memory that later directives overwrite |
| Vfprintf.Printer.PutField | miniclib/c-lib.c:1297-1372 | the order of padding, prefix, zeroes and body is the field's layout |
| Vfprintf.Printer.Convert | miniclib/c-lib.c:1051-1281 | string, character or number proper with its prefix and precision; conversions write only to memory no queued fragment shows |
| Vfprintf.Printer.Argument | miniclib/c-lib.c:914-923 | the argument as the size modifiers select it: magnitude and sign |
| Vfprintf.Printer.Flush | miniclib/c-lib.c:902-907 | after a flush nothing is queued and the stream has it all |
| Vfprintf.Printer.Directive | miniclib/c-lib.c:1051-1377 | a whole directive puts out its field and counts its length |
| Vfprintf.Turn | miniclib/c-lib.c:949-1377 | one turn of the scanning loop takes the text, the count and the stores one directive further |
| Vfprintf.Run | miniclib/c-lib.c:948-1382 | the scanning loop reaches the whole rendered text and all stores |
| Vfprintf.Vfprintf | miniclib/c-lib.c:822-1384 | without a write error the stream receives exactly the rendered text, the count is its length, and every %n has stored the length before it in the width of its size modifier; with one, prefixes and the error flag |
| Snprintf.Snprintf | miniclib/c-lib.c:2352-2381 | the first `size` characters of the rendering and a NUL right after them, in room for just that; every byte behind the NUL is unchanged; the count is the full length |
| Snprintf.KeepsToSize | miniclib/c-lib.c:2366-2381 | whatever the memory holds, no byte at or beyond `size` changes exactly when the text is shorter than `size` |
| Snprintf.NulBeyondSize | miniclib/c-lib.c:2366-2381 | the format "abc" into two bytes changes the third |
| Snprintf.Sprintf | miniclib/c-lib.c:2336-2350 | the whole rendering and a NUL, cut off behind 32767 characters; the count is the full length |
| Doprnt.CrlfReturns | miniclib/libc.c:375-380 | in expanded text every newline has a carriage return just before it, and without those it is the text |
| Doprnt.CrlfOnly | miniclib/libc.c:375-380 | and it is the only such text |
| Doprnt.PlainFormat | miniclib/libc.c:374-382 | a format without directives is sent like that |
| Doprnt.LayoutD | miniclib/libc.c:583-621 | the second layout adds up to the larger of width and size |
| Doprntx.ReadDirective | miniclib/libc.c:388-454 | reads the directive its dialect defines |
| Doprntx.ConvertDigits | miniclib/libc.c:552-562 | the digit loop with the table in force leaves the digits of the number |
| Doprntx.Sink.PutLiteral | miniclib/libc.c:375-380 | literal text with newlines as CR LF, every character counted |
| Doprntx.Sink.PutItem | miniclib/libc.c:583-621 | the loops put out the layout and count its length |
| Doprntx.Turn | miniclib/libc.c:374-629 | one turn of the scanning loop takes the output, the count and the stores one directive further |
| Doprntx.Doprntx | miniclib/libc.c:346-631 | the sink receives exactly the rendered text of the dialect, the count is the number of characters sent, and every %n has stored the count before it; a format without directives arrives as itself with '\r' just before each '\n' |
| Agreement.ScansAgree | miniclib/libc.c:388-454 | both read a directive alike exactly when it has neither a quad modifier nor an L conversion |
| Agreement.LayoutsAgree | miniclib/libc.c:583-621 | both lay an item out alike exactly when it is not a prefix meeting a precision beyond its digits |
| Agreement.PlainSizesSameNumber | miniclib/libc.c:320-324 | the size modifiers under which both take the argument for the same number |
| Agreement.OtherNumber | miniclib/libc.c:455-621 | if the two take an argument for different numbers, their fields differ, whatever flags, width and precision |
| Agreement.FieldsAgree | miniclib/libc.c:455-629 | for every conversion both print the same field exactly if they take the argument for the same number and no prefix meets a precision; pointers never, unknown conversions only without padding |
| Agreement.FormattersAgree | miniclib/libc.c:374-629 | on formats of agreeable directives the second output is the first with literal newlines as CR LF |
| Agreement.EverydayFormatsAgree | miniclib/libc.c:374-629 | that is so, whatever the arguments, on formats of d i o u x X without precision, c and s with any, all flags and widths, at most one l, and bare %% |
| Reading.DirectiveRead | miniclib/c-lib.c:971-1050 | for any flags, width, precision, size and conversion as written, the directive is left-adjusted exactly with a minus or a negative starred width, zero-padded exactly with a 0, alternate exactly with a #, signed by + before blank, with the width, precision (a negative star being none) and size written, every star taking an argument |
| Reading.HeadRead | miniclib/c-lib.c:971-1050 | a directive cut off by the end of the format has no conversion |
| Reading.DirectiveReadD | miniclib/libc.c:388-454 | the second formatter reads such a directive alike, unless its size is ll or q |
| Fields.Converted | miniclib/c-lib.c:914-932 | arguments are taken modulo 2^16, 2^32 or 2^64, into the range of the signed or unsigned type |
| Fields.NumberText | miniclib/c-lib.c:1057-1375 | the field of an integer conversion is, for the number of that size, sign or 0x, zeroes to the precision and the digits, filled to the width with blanks behind, zeroes after the prefix, or blanks in front; letters are capitals for X alone, a # gives one octal 0, and zero at precision zero has no digits |
| Fields.NumberUnique | miniclib/c-lib.c:914-932 | only one number is what a size takes an argument for |
| Fields.DigitsUnique | miniclib/c-lib.c:1229-1262 | only one digit string is as that says |
| Fields.OtherText | miniclib/c-lib.c:1051-1372 | a string is cut to its first characters by the precision, a null one is "(null)"; c prints a byte, n nothing and an unknown conversion itself; padded like the rest |
| Fields.ArgumentsTaken | miniclib/c-lib.c:1051-1206 | which conversions use up an argument |
| Fields.NumberTextD | miniclib/libc.c:455-629 | the same for the second formatter: short arguments sign-extended first, 32 bits always, the prefix counted against the precision, pointers bare, capitals also where the directive before left them, and when it leaves them itself |
| Fields.OtherTextD | miniclib/libc.c:455-629 | strings and characters print alike; an unknown conversion is not padded |
| Directives.LiteralText | miniclib/c-lib.c:949-962 | text without percent sign is printed as it is |
| Directives.DirectiveRendered | miniclib/c-lib.c:948-1377 | text and a directive print the text, the field of the directive, and what the rest of the format prints with the arguments left |
| Directives.CutOff | miniclib/c-lib.c:1272-1275 | a directive cut off by the end of the format prints nothing |
| Directives.DirectiveStores | miniclib/c-lib.c:1140-1152 | %n stores the number of characters before it, modulo the width of its size: 64 bits with ll or q, 16 with h, 32 otherwise; nothing else stores |
| Directives.DirectiveRenderedD | miniclib/libc.c:374-629 | the second formatter prints the text with newlines expanded, the field, and the rest with the digit table left |
| Directives.LiteralTextD | miniclib/libc.c:374-382 | and text at the end expanded |
| Directives.DirectiveStoresD | miniclib/libc.c:374-629 | its %n stores the number of characters sent before it, carriage returns included |
| Directives.Dialects | miniclib/libc.c:446-453 | L is an unknown conversion for the first formatter and skipped by the second; q is a size for the first and an unknown conversion for the second, which takes two l for one |
| Directives.LeftAndZeroes | miniclib/c-lib.c:996-998 | 42 is "42   " with "%-5d", text behind it following, and "00042" with "%05d" |
| Directives.ThreeOfAString | miniclib/c-lib.c:1175-1195 | "%.3s" of "abcdef" is "abc" |
| Directives.CapitalHex | miniclib/c-lib.c:1203-1213 | "%#X" of 255 is "0XFF" |
| Directives.CapitalsLeft | miniclib/libc.c:527-562 | "%.0X%x" of 0 and 255 is "FF" in the second formatter |
| RoundTrip.DigitsValue | miniclib/c-lib.c:1236-1262 | digits denote the number they were made from |
| RoundTrip.HeadOf | miniclib/c-lib.c:2419-2434 | of blanks, sign, prefix and digits `strtoul` finds sign, base and first digit |
| RoundTrip.LayoutIsNumeral | miniclib/c-lib.c:1297-1372 | every layout of a number is such a text: padding and precision are blanks and leading zeroes |
| RoundTrip.PrintedReadsBack | miniclib/c-lib.c:2408-2461 | under any flags, width and precision `strtoul` gets the 32-bit argument back, in the base printed or, where the text shows the base, in base 0 |
| RoundTrip.SprintfReadsBack | miniclib/c-lib.c:2336-2350 | the same for the whole output of a format that is one directive, which is text `strtoul` accepts |
| Memory.Memmove | miniclib/c-lib.c:325-349 | for every overlap the destination ends equal to the old source and all else is unchanged |
| Memory.Strstr | miniclib/c-lib.c:242-273 | the least position of the needle, or nothing exactly when there is none, without reading past either terminator |

## Left out

- Dtoa.Dtoa: takes the power-of-ten estimate as given, floor(log10 v) or one more when it is to be checked; the
  floating-point logarithm that computes it (mtv_50/clib/dtoa.c:299-363) is not modelled.
- Dtoa.Dtoa: modes 2 and 3 with up to 14 digits first try plain floating-point arithmetic
  (mtv_50/clib/dtoa.c:429-541); whether that takes the number, and the digits it then gives, are a parameter.
- Dtoa.Dtoa: modes 4, 5, 8 and 9, the sign result, infinities and NaNs are not modelled.
- SmallIntegers.EmitInteger: its doubles are modelled as the integers they hold exactly; the division is modelled as a
  rounded one.
- Mprec.Lshift: the free lists and the cached powers of five are not modelled. The `|` of disjoint bits is written as a
  sum, shifts as products and quotients by powers of two.
- FreeFormat.ChoiceIsNearest: a first digit 9 whose upper neighbour lies exactly on the end of a wide interval may be
  rounded up although the 9 is nearer; `Dtoa.NineIsDecided` shows that no double leads there.
- Streams.Stream.Sfvwrite: the fully buffered mode for devices is not modelled; its last branch moves the wrong
  pointers (miniclib/c-lib.c:713-716) and does not conserve data.
- Streams.Stream.Fflush: a null stream, and string streams, which have no device.
- Streams.Stream.FnWrite: a device is any sequence of accepted prefixes and failures; more bytes accepted than offered
  are not considered.
- Vfprintf.Vfprintf: arguments are a typed sequence; a missing or mistyped one reads as 0 or "(null)", and what `%n`
  stores is returned as a list. Width, precision and count are unbounded integers. Multi-byte characters are not
  modelled.
- Doprntx.Doprntx: as for the first formatter; a NUL that ends the format inside a directive ends the output.
- Agreement.FormattersAgree: gives a sufficient condition for whole formats; the equivalences are per directive, since
  differing fields may by chance make up for each other.
- Reading.DirectiveRead: for the parts of a directive in the order of the standard; the code also takes flags behind a
  width or size, which `Format.ScanV` models.
- RoundTrip.PrintedReadsBack: 32-bit conversions only; `h` and quad sizes print other numbers than the argument.
- Strtoul.Strtoul: bases 0 and 2 to 36, and the characters that the class tables cover, which are indexed with signed
  characters.
- The floating-point conversions of `_vfprintf_r` and their copy of dtoa (miniclib/c-lib.c:474-541, 1386-2327), which are
  compiled out.
- The 16-bit word layout, the IBM and VAX formats, and the other operations of mprec.c.
- Easy members: the remaining string functions, `div`, `asctime`, `ctime`, `atof`.
- Headers, register and descriptor tables, payload images, the scheduler's assembly, USB and console access.
