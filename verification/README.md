# Formatted output, verified

A Dafny model of the formatted-output engine that OpenSCAP 1.2.1 carries in `openscap-1.2.1/lib`, with proofs about it.
`dafny verify dfyconfig.toml` checks everything.

The engine takes a format and its arguments and produces a text. The model follows its parts:

- **Sizes and ints** (`Xsize`, `Integers`): arithmetic in which SIZE_MAX stands for everything that is too large, and casts.
- **Bignums** (`Powers`, `Bignum`, `TrialDigit`, `DivisionStep`, `Division`, `QuotientRounding`, `Rounding`): limb arrays of 32 bits,
  multiplied and divided in place. The value of an array of limbs in base 2^32 is `Bignum.Val`. A pointer into an array
  is an array with an offset (`Mpn`), so that quotient and remainder share one array as they do in C. Arrays start with unknown
  contents, so no proof can rest on a limb that was not written. `Limb` and `TwoLimb` are ranges of 32 and 64 bits: each assignment
  to them proves that nothing wraps around.
- **Decimal conversion** (`Logarithms`, `Digits`, `Decimal`, `ScaledValue`, `Scale10`): the digits of round (m * 2^e * 10^n), exactly.
- **Exponent and digits** (`SignificantDigits`, `ExponentSearch`): from a guess of the exponent to the one right pair.
- **Layout** (`Layout`, `Texts`, `NumberText`, `FloatFits`, `FloatFormat`): the texts of %f, %e and %g as section 7.19.6.1 of ISO/IEC 9899:1999
  describes them, with padding in place. `Layout.ReadBack` is an independent reader of decimal numbers; the theorems say what it reads
  in each text.
- **Parser** (`FormatSyntax`, `ParserSpec`, `FormatParser`, `ParserProperties`): `FormatSyntax` and `ParserSpec` say how a format is scanned and
  which tables a format yields; `FormatParser` is the parser as it runs, with its cursor and growing tables, proved to yield them;
  `ParserProperties` proves what the tables guarantee.
- **Formats** (`FormatGrammar`, `ArgumentOrder`, `Acceptance`): the directives as a grammar, independent of the scanner, and what the parser
  does in terms of it: which formats it accepts, and which argument each part of a directive takes.
- **The printer of directives** (`Reprint`): the inverse of the parser.
- **Arguments** (`FetchArgs`, `FieldValues`): fetching, widths and precisions.
- **Output** (`Output`, `Vasnprintf`): the accumulator, the main loop, and the whole function.
- **memchr** (`Memchr`): the scan by words, against the scan by bytes.

The chain of results ends in `Vasnprintf.Format`: for every format without NUL and matching arguments, the output is the gaps
of the format in order with every directive expanded. A number by %f, %e or %g always expands to the text of `FloatFormat.FloatText`;
`FloatFormat.FixedIsRounded`, `FloatFormat.ScientificIsSignificant` and `FloatFormat.GeneralIsSignificant` say that this text denotes
the exact value m * 2^e, correctly rounded, and `FloatFormat.SignIsRead` that a reader of signed numbers finds it there with its own
sign. Any other conversion expands to what snprintf, a parameter, makes of the format that `Reprint` rebuilds for the directive;
`Vasnprintf.SnprintfIsPassed` says that this format and its arguments fit. `Acceptance.AcceptedExactly` says which formats get that far.

## What is assumed

- A 64-bit system with glibc: `long`, `size_t`, `intmax_t` and `ptrdiff_t` have 64 bits, `int` and limbs 32, `long long` exists, the `I` flag
  exists. `sizeof (argument)` is 32 and `sizeof (char_directive)` is 88.
- The macros for doing %f, %e and %g here (`NEED_PRINTF_DOUBLE`, `NEED_PRINTF_LONG_DOUBLE`) are on.
- The constants 2.322f and 0.03345f are the rational numbers 2322/1000 and 3345/100000, and their products are exact.
- A floating-point argument comes decoded, as a sign, a mantissa and a binary exponent, with a guess of its decimal exponent that satisfies
  10^E / 2 < x < 10^(E+1) * 3 / 2 (`SignificantDigits.AccurateGuess`); a relative error of a millionth is far inside that.
- Sums and differences of ints do not overflow (`FloatFormat.IntsFit`); a precision may have any size, and its cast to `int` is modelled.
- `malloc` and `realloc` succeed for every size that does not overflow. `realloc` is a larger array with the same entries.

## Where a promise does not hold as stated

- The comment on `floorlog10` (`openscap-1.2.1/lib/vasnprintf.c:1415-1417`) promises a guess that may be off by 1 at times. The search
  adjusts the guess by 1, but not every guess that is off by 1 leads to the right digits: `SignificantDigits.LowGuessAborts` (the guess
  -1 for 9.5) and `SignificantDigits.HighGuessGivesZero` (the guess 1 for 4) are inputs where it does not, and
  `SignificantDigits.SearchIsCanonical` says exactly when it does. The comment allows these two guesses; they are not shown to be
  guesses that `floorlog10` makes. Guesses of the accuracy above are always corrected.
- The comment on `convert_to_decimal` (`openscap-1.2.1/lib/vasnprintf.c:839-844`) promises digits and a NUL in the memory allocated.
  The digits always fit. `Decimal.ConvertToDecimal` says exactly when a cell is left for the NUL, and `Decimal.EveryCellUsed`
  is a bignum for which none is.
- A precision is accepted up to SIZE_MAX, but it is cast to `int` before it scales the number. `FloatFormat.FixedIsRounded` says that %f
  is right exactly if an int can hold the precision, or the number is zero; `FloatFormat.HugePrecision` is an input where it is wrong.
  `FloatFormat.TextExists` says that %e and %g reach `abort` exactly for such a precision and a number other than zero.

## Model

| member | source | states |
|---|---|---|
| Xsize.SaturatedSum | openscap-1.2.1/lib/xsize.h:63-67 | xsum of two saturated sizes is the true sum, or SIZE_MAX if that is larger; the wrap-around test is enough |
| Xsize.SaturatedSum4 | openscap-1.2.1/lib/xsize.h:84-87 | xsum4 is the true sum of four sizes, or SIZE_MAX |
| Xsize.SaturatedProduct | openscap-1.2.1/lib/xsize.h:101-106 | xtimes of a saturated count is the true product, or SIZE_MAX, for every positive element size |
| Xsize.SaturationIsExact | openscap-1.2.1/lib/xsize.h:58-106 | every nest of xsum, xmax and xtimes computes min (true value, SIZE_MAX) |
| Xsize.NoOverflowMeansExact | openscap-1.2.1/lib/xsize.h:108-110 | if size_overflow_p denies overflow, the computed size is the true one |
| Bignum.MultiplyRow | openscap-1.2.1/lib/vasnprintf.c:386-396 | one row of the product: digit1 times the other factor is added in place, the limb above is written without being read, limbs elsewhere stay; nothing exceeds 64 bits |
| Bignum.AddRows | openscap-1.2.1/lib/vasnprintf.c:384-397 | row after row, each one limb further up, the array becomes the product, whatever its upper limbs held |
| Bignum.MultiplyRows | openscap-1.2.1/lib/vasnprintf.c:378-397 | the array holds the product, although only the first len2 limbs are cleared and the others start with unknown contents |
| Bignum.Multiply | openscap-1.2.1/lib/vasnprintf.c:342-405 | the result is normalised and its value is the product |
| Bignum.DropLeadingZeros | openscap-1.2.1/lib/vasnprintf.c:487-500 | dropping zero limbs from the top gives a normalised bignum of the same value |
| Bignum.ShiftLeft | openscap-1.2.1/lib/vasnprintf.c:622-636 | a left shift by s < 32 bits, into another array or in place: value times 2^s, split between the limbs and what leaves the top |
| Bignum.ScaleInPlace | openscap-1.2.1/lib/vasnprintf.c:1131-1139 | multiplication by one limb in place, with the carry that leaves the top |
| TrialDigit.FirstGuess | openscap-1.2.1/lib/vasnprintf.c:676-702 | the guess min (beta - 1, floor of two limbs by one), and c1 is its remainder; when the overflow branch jumps to the subtraction, no correction is needed |
| TrialDigit.Guess | openscap-1.2.1/lib/vasnprintf.c:676-720 | after the test of c3 against c2, which corrects by at most two, the guess is the quotient of the top three limbs by the top two |
| TrialDigit.GuessIsClose | openscap-1.2.1/lib/vasnprintf.c:664-720 | the quotient of the top limbs is the true digit or one more, whatever the lower limbs are |
| DivisionStep.SubtractMultiple | openscap-1.2.1/lib/vasnprintf.c:724-743 | the subtraction with complemented limbs subtracts q times b exactly; its carry is what is left to subtract above |
| DivisionStep.AddBack | openscap-1.2.1/lib/vasnprintf.c:750-766 | adding b back with the carry computed from complements is exact addition |
| DivisionStep.NoBorrow | openscap-1.2.1/lib/vasnprintf.c:744-748 | if cr is not larger than the top limb, the guess was the true digit |
| DivisionStep.BorrowRepaired | openscap-1.2.1/lib/vasnprintf.c:744-768 | if it is larger, the guess was one too large and one addition of b restores 0 <= r < b |
| DivisionStep.TopDigitBounded | openscap-1.2.1/lib/vasnprintf.c:676-702 | given r < b * beta^(j+1), the branch for r[j+n] > b[n-1] is never taken |
| DivisionStep.SubtractAndCorrect | openscap-1.2.1/lib/vasnprintf.c:721-769 | the digit and the remainder after subtraction and at most one add-back |
| DivisionStep.DivideDigit | openscap-1.2.1/lib/vasnprintf.c:672-775 | one step of the division loop: the digit goes into the limb that the remainder gave up, 0 <= r < b holds again, everything else stays |
| Division.DivideByLimb | openscap-1.2.1/lib/vasnprintf.c:519-531 | single-precision division into another place, or in place, with the exact remainder |
| Division.DivideLoop | openscap-1.2.1/lib/vasnprintf.c:662-775 | the quotient, overlaid on the remainder in one array, and the remainder together are the dividend; no remainder limb is destroyed before it is read |
| Division.NormalisingShift | openscap-1.2.1/lib/vasnprintf.c:582-607 | the shift puts the highest bit of the divisor at the top of its limb |
| Division.ShiftDivisor | openscap-1.2.1/lib/vasnprintf.c:611-637 | the shifted divisor has its top bit set, and nothing leaves the top: the abort is not reached |
| Division.DivideShort | openscap-1.2.1/lib/vasnprintf.c:513-545 | division by one limb: quotient and remainder, both normalised |
| Division.DivideLong | openscap-1.2.1/lib/vasnprintf.c:546-800 | division by several limbs: quotient and shifted remainder, both normalised, inside a_len + 2 limbs |
| Division.DivideInRoom | openscap-1.2.1/lib/vasnprintf.c:502-800 | the three layouts: quotient and remainder, both normalised, share a_len + 2 limbs |
| QuotientRounding.CompareTwice | openscap-1.2.1/lib/vasnprintf.c:801-820 | the loop compares twice the remainder with the divisor, for any two lengths |
| QuotientRounding.Increment | openscap-1.2.1/lib/vasnprintf.c:823-830 | adding one, the carry into a new limb included, stays inside the room |
| Division.Divide | openscap-1.2.1/lib/vasnprintf.c:414-837 | for all a >= 0 and b > 0 the result is normalised and is a / b rounded half to even, in all three layouts |
| Rounding.RoundHalfEvenExact | openscap-1.2.1/lib/vasnprintf.c:407-413 | that number is the only q with 2 * abs (a - q * b) <= b, and q even on equality |
| Decimal.BlocksSuffice | openscap-1.2.1/lib/vasnprintf.c:850-851 | 9 * (floor (32 * 0.03345 * len) + 1) digits hold every number of len limbs |
| Decimal.AtMostOneLimbCleared | openscap-1.2.1/lib/vasnprintf.c:877-879 | dividing a normalised bignum by 10^9 clears at most its top limb: one test keeps it normalised |
| Decimal.ConvertBlock | openscap-1.2.1/lib/vasnprintf.c:860-879 | a pass stores nine digits of the number inside the array, and value plus length goes down |
| Decimal.ConvertBlocks | openscap-1.2.1/lib/vasnprintf.c:858-880 | the passes end, and together they leave all digits of the number, inside the array |
| Decimal.ConvertToDecimal | openscap-1.2.1/lib/vasnprintf.c:845-891 | the digits, lowest first and without a superfluous zero, of a * 10^extra_zeroes; all inside the allocated cells; one of these is left for the NUL if and only if a < 10^(9 * blocks - 1); for a not normalised as well |
| Decimal.EveryCellUsed | openscap-1.2.1/lib/vasnprintf.c:850-852 | fourteen limbs of all ones: their digits take every cell allocated, and none is left for the NUL |
| Digits.DigitsMean | openscap-1.2.1/lib/vasnprintf.c:871-876 | the digits are the characters 0 to 9 |
| Digits.Unique | openscap-1.2.1/lib/vasnprintf.c:839-844 | a number has one such digit string |
| Scale10.Pow5Length | openscap-1.2.1/lib/vasnprintf.c:1104-1110 | floor (2.322 * n / 32) + 1 limbs are enough for 5^n and for every smaller power |
| Scale10.PowerOfFive | openscap-1.2.1/lib/vasnprintf.c:1106-1143 | the loop in steps of 13 leaves 5^abs_n in the scratch array, with room behind it for the shift |
| Scale10.ShiftInPlace | openscap-1.2.1/lib/vasnprintf.c:1148-1180 | shifting by bits and then by limbs, in place, multiplies by 2^abs_s and stays inside the scratch array |
| Scale10.PowerOfTwoBehind | openscap-1.2.1/lib/vasnprintf.c:1212-1221 | 2^abs_s is placed behind the power of five, inside the same array, without touching it |
| Scale10.ShiftedCopy | openscap-1.2.1/lib/vasnprintf.c:1226-1269 | m * 2^s in an array of its own |
| Scale10.MultiplyOrDivide | openscap-1.2.1/lib/vasnprintf.c:1144-1275 | the four cases of signs give one and the same number: m * 5^n * 2^s, rounded half to even |
| ScaledValue.FivesAndTwos | openscap-1.2.1/lib/vasnprintf.c:1089-1092 | 2^e * 10^n * m and 2^(e+n) * 5^n * m round to the same number |
| ScaledValue.FactorOutTens | openscap-1.2.1/lib/vasnprintf.c:1093-1103 | factoring out a power of ten is exact; it happens only where nothing is rounded |
| Scale10.ScaleRoundDecimal | openscap-1.2.1/lib/vasnprintf.c:1066-1284 | the digits denote m * 2^e * 10^n, rounded half to even, for every m and all e and n whose sum is an int |
| ExponentSearch.IsBorderline | openscap-1.2.1/lib/vasnprintf.c:1504-1516 | true exactly for the digits of 10^precision |
| SignificantDigits.SearchIsCanonical | openscap-1.2.1/lib/vasnprintf.c:4160-4213 | for a guess off by at most one, the search gives the digits and exponent that the standard asks for if and only if the guess is not too low for a number that is rounded up to a power of ten, nor too high for a number that is at most half of 10^guess while one digit is asked for |
| SignificantDigits.AccurateGuessSuffices | openscap-1.2.1/lib/vasnprintf.c:4160-4213 | every guess with 10^E / 2 < x < 10^(E+1) * 3 / 2 gives the same canonical pair |
| SignificantDigits.MillionthIsAccurate | openscap-1.2.1/lib/vasnprintf.c:1415-1502 | a guess with a relative error of a millionth at either end is accurate enough |
| SignificantDigits.CanonicalMeaning | openscap-1.2.1/lib/vasnprintf.c:4190-4213 | that pair has 10^p <= D < 10^(p+1), and D * 10^(X-p) is x rounded half to even to p + 1 significant digits |
| SignificantDigits.LowGuessAborts | openscap-1.2.1/lib/vasnprintf.c:4170-4192 | 9.5 to one digit with the guess -1 reaches abort: closeness within one is not enough |
| SignificantDigits.HighGuessGivesZero | openscap-1.2.1/lib/vasnprintf.c:4170-4213 | 4 to one digit with the guess 1 gives the digit 0 |
| ExponentSearch.DetermineDigits | openscap-1.2.1/lib/vasnprintf.c:4160-4213 | the loop, with its one adjustment, its aborts and the borderline check, does what the search function says; p + 1 digits come back |
| Layout.FixedReadsBack | openscap-1.2.1/lib/vasnprintf.c:4103-4137 | read back, the text of %f is the number of its digits over 10^p: exactly p digits after the point, no superfluous zero before it |
| Layout.ScientificReadsBack | openscap-1.2.1/lib/vasnprintf.c:4215-4268 | read back, the text of %e is its digits times 10^(X-p) |
| Layout.GeneralReadsBack | openscap-1.2.1/lib/vasnprintf.c:4362-4463 | read back, the text of %g is its digits times 10^(X-P+1); only trailing zeros are dropped, none with #, all after the point without |
| Layout.GeneralStyle | openscap-1.2.1/lib/vasnprintf.c:4371-4374 | %g shows an exponent if and only if X < -4 or X >= P |
| Layout.FixedPoint | openscap-1.2.1/lib/vasnprintf.c:4125-4134 | %f shows the point if and only if # is given or p > 0 |
| Layout.ScientificPoint | openscap-1.2.1/lib/vasnprintf.c:4216-4224 | so does %e |
| Layout.GeneralPoint | openscap-1.2.1/lib/vasnprintf.c:4379-4427 | %g shows the point if and only if # is given or digits are left after it |
| Layout.SignedReads | openscap-1.2.1/lib/vasnprintf.c:4526-4563 | a signed number is read through blanks around it and zeros after its sign |
| Layout.ReadingExample | openscap-1.2.1/lib/vasnprintf.c:4216-4268 | the reader, on one text: -1.25e+03 with a blank before it is -125 * 10 |
| Layout.ExponentRead | openscap-1.2.1/lib/vasnprintf.c:4229-4268 | the exponent text has a sign and at least two digits, no more digits than necessary, and reads as the exponent |
| Layout.ZerosBefore | openscap-1.2.1/lib/vasnprintf.c:4541-4550 | zeros in front of a number do not change what it reads as |
| NumberText.PutFixed | openscap-1.2.1/lib/vasnprintf.c:4116-4135 | the loops for %f write the text, digit by digit |
| NumberText.PutScientific | openscap-1.2.1/lib/vasnprintf.c:4215-4268 | the loops for %e write the text |
| NumberText.CountZeros | openscap-1.2.1/lib/vasnprintf.c:4363-4369 | the loop counts the trailing zeros |
| NumberText.PutGeneral | openscap-1.2.1/lib/vasnprintf.c:4362-4463 | the loops for %g write the text, in all three notations |
| NumberText.MoveRight | openscap-1.2.1/lib/vasnprintf.c:4541-4560 | moving the text right over itself, last character first, loses nothing |
| NumberText.PadInPlace | openscap-1.2.1/lib/vasnprintf.c:4526-4563 | the padded text is prefix, fill, body; its length is max (count, width) |
| NumberText.PaddingShape | openscap-1.2.1/lib/vasnprintf.c:4526-4563 | padding fills exactly what is missing to the width: blanks after the body with the - flag, else zeros between sign and body with the 0 flag if the body is a number, else blanks before both |
| NumberText.ZeroPaddingKeepsNumber | openscap-1.2.1/lib/vasnprintf.c:4541-4550 | padding with zeros keeps the sign in front and the number after it |
| Integers.IntOfIsSmall | openscap-1.2.1/lib/vasnprintf.c:1312-1317 | the conversion of a precision to int keeps what an int can hold and takes at least 2^32 from everything else |
| FloatFits.ScaledDigits | openscap-1.2.1/lib/vasnprintf.c:3543-3557 | x * 10^q has at most q + E + 2 digits, or q + 1 for a negative guess E, or one digit |
| FloatFits.TmpLengthIs | openscap-1.2.1/lib/vasnprintf.c:3512-3564 | tmp_length is max (max (digits, precision, digits of %f) + 12, width) + 1, or SIZE_MAX if that is larger; only the number of digits of %f wraps around |
| FloatFits.TmpLengthIsEnough | openscap-1.2.1/lib/vasnprintf.c:3512-3564 | a tmp_length that does not overflow exceeds the width and leaves 12 cells beside the digits |
| FloatFormat.TextExists | openscap-1.2.1/lib/vasnprintf.c:4170-4192 | with a good guess there is a text, except for %e and %g of a number other than zero with a precision that an int cannot hold: exactly there abort is reached |
| FloatFormat.TextFits | openscap-1.2.1/lib/vasnprintf.c:3558-3559 | a text takes no more than the room that is set aside for it, whatever the precision |
| FloatFormat.FixedIsRounded | openscap-1.2.1/lib/vasnprintf.c:4103-4137 | %f of m * 2^e, read back, has p digits after the point; it is x * 10^p rounded half to even, over 10^p, if and only if an int can hold p or x is zero |
| FloatFormat.HugePrecision | openscap-1.2.1/lib/vasnprintf.c:4109-4110 | with a precision of 2^32 the number 1 is shown as 10^-(2^32) |
| FloatFormat.ScientificIsSignificant | openscap-1.2.1/lib/vasnprintf.c:4139-4270 | %e, read back, is x rounded half to even to p + 1 significant digits, or zero with p places and exponent 0; the letter is that of the conversion; there is a text if and only if x is zero or an int can hold p |
| FloatFormat.GeneralIsSignificant | openscap-1.2.1/lib/vasnprintf.c:4271-4467 | %g, read back, is x rounded to P significant digits (P is p, or 1 for p = 0) with exponent X, less trailing zeros, or zero; exponent style exactly for X < -4 or X >= P; there is a text if and only if x is zero or an int can hold P - 1 |
| FloatFormat.PointFollowsFlag | openscap-1.2.1/lib/vasnprintf.c:4103-4467 | the # flag always gives a decimal point; without it a point is always followed by a digit; %f and %e show it exactly with # or with p > 0 |
| FloatFormat.NumberIsLaidOut | openscap-1.2.1/lib/vasnprintf.c:4047-4098 | the field of any number is blanks, a sign, zeros, the body, blanks: - exactly for a negative number, + exactly for another one with the + flag, a blank exactly for another one with the space flag alone; nan and inf in the case of the conversion and never padded with zeros |
| FloatFormat.SignIsRead | openscap-1.2.1/lib/vasnprintf.c:4080-4085 | a reader of signed numbers, which skips blanks at both ends, finds in the field of every finite number its own sign, and the number that is read in its text, whatever the flags and the width |
| FloatFormat.SixByDefault | openscap-1.2.1/lib/vasnprintf.c:3504-3510 | without a precision, %f has six digits after the point and %e as many, correctly rounded |
| FloatFormat.GuessDoesNotMatter | openscap-1.2.1/lib/vasnprintf.c:4160-4213 | two good guesses give the same text, for every conversion |
| FloatFormat.PutScientificNumber | openscap-1.2.1/lib/vasnprintf.c:4139-4270 | the branch for %e, zero included, writes that text or reaches the abort of the search |
| FloatFormat.PutGeneralNumber | openscap-1.2.1/lib/vasnprintf.c:4271-4467 | the branch for %g, zero included, likewise |
| FloatFormat.ReserveTmp | openscap-1.2.1/lib/vasnprintf.c:3512-3584 | the allocation fails exactly if tmp_length overflows |
| FloatFormat.FormatFloat | openscap-1.2.1/lib/vasnprintf.c:3512-4570 | with a good guess: memory is short exactly if tmp_length overflows; abort is reached exactly where the search gives up; otherwise sign, digits and padding need fewer than tmp_length cells, and the buffer holds the padded text |
| FormatParser.ReadNumber | openscap-1.2.1/lib/printf-parse.c:161-165 | the digit loop computes min (decimal value, SIZE_MAX) for any number of digits |
| FormatParser.ReadPosition | openscap-1.2.1/lib/printf-parse.c:153-175 | a positional argument is recognised, rejected for zero and for numbers too large |
| FormatParser.ReadFlags | openscap-1.2.1/lib/printf-parse.c:177-219 | the loop reads all flags and sets one bit each |
| FormatParser.ReadSize | openscap-1.2.1/lib/printf-parse.c:339-443 | the loop over size modifiers |
| FormatParser.Arguments.Reserve | openscap-1.2.1/lib/printf-parse.c:103-125 | the argument table grows so that the index fits, keeping its entries; it fails exactly when the size overflows |
| FormatParser.Arguments.RegisterArg | openscap-1.2.1/lib/printf-parse.c:100-132 | REGISTER_ARG: the index is in the table with the type; an earlier different type is an error |
| FormatParser.Directives.Append | openscap-1.2.1/lib/printf-parse.c:581-602 | a directive is stored in the free slot, and another free slot exists afterwards |
| FormatParser.ReadDirective | openscap-1.2.1/lib/printf-parse.c:138-579 | one directive, read as it is registered: what ParseDirective says. Which arguments it takes is in ArgumentOrder.ArgumentsInOrder, which texts it accepts in Acceptance.AcceptedExactly |
| FormatParser.PrintfParse | openscap-1.2.1/lib/printf-parse.c:83-632 | the whole parser: tables, lengths, and the end of the format in the slot after the last directive, for every format, as Parse says. What Parse is, told from the format alone: Acceptance.AcceptedExactly, ArgumentOrder.ArgumentsInOrder, ParserProperties.EveryDirectiveIsGrammatical, ParserProperties.ParseMaxima |
| ParserProperties.DirectiveEffect | openscap-1.2.1/lib/printf-parse.c:138-579 | what one directive does: it records what stands in the format, its arguments are in the table with the types it needs, types once registered stay, nothing else is registered |
| ParserProperties.ParseIsSound | openscap-1.2.1/lib/printf-parse.c:83-615 | after a parse that succeeds, directives are in order and disjoint, each starts at a % sign, the gaps hold none; every index is in the table with the type needed, TYPE_INT for a star; every typed slot is used; no width or precision is longer than the maximum recorded |
| ParserProperties.ParseMaxima | openscap-1.2.1/lib/printf-parse.c:613-614 | the maxima recorded are the lengths of the longest width and the longest precision of the directives, and no longer than the format |
| ParserProperties.RegisterExactly | openscap-1.2.1/lib/printf-parse.c:100-132 | REGISTER_ARG fails exactly for a different type at the index, or a table of SIZE_MAX bytes or more; otherwise the type stands at the index, new entries before it are empty, no other entry changes, and the capacity is the old one or max (2 * capacity, index + 1) |
| ParserProperties.DirectivesGrownExactly | openscap-1.2.1/lib/printf-parse.c:581-602 | the directive table doubles exactly when its last slot is used, and fails exactly if that takes SIZE_MAX bytes or more |
| ParserProperties.EveryDirectiveIsGrammatical | openscap-1.2.1/lib/printf-parse.c:138-579 | every parsed directive stands in the format as % and a text of the grammar of directives; its flags are the flag characters in it, its width and precision the texts in it, its conversion the letter, and its argument has the type that letter and modifiers ask for |
| ParserProperties.DirectivesAreThese | openscap-1.2.1/lib/printf-parse.c:138-563 | at a % sign a directive is scanned if and only if a text of the grammar follows |
| FormatGrammar.PiecesScanned | openscap-1.2.1/lib/printf-parse.c:145-443 | every text of the grammar, whatever follows it, is cut into the pieces that it was put together from |
| FormatGrammar.ScannedPieces | openscap-1.2.1/lib/printf-parse.c:145-563 | conversely, whatever is scanned as a directive is a text of the grammar with these pieces |
| FormatGrammar.FlagsMean | openscap-1.2.1/lib/printf-parse.c:177-219 | each flag is set if and only if its character occurs, however often |
| FormatGrammar.ModifiersMean | openscap-1.2.1/lib/printf-parse.c:337-563 | for any number and order of modifiers and each conversion: the type depends on how many modifiers widen, how many h there are, and whether there is an L; C and S are lc and ls |
| ArgumentOrder.ArgumentsInOrder | openscap-1.2.1/lib/printf-parse.c:221-576 | the references without a position, in the order of the format, with the star of a width before that of the precision and both before the conversion, take the arguments 0, 1, 2 and so on; a reference with a position n$ takes argument n - 1; other parts have no index |
| Acceptance.AcceptedExactly | openscap-1.2.1/lib/printf-parse.c:83-632 | if memory suffices, a format is accepted if and only if it consists of directives of the grammar and of other characters, and there is one type for each argument that suits all references |
| Acceptance.AllAcceptable | openscap-1.2.1/lib/printf-parse.c:83-632 | no such format is ever rejected, and memory suffices for all whose length and positions are below 2^56 |
| ParserProperties.ParseLosesNothing | openscap-1.2.1/lib/printf-parse.c:134-611 | gaps and directive texts together are the format |
| ParserProperties.ModifiersFollowStandard | openscap-1.2.1/lib/printf-parse.c:337-563 | each length modifier before each conversion asks for the type that section 7.19.6.1 of ISO/IEC 9899:1999 says |
| Reprint.PrintDirective | openscap-1.2.1/lib/vasnprintf.c:4754-4859 | the format for one directive and its NUL, written into the buffer of xsum4 (7, max width, max precision, 6) cells |
| Reprint.TextRead | openscap-1.2.1/lib/vasnprintf.c:4760-4859 | a printed directive, scanned again, has the flags, width, precision and conversion it was printed from, and nothing is left over |
| Reprint.PrintThenParse | openscap-1.2.1/lib/vasnprintf.c:4754-4859 | the printed format parses as one directive: its flags are those passed, less the 0 flag if the caller pads; its width and precision are the slices of the original format, or absent if the caller does them; same conversion, and the type up to promotion; its arguments are asked for in the order width, precision, conversion |
| Reprint.PrintedModifier | openscap-1.2.1/lib/vasnprintf.c:4823-4850 | the modifier printed is one that section 7.19.6.1 of ISO/IEC 9899:1999 defines for the conversion, and asks there for the promoted type |
| Reprint.EveryDirectiveReprints | openscap-1.2.1/lib/vasnprintf.c:1808-1811 | this holds for every directive of every format that parses, except n and %, and the buffer is always large enough |
| FetchArgs.Fetch | openscap-1.2.1/lib/printf-args.c:35-187 | the loop succeeds if and only if no slot is without a type; then every slot holds its argument: for char and short the value in -128..127, 0..255, -32768..32767 or 0..65535 that differs from it by a multiple of 256 or 65536, for a null text (NULL), for every other one the argument itself |
| FetchArgs.FetchedIsUnique | openscap-1.2.1/lib/printf-args.c:44-166 | there is only one value that a slot can hold |
| Integers.ToSignedIsCast | openscap-1.2.1/lib/printf-args.c:45-56 | the value cut to a narrower type is in its range and differs by a multiple of its size |
| FetchArgs.GapsAreUnused | openscap-1.2.1/lib/printf-args.c:182-184 | a slot is without a type if and only if no directive refers to it |
| FetchArgs.NothingAborts | openscap-1.2.1/lib/vasnprintf.c:1897-1936 | the checks before a directive is executed never abort after a parse that succeeds |
| FetchArgs.EveryArgumentIsUsed | openscap-1.2.1/lib/printf-args.c:41-186 | after parse and fetch every argument is used by some directive |
| FieldValues.ResolveWidth | openscap-1.2.1/lib/vasnprintf.c:3445-3472 | the width and flags: a negative argument is a - flag and its absolute value, digits saturate |
| FieldValues.ResolvePrecision | openscap-1.2.1/lib/vasnprintf.c:3474-3502 | the precision: a negative argument counts as none, a point alone as zero |
| FieldValues.WidthMeans | openscap-1.2.1/lib/vasnprintf.c:3445-3472 | the width is the absolute value of the number that stands in the directive or is passed for its star; the - flag is added if and only if that number is negative, and no other flag changes |
| FieldValues.PrecisionMeans | openscap-1.2.1/lib/vasnprintf.c:3474-3502 | there is no precision if and only if none stands in the directive or the one passed is negative; otherwise it is the number that stands there or is passed |
| FieldValues.WidthIsReady | openscap-1.2.1/lib/vasnprintf.c:3448-3471 | what resolving a width relies on holds after parse and fetch |
| FieldValues.PrecisionIsReady | openscap-1.2.1/lib/vasnprintf.c:3476-3501 | likewise for a precision |
| Output.OwnTextsGiveFormat | openscap-1.2.1/lib/vasnprintf.c:1870-1896 | if every directive stands for its own text, the output is the format |
| Output.TextIsConserved | openscap-1.2.1/lib/vasnprintf.c:1870-1896 | the output is as long as the format, less the directives, plus their expansions |
| Output.CountsAreLengths | openscap-1.2.1/lib/vasnprintf.c:1911-1936 | the counts are stored in the order of the %n directives; each is the length of the format before the directive, less the directives there, plus their texts |
| Output.CountIsCut | openscap-1.2.1/lib/vasnprintf.c:1913-1931 | a count is the length itself if its type, of 8, 16, 32 or 64 bits, can hold it, and otherwise the value in the range of the type that differs by a multiple of its size |
| Output.Accumulator.constructor | openscap-1.2.1/lib/vasnprintf.c:1828-1840 | starts with the buffer of the caller |
| Output.Accumulator.EnsureAllocation | openscap-1.2.1/lib/vasnprintf.c:1845-1868 | allocated >= needed afterwards, at least doubled if it grew, the text kept; it fails only if more than half of all memory is needed |
| Output.Accumulator.AppendGap | openscap-1.2.1/lib/vasnprintf.c:1872-1892 | a piece of the format is appended, however often the buffer grows |
| Output.Accumulator.AppendText | openscap-1.2.1/lib/vasnprintf.c:4572-4584 | a text is appended; the test of the room left is enough |
| Output.Accumulator.Finish | openscap-1.2.1/lib/vasnprintf.c:5535-5557 | the final NUL is inside the buffer, and shrinking keeps the text |
| Vasnprintf.ExecuteFloat | openscap-1.2.1/lib/vasnprintf.c:3404-4584 | %f, %e and %g: width, precision, buffer, text and padding of one number, appended; or no memory; or the abort of the search |
| Vasnprintf.ExecuteSystem | openscap-1.2.1/lib/vasnprintf.c:4586-4859 | every other conversion: snprintf is passed the directive rebuilt in the buffer and the arguments of stars and conversion, and its text is appended |
| Vasnprintf.SnprintfIsPassed | openscap-1.2.1/lib/vasnprintf.c:4754-4909 | the format passed parses as this one directive, with the flags, width and precision that stand in the whole format; and the arguments passed are as many as that format asks for, each in the place where it asks for it |
| Vasnprintf.ExpansionMeans | openscap-1.2.1/lib/vasnprintf.c:1896-1936 | %% expands to a % sign, %n to nothing, and what is not a number to the text that snprintf makes of such a format and such arguments |
| Vasnprintf.NumberField | openscap-1.2.1/lib/vasnprintf.c:3404-4570 | a number expands to a field that holds its text with its sign, padded to the width that stands in the directive or is passed for its star, a negative one to the left; with the precision that stands there or is passed, or six |
| Vasnprintf.TmpOverflowsExactly | openscap-1.2.1/lib/vasnprintf.c:3512-3578 | the buffer of a number is too large exactly if max (max (precision, digits of %f) + 12, width) + 1 is not less than SIZE_MAX |
| Vasnprintf.ModestFormatSucceeds | openscap-1.2.1/lib/vasnprintf.c:1870-1896 | if every number has a width and a precision below 2^31 and the output is less than half of all memory, the loop ends with the whole output and all counts |
| Vasnprintf.Execute | openscap-1.2.1/lib/vasnprintf.c:1896-1936 | one directive: % sign, %n with the length so far, a number, or a text from snprintf; the aborts of the type checks are not reached |
| Vasnprintf.WriteOutput | openscap-1.2.1/lib/vasnprintf.c:1870-1896 | the loop writes the gaps in order with every directive expanded, then NUL; every %n stores the length of what comes before it; length < allocated; otherwise something does not fit into memory, or a directive aborts |
| Vasnprintf.ReserveBuffer | openscap-1.2.1/lib/vasnprintf.c:1808-1829 | the buffer for directives has xsum4 (7, max width, max precision, 6) cells; it fails exactly if that overflows |
| Vasnprintf.Format | openscap-1.2.1/lib/vasnprintf.c:1772-5557 | the whole function: rejected for a bad format and for a gap in the positions, out of memory only if something is too large, an abort only where the search gives up, and the right text and counts otherwise |
| Memchr.ZeroByteTest | openscap-1.2.1/lib/memchr.c:117-147 | the word test is nonzero if and only if some byte of longword1 is zero |
| Memchr.WordTest | openscap-1.2.1/lib/memchr.c:111-147 | with repeated_c it is nonzero if and only if one of the eight bytes read is c, for either byte order |
| Memchr.RepeatedBytes | openscap-1.2.1/lib/memchr.c:89-109 | repeated_one holds 1, and repeated_c holds c, in every byte |
| Memchr.SkipWords | openscap-1.2.1/lib/memchr.c:142-153 | the words skipped do not hold c |
| Memchr.FirstIsUnique | openscap-1.2.1/lib/memchr.c:57-59 | there is one first occurrence, or none |
| Memchr.Search | openscap-1.2.1/lib/memchr.c:58-169 | for any bytes, any c and any alignment the result is the first occurrence, or NULL; no byte outside is read |

## Left out

- Decimal.ConvertToDecimal: does not write the final NUL, because the array may have no cell for it; its contract says when there is one. A digit string is an array and a count.
- FormatParser.ReadSize: the size flags are an unbounded number, not an int; a format would need 2^28 modifiers in one directive to tell.
- FormatParser.PrintfParse: the tables that are part of the structures and those on the heap are both arrays; freeing them is not modelled. The counters that are local variables in C are fields of a class, so that the methods for the parts of a directive can share them.
- ExponentSearch.DetermineDigits: the accuracy of the guess is asked of the caller by the theorems; `floorlog10`, `decode_double` and `decode_long_double` work on floating-point hardware and are not part of this model.
- FloatFormat.FormatFloat: the decimal point is a parameter, in place of the locale.
- Layout.ExponentRead: the exponent is laid out as the format %+.2d of the C standard says; sprintf itself is not part of this model.
- Vasnprintf.Format: what snprintf makes of a format and its arguments is a function that is a parameter; the retries with larger buffers, %n probing, and errno are not modelled. The value stored for %n is collected in a list, not written through a pointer.
- FetchArgs.Fetch: va_list is a sequence of promoted values.
- Memchr.Search: the longword has 64 bits; the branches for other widths are left out.
- The %a conversion, which the model leaves to snprintf, wide characters, multibyte texts and the unistdio directives: the same shapes on top of conversions that cannot be seen.
- The formulas for the buffer of sprintf (MAX_ROOM_NEEDED), which only serve systems without snprintf.
- getdelim.c, strsep.c and realloc.c, which would only add easy members.
- Everything outside `lib`: XML readers and writers, sessions and command lines.
