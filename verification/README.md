# Numerology calculator — a Dafny model

This project models the calculation core of a small numerology app. From a
person's name and birth date it computes four numbers:

- the **life path** number, from every digit of the date written `YYYY-MM-DD`;
- the **birth day** number, from the day of the month;
- the **expression** number, from every letter of the name;
- the **soul urge** number, from the vowels A, E, I, O, U of the name.

Each number goes through **digit reduction**. The value is replaced by the
sum of its decimal digits until it is at most 9 or is one of the **master
numbers** 11, 22 or 33. Letters are worth 1..9 through the Pythagorean
cipher (A..I = 1..9, J..R = 1..9, S..Z = 1..8), in either case; every
other character is worth 0. The life path number has an interpretation text
in a fixed table; any other (role, number) pair gets a placeholder text.
The values that occur more than once among the four numbers are reported
once each, in order of first occurrence. An empty name is refused with a
warning, and nothing is computed.

Modules, in dependency order:

- `decimal.dfy` (`Decimal`): digit characters, `str(n)` (`DecimalString`),
  the digit sum on numbers (`DigitSum`) and on text (`DigitTotal`), zero
  padding, and casting out nines.
- `reduction.dfy` (`Reduction`): `Reduce`, the recursive specification of the
  reduction, and `ReduceNumber`, the source's `while` loop proved against it.
- `cipher.dfy` (`Cipher`): the letter table and `CharToNum`.
- `numbers.dfy` (`Numbers`): dates and their `%Y-%m-%d` text, and the four
  derived numbers.
- `meanings.dfy` (`Meanings`): the interpretation table and its lookup.
- `repetition.dfy` (`Repetition`): counting and the repeated-value list.
- `diagnosis.dfy` (`Diagnosis`): one form submission, from name and date to
  the displayed reading.

`reduce_number(0)` returns 0, so on natural numbers `Reduce` has the range
{0..9, 11, 22, 33}, with 0 exactly for input 0; a negative input comes back
unchanged. For the same reason, a name with no letters
(such as `"123"`) has expression number 0, as the contract of
`ExpressionNumber` states. For every date the picker offers, the life path is never 0
(`LifePathRange`).

## Model

| member | source | states |
|---|---|---|
| `Decimal.DigitValue` | numerology_app_no_pdf_20250406_063923.py:29 | `int(d)` of one digit character is in 0..9 |
| `Decimal.DigitSum` | numerology_app_no_pdf_20250406_063923.py:29 | the digit sum of `n` is at most `n`, strictly below `n` once `n > 9` (so the loop terminates), and positive when `n` is positive |
| `Decimal.DecimalString` | numerology_app_no_pdf_20250406_063923.py:29 | `str(n)` is non-empty, made of digits only, and starts with '0' exactly when `n` is 0 |
| `Decimal.DecimalRoundTrip` | numerology_app_no_pdf_20250406_063923.py:29 | reading back `str(n)` digit by digit gives `n` |
| `Decimal.DigitTotalOfDecimal` | numerology_app_no_pdf_20250406_063923.py:29 | summing `int(d)` over the characters of `str(n)` is the arithmetic digit sum of `n` |
| `Decimal.DigitTotal` | numerology_app_no_pdf_20250406_063923.py:33 | the sum of the digits of a text is at most 9 per character |
| `Decimal.DigitTotalAppend` | numerology_app_no_pdf_20250406_063923.py:33 | the digit total of a concatenation is the sum of the digit totals of its parts |
| `Decimal.DigitSumMod9` | numerology_app_no_pdf_20250406_063923.py:28-29 | one reduction step keeps the value modulo 9: `n - DigitSum(n)` is a multiple of 9 |
| `Decimal.DecimalStringLength` | numerology_app_no_pdf_20250406_063923.py:80 | a number below 10^k is written with at most k digits |
| `Decimal.ZeroPad` | numerology_app_no_pdf_20250406_063923.py:80 | padding yields the requested width (or the text itself when longer), zeros in front and the text at the end |
| `Decimal.ZeroPadDigitTotal` | numerology_app_no_pdf_20250406_063923.py:80 | padding zeros add nothing to the digit total |
| `Decimal.NinesCastOut` | numerology_app_no_pdf_20250406_063923.py:29 | a number minus its digit sum is exactly nine times a natural number, so the digit sum keeps the residue modulo 9 |
| `Decimal.DigitSumExamples` | numerology_app_no_pdf_20250406_063923.py:29 | the digit sums of 1990, 5 and 15 are 19, 5 and 6 |
| `Reduction.Reduce` | numerology_app_no_pdf_20250406_063923.py:27-30 | the result is a stopping value (at most 9, or 11, 22 or 33); it is non-negative for non-negative input, and 0 exactly when the input is 0 |
| `Reduction.ReduceNumber` | numerology_app_no_pdf_20250406_063923.py:27-30 | the `while` loop that replaces `n` by the digit sum of `str(n)` ends with `Reduce(n0)`, a stopping value |
| `Reduction.ReduceFixedPoints` | numerology_app_no_pdf_20250406_063923.py:28 | the reduction leaves `n` unchanged exactly when `n` is at most 9 or a master number (29 stops at 11 and goes no further) |
| `Reduction.ReduceIdempotent` | numerology_app_no_pdf_20250406_063923.py:27-30 | reducing a reduced value changes nothing |
| `Reduction.ReduceMod9` | numerology_app_no_pdf_20250406_063923.py:28-29 | the result is congruent to the input modulo 9 |
| `Reduction.DigitalRootOrMaster` | numerology_app_no_pdf_20250406_063923.py:27-30 | for positive `n` the result is in 1..9 or a master number; a single-digit result is the digital root `1 + (n - 1) % 9` |
| `Reduction.ReduceExamples` | numerology_app_no_pdf_20250406_063923.py:27-30 | 0, 9 and 10 give 0, 9 and 1; 29 and 38 stop at 11; 49 gives 4 and 30 gives 3 |
| `Cipher.Upper` | numerology_app_no_pdf_20250406_063923.py:25 | `c.upper()` turns a lower-case letter into its upper-case letter and leaves every other character as it is |
| `Cipher.CharToNum` | numerology_app_no_pdf_20250406_063923.py:13-25 | a letter, in either case, is worth its alphabet index modulo 9, plus one (so 1..9); every other character is worth 0 |
| `Cipher.TableFollowsRows` | numerology_app_no_pdf_20250406_063923.py:14-24 | the table's keys are exactly the 26 upper-case letters, each mapped to its alphabet index modulo 9, plus one |
| `Cipher.CaseInsensitive` | numerology_app_no_pdf_20250406_063923.py:25 | a character and its upper-case form are worth the same |
| `Numbers.DaysInMonth` | numerology_app_no_pdf_20250406_063923.py:71-76 | a month of the picked date has 28 to 31 days |
| `Numbers.FormatDate` | numerology_app_no_pdf_20250406_063923.py:80 | `strftime('%Y-%m-%d')`: the digits of the formatted date add up to the digit sums of year, month and day |
| `Numbers.FormatDateShape` | numerology_app_no_pdf_20250406_063923.py:80 | `strftime('%Y-%m-%d')` gives ten characters: digits, with '-' at positions 4 and 7 |
| `Numbers.Without` | numerology_app_no_pdf_20250406_063923.py:33 | `replace('-', '')` leaves no '-' and does not lengthen the text |
| `Numbers.WithoutContents` | numerology_app_no_pdf_20250406_063923.py:33 | every character other than '-' is kept, exactly as often as it occurs in the text |
| `Numbers.WithoutKeepsDigitTotal` | numerology_app_no_pdf_20250406_063923.py:33 | removing the dashes does not change the sum of the digits |
| `Numbers.LifePathNumber` | numerology_app_no_pdf_20250406_063923.py:32-34 | the life path of a date text is a stopping value, non-negative, 0 exactly when the text has no nonzero digit, and congruent modulo 9 to the sum of its digits (the dashes count for nothing) |
| `Numbers.BirthDayNumber` | numerology_app_no_pdf_20250406_063923.py:36-37 | the birth day number is a stopping value; for a natural day it is 0 only for day 0 and congruent to the day modulo 9; a negative day comes back unchanged |
| `Numbers.LifePathOfDate` | numerology_app_no_pdf_20250406_063923.py:32-34 | the life path of a formatted date is the reduction of the digit sums of year, month and day together |
| `Numbers.LifePathRange` | numerology_app_no_pdf_20250406_063923.py:32-34 | for every date the picker offers, the life path is in {1..9, 11, 22, 33} |
| `Numbers.BirthDayRange` | numerology_app_no_pdf_20250406_063923.py:36-37 | a day of month 1..31 reduces to 1..9, 11 or 22 |
| `Numbers.UpperLetters` | numerology_app_no_pdf_20250406_063923.py:40 | the letters of a name, upper-cased, are all upper-case letters, and there are no more of them than characters |
| `Numbers.UpperLettersContents` | numerology_app_no_pdf_20250406_063923.py:40 | each upper-case letter occurs among the upper-cased letters exactly as often as the name holds it in either case |
| `Numbers.LetterTotal` | numerology_app_no_pdf_20250406_063923.py:40 | the letter total is at most 9 per character and is 0 exactly when the name has no letter |
| `Numbers.ExpressionNumber` | numerology_app_no_pdf_20250406_063923.py:39-40 | the expression number is a non-negative stopping value, congruent to the letter total modulo 9, and 0 exactly when the name has no letter |
| `Numbers.VowelTotal` | numerology_app_no_pdf_20250406_063923.py:42-44 | the vowel total never exceeds the letter total and is 0 exactly when the name has no vowel (A, E, I, O, U in either case) |
| `Numbers.SoulUrgeNumber` | numerology_app_no_pdf_20250406_063923.py:42-44 | the soul urge number is a non-negative stopping value, congruent to the vowel total modulo 9, and 0 exactly when the name has no vowel |
| `Numbers.LetterTotalIsCipherSum` | numerology_app_no_pdf_20250406_063923.py:39-40 | the expression total is the cipher sum of the upper-cased letters of the name |
| `Numbers.ExpressionDependsOnlyOnLetters` | numerology_app_no_pdf_20250406_063923.py:39-40 | two names with the same upper-cased letters have the same expression number |
| `Numbers.ExpressionIgnoresNonLetter` | numerology_app_no_pdf_20250406_063923.py:39-40 | inserting a space, punctuation or any non-letter leaves the expression number unchanged |
| `Numbers.ExpressionIgnoresCase` | numerology_app_no_pdf_20250406_063923.py:39-40 | upper-casing the name leaves the expression number unchanged |
| `Numbers.VowelTotalByCounts` | numerology_app_no_pdf_20250406_063923.py:42-44 | the soul urge total is 1·#A + 5·#E + 9·#I + 6·#O + 3·#U, counting in either case; consonants and non-letters add nothing |
| `Numbers.LifePathExample` | numerology_app_no_pdf_20250406_063923.py:32-34 | 1990-05-15 has life path 3 |
| `Numbers.NameExamples` | numerology_app_no_pdf_20250406_063923.py:39-44 | "ABC" has expression 6 and soul urge 1 |
| `Numbers.SpacingExample` | numerology_app_no_pdf_20250406_063923.py:39-40 | "a-b c" has the same expression number as "ABC": the hyphen and the space count for nothing and case does not matter |
| `Meanings.GetNumberMeaning` | numerology_app_no_pdf_20250406_063923.py:47-64 | the lookup is total; it returns a table text exactly when the role is `"life_path"` and the number is in {1..9, 11, 22, 33}, and the placeholder otherwise |
| `Meanings.LifePathMeaningOf` | numerology_app_no_pdf_20250406_063923.py:49-62 | for "life_path" and a number in {1..9, 11, 22, 33}, the lookup returns the table entry of that very number |
| `Meanings.LifePathKeys` | numerology_app_no_pdf_20250406_063923.py:49-62 | the life path table has exactly the keys 1..9, 11, 22, 33, and no entry is the placeholder |
| `Meanings.LifePathMeaningsDistinct` | numerology_app_no_pdf_20250406_063923.py:50-61 | different life path numbers have different texts |
| `Repetition.Count` | numerology_app_no_pdf_20250406_063923.py:94 | a count is at most the length, and positive exactly for values present |
| `Repetition.Distinct` | numerology_app_no_pdf_20250406_063923.py:94 | the counter's keys: every value of the list once, in order of first occurrence |
| `Repetition.KeepRepeated` | numerology_app_no_pdf_20250406_063923.py:95 | the filter keeps exactly the keys whose count is above one, and adds no duplicates |
| `Repetition.KeepRepeatedOrder` | numerology_app_no_pdf_20250406_063923.py:95 | the filter keeps the first-occurrence order of the keys |
| `Repetition.Repeated` | numerology_app_no_pdf_20250406_063923.py:93-95 | the repeated list holds exactly the values that occur at least twice, each once, in order of first occurrence |
| `Repetition.CountAtLeastTwo` | numerology_app_no_pdf_20250406_063923.py:95 | a value occurs at least twice exactly when two different positions hold it |
| `Repetition.RepeatedNonEmptyIffPair` | numerology_app_no_pdf_20250406_063923.py:93-96 | some value is reported exactly when two of the numbers are equal |
| `Repetition.RepeatedExample` | numerology_app_no_pdf_20250406_063923.py:93-95 | the numbers 5, 5, 3, 7 report exactly 5 |
| `Diagnosis.Diagnose` | numerology_app_no_pdf_20250406_063923.py:78-100 | the submission is refused exactly when the name is empty; otherwise the life path is that of the `%Y-%m-%d` text of the date, the birth day that of its day, expression and soul urge those of the name, the text is the life path interpretation, and the repeated list holds exactly the values occurring at least twice among the four numbers, once each, in order of first occurrence |
| `Diagnosis.DiagnosisOfPickerDate` | numerology_app_no_pdf_20250406_063923.py:79-90 | for a non-empty name and a picker date, the life path is in {1..9, 11, 22, 33} and always has a table text; the birth day is in {1..9, 11, 22}; the name numbers are non-negative stopping values; the expression is 0 exactly when the name has no letters and the soul urge exactly when it has no vowels |
| `Diagnosis.NoticeIffTwoEqual` | numerology_app_no_pdf_20250406_063923.py:93-98 | a repetition notice is shown exactly when two of the four numbers coincide |

## Left out

- The page layout and widgets (title, text field, date picker, button, result and notice texts) are left out. They are calls into an external UI toolkit. `Diagnose` stands for one press of the button, with the name and the picked date as parameters.
- The locale setting is left out. It is a best-effort OS call with no effect on the numbers.
- Python's Unicode character classes are modelled on ASCII only. Letters are A-Z and a-z, digits are '0'-'9', and `upper` changes only a-z. In Python, two non-ASCII Latin letters upper-case to an ASCII letter: U+0131 (dotless i) becomes 'I' and U+017F (long s) becomes 'S'. Python therefore counts them as 9 and 1 in the expression number, and U+0131 as a vowel as well. The model counts them as 0. In the life path, Python's `isdigit` also accepts non-ASCII decimal digits, which `int(d)` reads, and non-decimal digits such as '²', on which `int(d)` raises `ValueError`; the model counts both as 0. Neither can occur in text that `strftime` produced.
- The date library is left out. A date is a (year, month, day) triple, and `strftime('%Y-%m-%d')` is modelled as zero-padded decimal formatting. Years below 1000, where platform `strftime` implementations differ, are outside the picker's range.
- `get_number_meaning` accepts any hashable Python value as the role and the number; an unhashable one makes the dictionary lookup raise `TypeError`, which is not modelled. The model takes a string and an integer, which is what every caller passes.
- The internals of `Counter` are left out. Its keys are modelled as the distinct values in order of first occurrence, and its counts as `Count`.
- The interpretation texts are kept as the same literal strings, and the model proves nothing about their wording.
