# Front-end helpers of `functions.ts`, in Dafny

This project models the deterministic core of a small library of front-end
helpers (`functions.ts`): the conversion of Persian numerals to ASCII
digits, the digit translation of today's Persian date, the token
substitution of a time format, millisecond arithmetic for a start date, the
`YYYY-MM-DD` rendering of a date, the scale selection of `shortenNumber`,
the regular-expression rewrite of `maskCurrency`, the integer-key filter
for keyboard events, row numbering of a list, and the choice lists of a
date picker. The clock, the locale service and the DOM are taken out: the
values the source reads from them are parameters.

Modules:

- `Text` (Text.dfy): the JavaScript string built-ins the helpers rely on —
  integer `toString`, `padStart`, `indexOf`, `replace` with a string
  pattern (first occurrence only), `split` and `join`.
- `Outcomes` (Outcomes.dfy): `Option` and `Result`, the latter carrying the
  JavaScript error a call throws.
- `PersianDigits` (PersianDigits.dfy): `persianToEnglishNumber` and the
  loops of `getTodayInPersian`.
- `TimeFormat` (TimeFormat.dfy): `getTimeFromTimeStamp`,
  `calculateStartDate` (with the `Date` range limit), `initialDateToString`.
- `NumberFormat` (NumberFormat.dfy): `shortenNumber`'s loop over exact reals.
- `CurrencyMask` (CurrencyMask.dfy): `maskCurrency`, with the regular
  expression's backtracking order modelled directly and proved equal to the
  declarative reading of the pattern.
- `InputFilter` (InputFilter.dfy): `englishEntegersCheck` over a
  `KeyEvent` class whose `preventDefault` sets a flag.
- `Lists` (Lists.dfy): `addRowToList` over items modelled as maps, and
  `filterDateConstants`.

Three behaviours of the code are worth stating plainly:

- `maskCurrency` places one separator per match of
  `(\d{1,maxLength-3})(,)?(\d{2})`, before the match's last two digits.
  It does not place one every two digits: with the defaults, `"1234567"`
  becomes `"12345,67"`.
- `getTimeFromTimeStamp` rewrites only the first occurrence of each token,
  in the fixed order hh, h, mm, m, ss, s, SSS. A repeated token is not
  rewritten twice: `"hh hh"` at 9 o'clock gives `"09 9h"`.
- `SSS` is padded to two characters, not three.

## Model

| member | source | states |
|---|---|---|
| `Text.NatToString` | functions.ts:19 | the decimal rendering is at least one ASCII digit, one digit exactly below 10, at most two below 100, and has no leading zero |
| `Text.NatToStringRoundTrip` | functions.ts:19 | reading the rendered digits back gives the number |
| `Text.IntToString` | functions.ts:85 | a non-negative year is rendered as ASCII digits that read back as the year; a negative one as '-' followed by digits that read back as its magnitude |
| `Text.Pad2` | functions.ts:18 | the padded field is at least two ASCII digits, and a value of two or more digits is left as `toString` renders it |
| `Text.PadStart` | functions.ts:18 | `padStart` yields max(length, width) characters, ends with the input and is filled with the filler in front |
| `Text.Pad2TwoDigits` | functions.ts:18 | a value below 100 padded to two is exactly two ASCII digits that read back as the value |
| `Text.LeadingZero` | functions.ts:83-84 | prefixing '0' keeps a digit string's value |
| `Text.IndexOfFrom` | functions.ts:18 | `indexOf` returns -1 exactly when the pattern does not occur, otherwise an occurrence with none before it |
| `Text.ReplaceFirst` | functions.ts:17-24 | `replace` with a string pattern rewrites only the first occurrence and leaves a string without an occurrence unchanged |
| `Text.ReplaceAt` | functions.ts:18 | when the pattern's first character does not occur earlier, exactly that occurrence is rewritten |
| `Text.ReplaceAbsent` | functions.ts:19 | a pattern whose first character is absent leaves the string unchanged |
| `Text.Split` | functions.ts:129 | `split` always yields at least one field |
| `Text.SplitJoin` | functions.ts:129 | the fields of a split hold no separator and join back to the input |
| `Text.Join` | functions.ts:85 | the joined string starts with the first field, followed by the separator when more fields follow |
| `Text.JoinSplit` | functions.ts:85 | joining separator-free fields and splitting again gives the fields back |
| `PersianDigits.Tables` | functions.ts:36-37 | entry i of the glyph table is the Persian numeral of value i and entry i of the digit table is ASCII digit i |
| `PersianDigits.InPersianNumbers` | functions.ts:38 | a string is found in the glyph table exactly when it is one Persian numeral |
| `PersianDigits.IndexOf` | functions.ts:38 | `indexOf` on an array gives -1 exactly when the string is absent, otherwise the first index holding it |
| `PersianDigits.PersianToEnglishNumber` | functions.ts:35-44 | a single Persian numeral becomes the ASCII digit of its value; every other string is returned unchanged |
| `PersianDigits.PersianToEnglishNumberTable` | functions.ts:36-41 | the glyph at index i becomes the digit at index i |
| `PersianDigits.PersianFiveExample` | functions.ts:35-41 | '۵' becomes '5' |
| `PersianDigits.PassThroughExamples` | functions.ts:43 | '5', 'a' and a two-numeral string pass through unchanged |
| `PersianDigits.PersianToEnglishNumberIdempotent` | functions.ts:35-44 | converting twice is converting once |
| `PersianDigits.Translated` | functions.ts:131-139 | what a `for…of` loop over a field builds has one code point per code point of the field |
| `PersianDigits.TranslatedAt` | functions.ts:131-139 | translating a field turns each Persian numeral into the digit of its value and keeps every other code point in place |
| `PersianDigits.NoPersianNumeralLeft` | functions.ts:131-139 | no Persian numeral remains in a translated field |
| `PersianDigits.PersianNumeralsBecomeDigits` | functions.ts:131-139 | a field written in Persian numerals becomes ASCII digits |
| `PersianDigits.TranslatedIdempotent` | functions.ts:131-139 | translating a translated field changes nothing |
| `PersianDigits.TranslateField` | functions.ts:131-133 | the `for…of` loop builds the code-point-by-code-point translation of the field |
| `PersianDigits.GetTodayInPersian` | functions.ts:127-145 | year, month and day are the translated first, second and third `/`-separated fields; with fewer than three fields the call throws a TypeError |
| `PersianDigits.TodayFields` | functions.ts:129 | a `y/m/d` string with slash-free fields splits into exactly y, m and d |
| `TimeFormat.GetTimeFromTimeStamp` | functions.ts:15-24 | a format holding no h, m or s and no `SSS` comes back unchanged; a lone `S` or `SS` is not a token |
| `TimeFormat.DefaultFormatIsHhMmSs` | functions.ts:15-24 | with `"hh:mm:ss"` and a valid time of day the result is eight characters: two-digit hour, minute and second separated by colons, each reading back as its value |
| `TimeFormat.DefaultFormatSteps` | functions.ts:17-24 | on the default format the seven replacements yield padded hour, minute and second joined by colons |
| `TimeFormat.RepeatedTokenRewrittenOnce` | functions.ts:18-19 | only first occurrences are rewritten: `"hh hh"` at 9 o'clock gives `"09 9h"` |
| `TimeFormat.MillisecondsPaddedToTwo` | functions.ts:22-24 | milliseconds are padded to two characters: `"ss.SSS"` with 7 s and 5 ms gives `"07.05"` |
| `TimeFormat.TimeClip` | functions.ts:12 | `new Date(t)` is valid exactly when abs(t) is at most 8.64e15, and then holds t |
| `TimeFormat.CalculateStartDate` | functions.ts:10-13 | the start lies exactly duration × 60000 ms before the end, and is an Invalid Date exactly when outside the Date range |
| `TimeFormat.StartDateComposes` | functions.ts:10-13 | going back d1 then d2 minutes equals going back d1 + d2 minutes |
| `TimeFormat.StartDateMonotone` | functions.ts:10-13 | a strictly longer duration gives a strictly earlier start |
| `TimeFormat.InitialDateToString` | functions.ts:78-86 | the result is the year, '-', two digits reading the month number, '-', two digits reading the day; for a non-negative year it splits on '-' into those three fields |
| `TimeFormat.DashJoined` | functions.ts:85 | where year, month and day sit in the '-'-joined string, and that a year of digits only splits back into the three parts |
| `NumberFormat.Divisions` | functions.ts:53-57 | the loop divides at most as many times as there are iterations |
| `NumberFormat.ShortenNumber` | functions.ts:46-60 | below the minimum the number comes back unchanged; otherwise the scaled value times 1000^k is the number, k being the number of divisions, and the postfix is the table entry at k (or '' when the loop ran out) |
| `NumberFormat.DivisionsBounds` | functions.ts:53-57 | every division is of a value of at least 1000, and an early stop leaves a value below 1000 |
| `NumberFormat.ScaleWhenBroken` | functions.ts:53-56 | when the loop breaks at k the number lies below 1000^(k+1) and, for k > 0, at or above 1000^k; the postfix is entry k |
| `NumberFormat.ScaleSaturates` | functions.ts:51-57 | the loop ends without breaking exactly when the number is at least 1000^7, and the postfix then stays '' |
| `NumberFormat.ScaleIsUnique` | functions.ts:53-57 | a number in [1000^k, 1000^(k+1)) with k < 7 is divided exactly k times |
| `NumberFormat.ShortenExamples` | functions.ts:46-60 | 1500 scales to 1.5 with 'K' and 2 500 000 to 2.5 with 'M' |
| `CurrencyMask.MaskPattern` | functions.ts:148-151 | a maximum length of 3 makes the pattern a SyntaxError; above 3 the first group takes 1..maxLength-3 digits |
| `CurrencyMask.LiteralBracesBelowThree` | functions.ts:149 | with a maximum length of 2 the braces `{1,-1}` are literal text |
| `CurrencyMask.MaskCurrency` | functions.ts:147-155 | the call throws a SyntaxError exactly when `maxLength` is 3 |
| `CurrencyMask.MatchAt` | functions.ts:149 | one attempt of the pattern at a position; what it finds is stated by `MatchAtIsFirstFit` |
| `CurrencyMask.Backtrack` | functions.ts:149 | the engine gives back the first group's digits one at a time, trying the comma first for each length; its order is stated by `BacktrackFindsFirst` |
| `CurrencyMask.Rewrite` | functions.ts:152-154 | the replacer `[p1, p3].join(radix)`: the first group, the radix, the last two digits; stated by `MatchShape` |
| `CurrencyMask.MaskFrom` | functions.ts:152-154 | the global replace: a match is rewritten and the scan resumes after it, otherwise one character is copied; stated by `NoMatchCopies` and `LeftmostMatch` |
| `CurrencyMask.LeadRun` | functions.ts:149 | the greedy first group takes every ASCII digit it can, up to its maximum |
| `CurrencyMask.BacktrackFindsFirst` | functions.ts:149 | backtracking over the first group's length finds the first fitting alternative in the engine's order, or none exactly when none fits |
| `CurrencyMask.MatchAtIsFirstFit` | functions.ts:149-152 | an attempt succeeds exactly when the pattern fits, choosing the longest first group and then the comma if it can be taken |
| `CurrencyMask.MatchBounds` | functions.ts:152 | a match lies inside the string, so the scan advances |
| `CurrencyMask.MatchShape` | functions.ts:149-154 | a match is 1..maxLength-3 digits, an optional ',' and two digits, at most maxLength-1 digits in all, rewritten as leading digits, radix, last two digits |
| `CurrencyMask.NoMatchCopies` | functions.ts:152 | where nothing matches the text is copied unchanged |
| `CurrencyMask.NoMatchUnchanged` | functions.ts:147-155 | a value in which the pattern matches nowhere is returned unchanged |
| `CurrencyMask.LeftmostMatch` | functions.ts:152-154 | text before the leftmost match is copied, that match is rewritten and the scan resumes right after it |
| `CurrencyMask.DigitRunMasked` | functions.ts:147-155 | a value that is wholly a run of 3 to maxLength-1 digits gets one separator before its last two digits |
| `CurrencyMask.LongDigitRunCut` | functions.ts:149-154 | a value that starts with at least maxLength-1 digits is cut after them and the scan resumes on the rest, whatever follows |
| `CurrencyMask.MaskExample` | functions.ts:147-155 | `"1234567"` becomes `"12345,67"` with the defaults |
| `InputFilter.IntegerKey` | functions.ts:28 | the test of `^-?[0-9]*$`, with the optional '-' taken first; its meaning is stated by `IntegerKeyIsSignedDigits` |
| `InputFilter.DigitsToEndIsAllDigits` | functions.ts:28 | `[0-9]*$` accepts exactly strings of ASCII digits |
| `InputFilter.IntegerKeyIsSignedDigits` | functions.ts:28 | a key passes `^-?[0-9]*$` exactly when it is digits or '-' followed by digits |
| `InputFilter.IntegerKeyExamples` | functions.ts:28 | "a", "--", "5-" and "Backspace" are rejected; "", "-", "7" and "-42" accepted |
| `InputFilter.KeyEvent.PreventDefault` | functions.ts:29 | the keystroke's default action is cancelled |
| `InputFilter.EnglishEntegersCheck` | functions.ts:27-33 | a rejected key gets `preventDefault` and nothing is returned; an accepted key returns the event and leaves it untouched |
| `Lists.AddRowToList` | functions.ts:74-76 | same length; item i keeps every other field and has `row` = i + 1 |
| `Lists.AddRowToListIdempotent` | functions.ts:74-76 | numbering twice is numbering once, since `row` is overwritten |
| `Lists.AddRowToListRoundTrip` | functions.ts:74-76 | removing `row` gives back items that had none |
| `Lists.PersianMonthsInOrder` | functions.ts:98-111 | twelve months numbered 1 to 12 in order |
| `Lists.DayChoices` | functions.ts:96 | `length` days numbered 1.. with label equal to value |
| `Lists.FilterDateConstants` | functions.ts:88-113 | ten years from year - 620 counting down, strictly decreasing, label equal to value; the days 1..length; the twelve months; a length beyond the array limit throws a RangeError |

## Left out

- `startInterval`, `sleep`, `setCookie`: a platform timer, a busy wait on the clock and a DOM cookie write; none has a result to state. (`setCookie` writes the literal key `cName` rather than the parameter's value.)
- `dateToPersian` and the Persian rendering of today in `getTodayInPersian`: they delegate to the platform's locale service; the rendered date string is a parameter.
- FilterDateConstants: the current Gregorian year, which `filterDateConstants` reads from the clock, is a parameter; the subtraction of 620 is modelled.
- `dateToGregorian`: its conversion is commented out and it returns nothing.
- `roundNumber`, the `Number(string)` parse and the `toFixed` rendering in `shortenNumber`: floating-point parsing and formatting.
- ShortenNumber: the value is an exact real, so the rounding of floating-point division by 1000 and `NaN` inputs are not modelled.
- CalculateStartDate: end date and duration are integers; fractional inputs and the rounding of the floating-point product are not modelled.
- GetTimeFromTimeStamp: the hour, minute, second and millisecond fields are parameters; reading them from a timestamp in the local time zone is not modelled. The digit strings substituted contain no `$`, so `replace`'s `$` patterns do not arise.
- MaskCurrency: `maxLength` is an integer; a fractional one, which makes the braces literal as well, is not modelled.
- AddRowToList: items are plain objects; spreading a non-object item (a string, a number) and the order of keys are not modelled.
- FilterDateConstants: `length` is an integer; fractional and non-numeric lengths are not modelled.
- The default arguments are constants: `DefaultTimeFormat`, `DefaultMaxLength`, `DefaultMinimumValue` and `DefaultDayCount`. `toFix = 3` only feeds `toFixed`, which is not modelled.
- InitialDateToString: the year, month index and day are parameters, as `Date` returns them.
