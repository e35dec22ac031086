# CronTimer in Dafny

A model of `CronTimer` (src/CronTimer.php), a small "next matching time" solver. A caller gives
up to six field criteria (`sec`, `min`, `hour`, `day`, `mon`, `year`) as strings and a
reference date-time. The solver walks the levels from second (0) to year (5) once. At each level
it looks for the least value above the field's current value, up to a fixed limit, that matches
that level's criterion. At the first level that has such a value, it writes the value, zeroes
every finer field and stops. A level without a value zeroes itself and the next coarser field,
and the walk moves on. A failure at the year level makes the result `false`.

Modules:

- `Results`: `Option` (where `None` is the source's `false`) and `Outcome`, which is a value or
  PHP's "Modulo by zero" error.
- `Criteria` (matchCriteria): a hand-written classifier turns a criterion string into a
  `Criterion`: `Any`, `Range`, `List`, `Every`, `Offset` or `Invalid`. It tries the patterns in
  the same order as the regular expressions do. `Matches` then evaluates the result. `PhpRem` is
  PHP's truncating `%`. `SubjectBody` models PCRE's `$`, which also matches just before one
  final line feed.
- `Calendar`: the six-field `Instant`, and the `DateTime` class that nextTime mutates, with
  `SetTime`, `SetDate` and `SetTimeUnit`. It also holds the three level tables (getUnitName,
  getLimitByLevel, getFormatByLevel).
- `CronTimer`: `NormalizeParams` (a loop filling a map), `FindNextValidValue` (a bounded scan
  with early return) and `NextTime` (a `for` loop over the levels with `continue` and `break`).
  Each is proved against its specification: the function `Normalized`, and the predicates
  `NoMatchIn`, `LevelFails`, `LevelThrows` and `SucceedsAt`. Lemmas show that NextTime's
  contract leaves exactly one possible result.
- `Examples`: the five calls of index.php, and one daily criterion, each with the result that NextTime's contract forces.

The model follows the code, which does not always do what its doc comment says. The code makes a
single pass: it has no carry that restarts the scan, no true month lengths, no step offsets and
no error for malformed criteria.
The doc comment promises the nearest future time. `Examples.SecondFortyCarry` shows a result
earlier than the reference, and `Examples.MinuteStep` shows a minute criterion that is never
looked at. `Examples.PastYear` shows that a past-year criterion still gives a time, not `false`.
None of this is proved to be a promise of the code. The else branch at lines 51-58 cannot be
reached: `NextTime` proves it dead with `assert false`.

## Model

| member | source | states |
|---|---|---|
| `Criteria.MatchCriteria` | src/CronTimer.php:99-122 | matchCriteria raises the modulo-by-zero error for a value exactly when the classified criterion divides by zero; what it holds for, form by form, is stated by the criterion lemmas below |
| `Criteria.Classify` | src/CronTimer.php:101-121 | only the exact text "*" takes the wildcard branch; every other string is tried against the four patterns in the source's order |
| `Criteria.RecognisedShape` | src/CronTimer.php:105-119 | a criterion that takes one of the four numeric branches is, a final line feed aside, a non-empty string of digits, `,`, `-` and `/` that ends in a digit |
| `Criteria.OnlyRecognisableMatches` | src/CronTimer.php:101-121 | matchCriteria holds only for "*" or for a criterion of that shape |
| `Criteria.Split` | src/CronTimer.php:110 | explode returns at least one piece |
| `Criteria.JoinSplit` | src/CronTimer.php:110 | joining the pieces of explode with the separator gives the string back, and no piece holds the separator |
| `Criteria.SplitJoin` | src/CronTimer.php:110 | explode undoes joining pieces that do not hold the separator |
| `Criteria.Matches` | src/CronTimer.php:99-122 | evaluating a classified criterion raises the modulo-by-zero error exactly for "/0", and for "A/0" with A other than "0" |
| `Criteria.TruncatedRemainder` | src/CronTimer.php:114-118 | r is PHP's `%` of a by a positive n exactly when a - r is a multiple of n, r has the sign of a and is smaller than n in magnitude: the remainder of division truncated toward zero, and no other value |
| `Criteria.ClassifyRange` | src/CronTimer.php:105-107 | a string of two digit runs around one `-` takes the range branch and captures both numbers |
| `Criteria.ClassifyList` | src/CronTimer.php:109-111 | a comma-joined list of digit runs, or a bare number, takes the list branch (not the range branch) and captures every number in order |
| `Criteria.ClassifyEvery` | src/CronTimer.php:113-115 | "/" followed by a digit run takes the `/N` branch and captures N |
| `Criteria.ClassifyOffset` | src/CronTimer.php:117-119 | "A/N" with digit runs A and N takes the last branch and keeps only whether A is the text "0", together with N |
| `Criteria.StarCriterion` | src/CronTimer.php:101-103 | "*" matches every value |
| `Criteria.RangeCriterion` | src/CronTimer.php:105-107 | "A-B" matches v exactly when A <= v <= B, so nothing matches when A > B |
| `Criteria.ListCriterion` | src/CronTimer.php:109-111 | a list or bare number matches v exactly when v equals the value of one of its entries |
| `Criteria.BareNumberCriterion` | src/CronTimer.php:109-111 | a bare number matches exactly the value it denotes |
| `Criteria.ListOrderIrrelevant` | src/CronTimer.php:109-111 | two lists with the same entries, in any order and with any repetition, match the same values |
| `Criteria.EveryCriterion` | src/CronTimer.php:113-115 | "/N" matches exactly the multiples of N; N = 0 raises the modulo-by-zero error |
| `Criteria.OffsetCriterion` | src/CronTimer.php:117-119 | "A/N" matches every value when A is exactly "0"; otherwise exactly the multiples of N whatever A is, and N = 0 raises the error |
| `Criteria.UnrecognisedCriterion` | src/CronTimer.php:121 | a criterion other than "*" whose text, a final line feed aside, is empty, does not end in a digit, or holds a character other than a digit, `,`, `-` and `/` (such as "", "5,", "/", "1-", "a") matches no value |
| `Criteria.RepeatedSeparatorCriterion` | src/CronTimer.php:105-121 | a criterion with two `-` or two `/` (such as "1-2-3", "1/2/3") fits no pattern and matches no value |
| `Criteria.FinalNewlineIgnored` | src/CronTimer.php:105-119 | one final line feed does not change what a criterion other than "*" matches |
| `Calendar.WithUnit` | src/CronTimer.php:149-171 | writing a level replaces that level's field and leaves the other five; a level outside 0..5 changes nothing |
| `Calendar.UnitName` | src/CronTimer.php:179-183 | the key read for each level is one of the six keys that normalizeParams fills in |
| `Calendar.UnitNamesDistinct` | src/CronTimer.php:179-183 | different levels read different criteria |
| `Calendar.LimitByLevel` | src/CronTimer.php:191-195 | every limit is positive; the day limit is 31 for every month |
| `Calendar.FormatByLevel` | src/CronTimer.php:203-207 | the format letter of a level reads back exactly the field that setTimeUnit writes for that level |
| `Calendar.DateTime.constructor` | src/CronTimer.php:18 | the date-time object starts as the parsed reference instant |
| `Calendar.DateTime.SetTime` | src/CronTimer.php:153-159 | setTime writes hour, minute and second and leaves the date |
| `Calendar.DateTime.SetDate` | src/CronTimer.php:162-168 | setDate writes year, month and day and leaves the time |
| `Calendar.DateTime.SetTimeUnit` | src/CronTimer.php:149-171 | the object afterwards is the old instant with just the level's field replaced |
| `CronTimer.Normalized` | src/CronTimer.php:70-90 | the six keys are always present; a non-empty array keeps all its entries and values and gets "*" for each missing key; an empty array or non-array gives exactly the six keys, all "*" |
| `CronTimer.NormalizedIdempotent` | src/CronTimer.php:70-90 | normalising twice gives the same map as normalising once |
| `CronTimer.NormalizeParams` | src/CronTimer.php:70-90 | the loop over the default keys computes `Normalized` |
| `CronTimer.CriterionAt` | src/CronTimer.php:15-26 | the criterion read for a level is the caller's entry under that level's key when there is one, and "*" otherwise |
| `CronTimer.FindNextValidValue` | src/CronTimer.php:132-140 | returns false exactly when no value in (current, limit] matches; otherwise it returns the least matching value in that range, which is above current and at most limit; it raises the error exactly when the range is non-empty and the criterion divides by zero |
| `CronTimer.NextTime` | src/CronTimer.php:12-62 | false exactly when the reference does not parse or every level, the year last, finds no value; on success at some level L, every finer level failed, field L holds the least matching value above its scan start and at most L's limit, finer fields are 0 and coarser fields are the reference's, unchecked; an error only at the first level reached whose criterion divides by zero |
| `CronTimer.ThrowingLevelDoesNotFail` | src/CronTimer.php:29-30 | a level whose criterion divides by zero raises and never reports "no value" |
| `CronTimer.SuccessIsUnique` | src/CronTimer.php:44-50 | the search can stop at only one level and with only one instant |
| `CronTimer.SuccessExcludesOtherOutcomes` | src/CronTimer.php:30-50 | when the search can stop somewhere, it neither returns false nor raises |
| `CronTimer.WildcardSecondStep` | src/CronTimer.php:23-50 | with "*" for seconds and a second below 59, the result is the reference plus one second |
| `CronTimer.WildcardCarry` | src/CronTimer.php:36-50 | when every finer level failed and a level has "*", the search stops there with value 1, because the failure below reset that field to 0 |
| `CronTimer.BareNumberStops` | src/CronTimer.php:29-50 | a bare number N at a reached level stops the search there with N when N lies above the scan start and within the limit |
| `CronTimer.BareNumberFails` | src/CronTimer.php:29-40 | a bare number at or below the scan start, or above the limit, makes its level fail |
| `CronTimer.SuccessIsCarried` | src/CronTimer.php:44-50 | the instant the search stops with at a level is the reference with that level's field set to the value found and every finer field 0 |
| `Examples.NoCriteria` | index.php:8-9 | no criteria from 01.01.2024 10:00:00 gives 10:00:01 |
| `Examples.SecondFifteen` | index.php:11-12 | sec 15 from 01.01.2024 10:00:00 gives 10:00:15 |
| `Examples.SecondFifteenStops` | index.php:11-12 | for that call the search stops at the seconds with 15 |
| `Examples.MinuteStep` | index.php:14-15 | min "5/10" from 01.01.2024 10:00:00 gives 10:00:01; the minute criterion is not consulted |
| `Examples.PastYear` | index.php:17-18 | year 2023 from 01.01.2024 10:00:00 gives 01.01.2024 10:00:01, not false |
| `Examples.SecondFortyCarry` | index.php:20-21 | sec 40 from 18.08.2024 10:10:40 gives 18.08.2024 10:01:00, earlier than the reference |
| `Examples.SecondFortyStops` | index.php:20-21 | for that call the seconds fail and the search stops at the minutes with 1 |
| `Examples.DailyMidnight` | src/CronTimer.php:29-50 | sec, min and hour "0" from 15.04.2024 10:20:30 give 01.04.2024 00:00:00 under plain field writes |
| `Examples.DailyMidnightStops` | src/CronTimer.php:29-50 | for that call the three time levels fail and the search stops at the day with 1 |

## Left out

- Parsing the reference string with `DateTime::createFromFormat` and formatting the result with `format('d.m.Y H:i:s')` (lines 18, 61) are not modelled. NextTime takes the parsed instant, or None where parsing fails, and returns the six-field instant.
- The ambient clock (`new DateTime()` when `$currentTime` is null or another falsy value) is not modelled: the caller always supplies the instant.
- `Calendar.DateTime.SetTime`, `Calendar.DateTime.SetDate`: write the given values as they are. PHP's roll-over of out-of-range dates is library behaviour outside this code. That covers day 31 in a shorter month, day or month 0 written at lines 38-39, and 29 February in another year. With roll-over, the value a later level reads can differ from the 0 the model reads, so NextTime's contract holds for plain writes only. Every search that reaches the day level is affected, and an ordinary daily criterion reaches it: for sec, min and hour "0" from 15.04.2024 10:20:30 the model gives 01.04.2024 00:00:00 (`Examples.DailyMidnight`), while by PHP's documented handling of day 0 and month 0 (nothing was executed) the code gives 30.11.2023 00:00:00. Searches that stop at the second, minute or hour level write no date field and are not affected.
- `Criteria.Matches`: a divisor of 0 is modelled as PHP 7+ raises it (DivisionByZeroError, propagated out of nextTime). PHP 5's warning-and-false behaviour is not modelled.
- PHP loose typing is not modelled: integer or null criterion values, and `in_array`'s loose comparison beyond numeric equality. Criteria are strings. index.php's `['sec' => 15]` is written as "15".
- Integer width is not modelled: numbers are unbounded. A digit string beyond PHP_INT_MAX, which PHP turns into a float, is not covered.
- `Criteria.UnrecognisedCriterion`, `Criteria.RepeatedSeparatorCriterion`: together they do not cover every string over digits, `,`, `-` and `/` that fits no pattern. Others, such as "-5", ",5" or "1,2-3", are `Invalid` by `Classify`'s definition but have no lemma of their own.
- The PCRE engine is replaced by a classifier over the characters `\d`, `,`, `-`, `/` and `*`, in the same pattern order. Locale-dependent `\d` is not modelled.
- Key order of PHP arrays is not modelled: criteria are looked up by key only.
- The doc comment's promise of the nearest future time (line 6) is not proved, because the code does not keep it (see `Examples.SecondFortyCarry`).
