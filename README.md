# Date windows of a vaccination planner

This project is a Dafny model of the date-window logic in `index.js` of a vaccination
planner. That logic does four things:

- It reads offset texts such as "4 months, 2 weeks" into a `TimeSpan` record (`parseTimeSpan`
  and the `TimeSpan` constructor with its `formatted` description).
- It moves a date by such an offset (`TimeSpan.prototype.addTo` and the `Date.prototype`
  helpers `addTime`, `addDays`, `addWeeks`, `addMonths`, `addYears` and `addTimeSpan`).
- It turns dated entries into contiguous named ranges and looks a date up in them
  (`createDateRanges` and its `find`).
- It shapes the five dose-age fields of a record into such ranges, the last one ending
  999 years after birth (`makeTimeSpanArray` and `DataShaper.convertTimeSpansToDateRanges` /
  `convertAgeToDateRanges`).

Modules, one per file:

- `JsValues` (`js_values.dfy`) holds the JavaScript values passed around: a text that may be
  `undefined`, its ToString, and truthiness.
- `Calendar` (`calendar.dfy`) counts a date in whole days since 1970-01-01. Its calendar fields
  and `MakeDay` follow section 21.4.1 of ECMA-262, so months and days out of range roll over as
  `setMonth`, `setFullYear` and `setDate` make them. `AddDays`, `AddWeeks`, `AddMonths` and
  `AddYears` are the `Date.prototype` helpers.
- `TimeSpanParser` (`timespan_parser.dfy`) holds the regular expression of line 33:
  - `MatchAt` is the match found when the pattern is tried at one position.
  - `Exec` is the leftmost match at or after `lastIndex`.
  - `Matches` is the sequence of matches the loop visits.
  - `ParseTimeSpan` is the `while` loop itself, proved equal to `ParseSpec`.
- `TimeSpans` (`timespan.dfy`) holds the `TimeSpan` record, `formatted`, and `AddTo` and
  `AddTimeSpan` as methods that update the working date step by step.
- `DateRanges` (`date_ranges.dfy`) holds `CreateDateRanges` as a method: it pushes the entries,
  sorts them, sets the ends in a loop and patches the last end. It is proved equal to the
  function `Ranges`. `Find` is the lookup.
- `DataShaper` (`data_shaper.dfy`) holds `MakeTimeSpanArray` and the two conversions.

## Model

| member | source | states |
|---|---|---|
| JsValues.JsString | index.js:35 | definition of ToString of a text, the text handed to `exec`; its effect on parsing is stated by `TimeSpanParser.UndefinedSetsNoField` and `TimeSpans.NoDigitZeroSpan` |
| JsValues.OrElse | index.js:26 | definition of `value \|\| defaultValue`; its behaviour is stated by `DataShaper.MappedEntryText` |
| JsValues.OrZero | index.js:86-89 | definition of `q \|\| 0`; its behaviour is stated by `TimeSpans.FromTextAmount` and `TimeSpans.NoDigitZeroSpan` |
| Calendar.ClosedYearLength | index.js:187-190 | the closed `DayFromYear` formula of ECMA-262 grows by exactly the length of year `y` from year `y` to year `y + 1` |
| Calendar.DayFromYearIsClosed | index.js:172-190 | counting years one by one from 1970 agrees with the closed `DayFromYear` formula of ECMA-262 (365 days per year plus the leap days of the 4/100/400 rule) |
| Calendar.MakeDay | index.js:174-189 | definition of ECMA-262 `MakeDay` on whole days, carrying the month into the year; its properties are proved by `MakeDayOfFields`, `FieldsOfMakeDay`, `MakeDayCarry` and `FieldsOfCarry` |
| Calendar.YearFromDay | index.js:189 | definition of `getFullYear`; its properties are proved by `YearFromDayBounds` and `YearUnique` |
| Calendar.MonthFromDay | index.js:184 | definition of `getMonth`; its properties are proved by `MonthFromDayBounds` and `MonthUnique` |
| Calendar.DateFromDay | index.js:174 | definition of `getDate`; its range is proved by `DateFromDayBounds` |
| Calendar.SetDate | index.js:174-179 | definition of `setDate` on a copy; `AddDays` and `AddWeeks` prove it exact day arithmetic |
| Calendar.SetMonth | index.js:184 | definition of `setMonth` on a copy; its effect is stated by `AddMonthsFields` and `AddMonthsOverflow` |
| Calendar.SetFullYear | index.js:189 | definition of `setFullYear` on a copy; its effect is stated by `AddYearsIsTwelveMonths` and `LeapDayPlusOneYear` |
| Calendar.AddTime | index.js:163-170 | definition of `addTime`: a zero amount gives the date itself, any other the callback's value; stated per helper by `AddDays`, `AddWeeks`, `AddMonths`, `AddYears`, `AddMonthsFields` and `AddYearsIsTwelveMonths` |
| Calendar.YearFromDayBounds | index.js:189 | `getFullYear` names the year whose days contain the day |
| Calendar.YearUnique | index.js:189 | a day lying in year `y` gets year `y` from `getFullYear`: the year is unique |
| Calendar.MonthFromDayBounds | index.js:184 | `getMonth` is in 0..11 and names the month of that year containing the day |
| Calendar.MonthUnique | index.js:184 | the month of a day within its year is unique: two months whose days both contain it are the same |
| Calendar.DateFromDayBounds | index.js:174 | `getDate` lies between 1 and the length of the day's month |
| Calendar.MakeDayOfFields | index.js:172-190 | rebuilding a day from its year, month and day-of-month gives the same day |
| Calendar.FieldsOfMakeDay | index.js:172-190 | a valid calendar date survives `MakeDay` and back: its fields are the year, month and date given |
| Calendar.MakeDayCarry | index.js:182-185 | a month outside 0..11 carries whole years into the year |
| Calendar.FieldsOfCarry | index.js:182-185 | `MakeDay` with a carried month lands on the carried year and month with the given day-of-month |
| Calendar.AddDays | index.js:172-175 | `addDays(k)` is exactly `k` days later across month and year ends, and `addDays(0)` is the date itself |
| Calendar.AddWeeks | index.js:177-180 | `addWeeks(k)` is exactly `7 * k` days later |
| Calendar.AddMonths | index.js:182-185 | `addMonths(0)` returns the date unchanged |
| Calendar.AddYears | index.js:187-190 | `addYears(0)` returns the date unchanged |
| Calendar.AddMonthsFields | index.js:182-185 | when the day-of-month exists in the target month, `addMonths(k)` keeps it and moves year and month by `k` months, carrying into the year |
| Calendar.AddMonthsOverflow | index.js:182-185 | when the day-of-month is past the end of the target month, the result lies that many days past the month's last day, so the date rolls forward |
| Calendar.AddYearsIsTwelveMonths | index.js:182-190 | `addYears(k)` equals `addMonths(12 * k)` for every date and every `k` |
| Calendar.Jan31NextDay | index.js:172-175 | the day after 31 January is 1 February |
| Calendar.Jan31PlusOneMonth | index.js:182-185 | 31 January plus one month is 3 March in a common year and 2 March in a leap year |
| Calendar.LeapDayPlusOneYear | index.js:187-190 | 29 February plus one year is 1 March of the next year |
| TimeSpanParser.SkipSpaces | index.js:33 | greedy `\s*`: every skipped character is white space and the next one is not |
| TimeSpanParser.SkipDigits | index.js:33 | greedy `\d*`: every skipped character is a digit and the next one is not |
| TimeSpanParser.UnitEnd | index.js:33 | the unit word takes at least its letter and stays inside the text |
| TimeSpanParser.MatchAt | index.js:33 | a match tried at `p` starts at `p`, ends after it within the text, has a non-empty quantity and a unit word starting with one of d, w, m, y in either case |
| TimeSpanParser.MatchOfShape | index.js:33-38 | conversely, every text of the pattern's shape is matched at `p`: white space, an optional "+" or "-", white space, at least one digit, white space and a unit letter d, w, m or y in either case; the match's quantity is the signed value of the digits and its unit the upper-cased letter |
| TimeSpanParser.MatchAtOfShape | index.js:33 | on such a text the greedy path ends the first group after the digits and finds the unit letter where the shape puts it |
| TimeSpanParser.ShapePositions | index.js:33 | on such a text each greedy step of the pattern stops where the shape says: after the leading white space, the sign, the gap, the digits and the white space before the unit |
| TimeSpanParser.QuantityOfShape | index.js:37 | the first group of such a text, white space removed, is read by `parseInt` as the signed digits |
| TimeSpanParser.UnitMatch | index.js:33 | the tail of a match after the unit letter keeps these bounds |
| TimeSpanParser.FirstSuccess | index.js:35 | the first position in a range where a test holds: it holds there, fails everywhere before it, and fails everywhere when none is found |
| TimeSpanParser.Exec | index.js:35 | `exec` reports a match at or after `lastIndex` that is the match at its own position |
| TimeSpanParser.ExecLeftmost | index.js:35 | the reported match is the leftmost one: nothing matches between `lastIndex` and it; when `exec` reports none, nothing matches after `lastIndex` |
| TimeSpanParser.ExecAtStart | index.js:35 | when the pattern matches at the start, `exec` from the start reports that match |
| TimeSpanParser.ExecAtEnd | index.js:35 | `exec` at the end of the text reports no match |
| TimeSpanParser.Matches | index.js:35 | definition of the sequence of matches the `while` loop visits; `ParseTimeSpan` proves the loop walks it, and `YearsTextMatches` and `NoDigitNoFields` state it for particular texts |
| TimeSpanParser.RemoveSpaces | index.js:37 | `replace(/\s*/g, "")` leaves no white space |
| TimeSpanParser.RemoveSpacesOfParts | index.js:37 | removing the white space of sign, gap and digits leaves exactly the sign and the digits |
| TimeSpanParser.ParseInt | index.js:37 | definition of `Number.parseInt`; its value on what the pattern captures is proved by `ParseIntOfSignedDigits` |
| TimeSpanParser.Quantity | index.js:37 | definition of the quantity of a match; proved a signed number, never NaN, by `QuantityOfMatch` |
| TimeSpanParser.ParseIntOfSignedDigits | index.js:37 | `parseInt` of an optional sign directly followed by digits is the signed value of the digits |
| TimeSpanParser.ParseIntIgnoresRest | index.js:37 | `parseInt` of a signed numeral followed by a text that does not start with a digit reads the numeral and ignores the rest |
| TimeSpanParser.QuantityOfMatch | index.js:33-37 | every match's first group is an optional sign, white space and at least one digit, and its quantity is the signed number of those digits, never NaN |
| TimeSpanParser.UnitOf | index.js:38 | definition of the upper-cased first letter of the unit word; `MatchSetsOneField` proves it is D, W, M or Y for every match |
| TimeSpanParser.ApplyMatch | index.js:40-53 | definition of one pass of the `switch`; `FieldAfterMatch`, `ApplyMatchOneField` and `MatchSetsOneField` state what it writes |
| TimeSpanParser.ParseSpec | index.js:34-56 | definition of the record the loop builds: the `switch` applied to every match in order, from the empty object; `ParseTimeSpan`, `LastMatchWins`, `LastMatchWinsAt` and `NoMatchKeeps` state it |
| TimeSpanParser.ParseTimeSpan | index.js:32-57 | the `while` loop over `exec` returns the record `ParseSpec` describes: the loop body applied to every match in order |
| TimeSpanParser.LastOfUnit | index.js:40-53 | the position found is the last match of the unit; no match of the unit follows it; when none is found, no match has the unit |
| TimeSpanParser.LastMatchWins | index.js:35-54 | after the loop, the field of each unit holds the quantity of the last match of that unit, and keeps its previous value when there is none |
| TimeSpanParser.LastMatchWinsAt | index.js:35-54 | the field of a unit is the quantity of a match of it that no later match of it follows |
| TimeSpanParser.NoMatchKeeps | index.js:35-54 | matches of other units leave a field as it was |
| TimeSpanParser.FieldAfterMatch | index.js:40-53 | one pass of the `switch` writes the field of the match's unit and no other |
| TimeSpanParser.MatchSetsOneField | index.js:38-53 | the upper-cased first letter of every match is D, W, M or Y, so every match writes exactly its unit's field with its quantity and leaves the other three alone |
| TimeSpanParser.ApplyMatchOneField | index.js:38-53 | a match whose unit word starts with a unit letter writes exactly one field |
| TimeSpanParser.NoDigitNoMatch | index.js:33 | the pattern needs a digit, so it matches nowhere in a text without one |
| TimeSpanParser.NoDigitNoFields | index.js:35-56 | a text without a digit gives no match and a record with no field set |
| TimeSpanParser.UndefinedSetsNoField | index.js:32-57 | `parseTimeSpan(undefined)` sets no field |
| TimeSpanParser.YearsTextMatches | index.js:33-35 | a number in digits followed by " years" is exactly one match, covering the whole text |
| TimeSpanParser.YearsText | index.js:32-57 | such a text sets only `years`, to that number |
| TimeSpanParser.UnreachableAgeParse | index.js:127 | "999 years" parses to 999 years and nothing else |
| TimeSpans.NatToString | index.js:82 | the decimal numeral of `n`: digits only, no leading zero, whose value is `n` |
| TimeSpans.IntToString | index.js:82 | the numeral of an integer starts with "-" exactly when it is negative and has no white space at its ends |
| TimeSpans.IntToStringRoundTrip | index.js:82 | `parseInt` reads back what ToString wrote |
| TimeSpans.Trim | index.js:101 | `trim()` leaves no white space at either end |
| TimeSpans.TrimStart | index.js:101 | removes only leading white space and keeps a suffix of the text |
| TimeSpans.TrimEnd | index.js:101 | removes only trailing white space and keeps a prefix of the text |
| TimeSpans.FormatTime | index.js:80-84 | definition of `formatTime`; its layout is proved by `FormatTimeLayout` and its content by `FormatTimeContent` |
| TimeSpans.FormatTimeLayout | index.js:80-84 | `formatTime` is empty exactly for a missing or zero quantity; it starts with "+" exactly above 1 and with "-" exactly below 0; it ends in "s" exactly when the magnitude is not 1; it has no white space at its ends |
| TimeSpans.FormatTimeContent | index.js:80-84 | a non-empty `formatTime` text holds the quantity itself: `parseInt` reads it back, a leading "+" included, and the text ends in a space, the unit word and "s" unless the magnitude is 1 |
| TimeSpans.ReduceStep | index.js:100-102 | definition of the reduce callback; `ReduceStepJoins` states one step |
| TimeSpans.Reduce | index.js:95-102 | definition of `reduce` without an initial value; `ReduceJoinsNonEmpty` states its result |
| TimeSpans.ReduceJoinsNonEmpty | index.js:95-102 | the trimming reduce gives the non-empty components joined by single spaces, whatever components are empty |
| TimeSpans.ReduceStepJoins | index.js:100-102 | one reduce step on a joined prefix joins one more component, or none for an empty one |
| TimeSpans.JoinTight | index.js:103 | joining non-empty tight parts gives a tight text, empty exactly when there are no parts |
| TimeSpans.NonEmptyTight | index.js:95-102 | dropping the empty components keeps the others tight |
| TimeSpans.ComponentsTight | index.js:95-99 | each of the four components has no white space at its ends |
| TimeSpans.Formatted | index.js:92-105 | definition of `formatted`; its layout is proved by `FormattedLayout` |
| TimeSpans.Build | index.js:76-105 | definition of the fields the constructor sets from a parsed record; `FromTextAmount` and `NoDigitZeroSpan` state the amounts |
| TimeSpans.FromText | index.js:75-106 | definition of `new TimeSpan(timeSpanText, label)`; `Parse` proves the parsing loop builds it |
| TimeSpans.FormattedLayout | index.js:92-105 | `formatted` is one space and then the non-empty components in year, month, week, day order separated by single spaces; it is wrapped in `[[label:` … `]]` exactly when the label differs from the text |
| TimeSpans.Parse | index.js:75-108 | `TimeSpan.parse` runs the parsing loop and builds the record of `FromText`, keeping the source text and the label |
| TimeSpans.FromTextAmount | index.js:86-89 | each amount of the record is the quantity of the last match of its unit, and 0 when the text has no match of that unit |
| TimeSpans.NoDigitZeroSpan | index.js:86-99 | a text without a digit, `undefined` included, gives four zero amounts and no components |
| TimeSpans.UnreachableAgeSpan | index.js:127 | the unreachable age is 999 years, 0 months, 0 weeks and 0 days |
| TimeSpans.Shift | index.js:110-121 | definition of where `addTo` lands: years, months, weeks as 7 days, days; `AddTo`, `ShiftWholeDays` and `MonthsBeforeDays` state it |
| TimeSpans.AddTo | index.js:110-121 | `addTo` lands on `Shift`: years, then months, then weeks as 7 days, then days, each non-zero amount applied to a copy; an all-zero span gives the date back |
| TimeSpans.ShiftWholeDays | index.js:118-119 | a span of weeks and days only is exact day arithmetic |
| TimeSpans.MonthsBeforeDays | index.js:116-119 | the fixed order matters: 31 January plus one month and one day is 4 March in a common year, while adding the day first gives 1 March |
| TimeSpans.SpanShift | index.js:110-121 | definition of where a parsed record moves a date, the amounts read with `\|\| 0` |
| TimeSpans.TextShift | index.js:192-200 | definition of where `addTimeSpan` of a text lands; `AddTimeSpan` proves the method lands there |
| TimeSpans.ShiftOfFromText | index.js:192-200 | `SpanShift` of the parsed text equals `Shift` of the record `TimeSpan.parse` builds from it, whatever the label, so `TextShift` is where `addTo` of that record lands |
| TimeSpans.MonthThenDay | index.js:116-119 | in the order of `addTo`, 31 January of a common year plus one month and then one day is 4 March |
| TimeSpans.DayThenMonth | index.js:172-185 | adding the day first, 31 January plus one day and then one month is 1 March |
| TimeSpans.AddTimeSpan | index.js:192-200 | `addTimeSpan` parses the text and applies the span to a copy of the date, landing on `TextShift` |
| TimeSpans.NoDigitKeepsDate | index.js:192-200 | a text without a digit, `undefined` included, leaves the date where it is |
| TimeSpans.UnreachableAgeShift | index.js:279 | adding the unreachable age text is adding 999 calendar years |
| DateRanges.Collect | index.js:218-225 | the first pass keeps at most one entry per element |
| DateRanges.CollectKeepsAll | index.js:219-225 | without `requireUnique` every element becomes an entry with its start, in order |
| DateRanges.CollectDistinct | index.js:221 | with `requireUnique` no two kept entries share a start |
| DateRanges.CollectCovers | index.js:221-224 | with `requireUnique` every start of the input is still the start of some kept entry |
| DateRanges.CollectKeepsFirst | index.js:221-224 | with `requireUnique` each kept entry is the first element with its start |
| DateRanges.CollectStarts | index.js:216-225 | the `map` with `push` builds the entries of `Collect` |
| DateRanges.SortByStart | index.js:228 | the sort keeps the number of entries; `SortByStartSorted` and `SortByStartStable` prove it sorted, a permutation and stable |
| DateRanges.Insert | index.js:228 | one insertion step adds exactly one entry |
| DateRanges.InsertPermutes | index.js:228 | an insertion adds the entry and loses none |
| DateRanges.InsertSorted | index.js:228 | an insertion keeps the entries ordered by start |
| DateRanges.SortByStartSorted | index.js:228 | the sort orders the entries by ascending start and is a permutation of them |
| DateRanges.InsertStable | index.js:228 | an insertion keeps the order of entries that share a start |
| DateRanges.SortByStartStable | index.js:228 | the sort is stable: entries with the same start keep their relative order |
| DateRanges.WithEnds | index.js:231-237 | one item per sorted entry |
| DateRanges.StepEnd | index.js:232-234 | definition of the end the map of lines 231-235 gives an item; `RangeEnds` states it |
| DateRanges.EndOf | index.js:231-237 | definition of the final end of an item, `endLast` for the last one; `RangeEnds` and `RangesSorted` state it |
| DateRanges.CreateDateRanges | index.js:210-254 | the push, sort, end loop and the patch of the last end give the items of `Ranges` |
| DateRanges.RangesSorted | index.js:228-237 | the items are in ascending start order and the last one ends at `endLast` |
| DateRanges.RangesPermute | index.js:219-237 | the items are exactly the collected entries, values and starts, with ends added |
| DateRanges.RangesCount | index.js:219-225 | without `requireUnique` there is one range per element |
| DateRanges.RangeEnds | index.js:231-235 | every range but the last ends the day before the next start when that start is later, and at its own start when the next start is the same |
| DateRanges.FirstMatch | index.js:241 | the position found holds the date and none before it does; when none is found, no range holds it |
| DateRanges.Find | index.js:240-243 | `find` gives the value of the first range holding the date, or the default when there is none or the value is falsy |
| DateRanges.Coverage | index.js:231-241 | sorted ranges leave no gap: every date from the first start to the last end is held by some range |
| DateRanges.LastStartAtMost | index.js:231-235 | the last start not after a date is found, and the next start is after it |
| DateRanges.NoOverlap | index.js:231-235 | with strictly increasing starts no date lies in two ranges |
| DateRanges.EndBeforeNext | index.js:231-235 | with strictly increasing starts a range ends before every later range starts |
| DateRanges.FindBeforeFirst | index.js:240-243 | a date before the first start is in no range, so `find` gives the default |
| DateRanges.FindInStrictRanges | index.js:240-243 | with strictly increasing starts `find` gives the value of the range whose start is the last one not after the date, when that value is truthy |
| DataShaper.MappedEntry | index.js:64-69 | definition of the `{ name, timeSpan }` entry of one key; `MappedEntryText` states its name and text |
| DataShaper.MakeTimeSpanArray | index.js:59-73 | one entry per key, in order, each the `{ name, timeSpan }` its key gives |
| DataShaper.MappedEntryText | index.js:64-68 | through `defaultIfMissing` (line 26): an array key is named by its second element; with a truthy default a truthy value is kept and a missing or empty value becomes the default, so the text is never falsy; without a default the value passes through unchanged, `undefined` for a missing key; a plain key names itself and reads its own value |
| DataShaper.MapAt | index.js:259-262 | element `k` of a `map` is the function applied to element `k` |
| DataShaper.DatedAt | index.js:259-262 | entry `k` after the `map` is entry `k` with the start its time span gives |
| DataShaper.DatedSnoc | index.js:259-262 | mapping one more entry appends one dated entry |
| DataShaper.StartEntries | index.js:259-262 | the `map` gives every entry the start `startDate.addTimeSpan(timeSpan, name)` |
| DataShaper.ConvertTimeSpansToDateRanges | index.js:258-268 | the result is the ranges of the dated entries with `endLast` as the last end |
| DataShaper.SpanRangesShape | index.js:258-268 | one range per entry, in ascending start order, the last one ending at `endLast` |
| DataShaper.AgeEntries | index.js:271-277 | the age key sequence gives five entries |
| DataShaper.ConvertAgeToDateRanges | index.js:270-284 | the result is the ranges of the five age entries from the birth date, the last one ending at birth plus 999 years |
| DataShaper.AgeRangesShape | index.js:270-284 | five ranges in ascending start order, the last one ending at birth plus 999 years |
| DataShaper.AgeEntryAt | index.js:271-281 | the entry of the `k`-th age key is what `makeTimeSpanArray` makes of it, with the start its text gives from the birth date |
| DataShaper.AgeKeys | index.js:271-277 | the five age keys in order; `AgeKeyDefaults` states their names and defaults |
| DataShaper.AgeKeyDefaults | index.js:271-277 | all five keys are remapped to a name; only `maxAge` has a default, the unreachable age text |
| DataShaper.UndefinedKeepsDate | index.js:260 | an `undefined` time span starts at the base date |
| DataShaper.MissingAgeText | index.js:272-275 | a missing age field other than `maxAge` becomes the time span `undefined` |
| DataShaper.MissingAgeStartsAtBirth | index.js:271-281 | a missing age field other than `maxAge` starts its range at birth |
| DataShaper.MissingMaxAgeIsUnreachable | index.js:276 | a missing `maxAge` starts its range 999 years after birth |
| DataShaper.AgeLookup | index.js:270-284 | every date from the earliest start up to birth plus 999 years lies in some age range, and a date before the earliest start gets the default |

## Left out

- Time of day, time zones and daylight saving time: a date is a whole local day. `diffInDays`,
  `toShortDateString`, `copy` and `withLabel` are not part of this model.
- The range limits of the host `Date` (about ±273,790 years): day numbers are unbounded.
- Number precision: quantities are unbounded integers. `parseInt` of more than 15 digits, and
  ToString of numbers of 10^21 or more (written with an exponent), are not modelled.
- `parseInt` is modelled for what the pattern can hand it (an optional sign and digits after the
  white space is removed), not for hexadecimal prefixes or other inputs.
- `Text` is a sequence of Unicode characters rather than UTF-16 code units. The `\s` class and the
  case-insensitive unit letters are modelled for ASCII letters and the ECMAScript white space set.
- All label handling is left out because it only builds labels for display: the label strings of
  `addTime`, `addTo` and `addTimeSpan` (lines 115, 167, 194, 197), `describe`, `console.describe`
  and the `describe` closures of lines 245-250 and 264-266. The label passed to `addTimeSpan` has
  no part in the date.
- `SeriesResolver`, `PatientProfileBuilder`, `TestRunner` and the sample loop: they read foreign
  modules and write to the console.
- Calendar.AddTime: the `calcFunc` callback is modelled by the value it computes. The callbacks of
  lines 172-190 change only the copy made at line 166, so that value is the same whether or not
  it is used.
- `!toAdd` for NaN: amounts are always integers, because every match's quantity is a number
  (`QuantityOfMatch`).
- `typeof timeSpan == "TimeSpan"` of line 193 is always false, so `AddTimeSpan` always parses.
- `Date.POSITIVE_INFINITY` (line 213) is not defined in index.js. Unless a required module defines
  it, a missing `endLast` leaves the last end `undefined`; then `value <= item.end` of line 241 is
  false and the last range holds no date at all. The model's `Unbounded` bound instead holds every
  date from the last start on. No caller in index.js relies on the default:
  `convertAgeToDateRanges` always passes an end.
- The identity default `rangeStartFunc = d => d` (line 214): `CreateDateRanges` always takes a
  start function.
- DateRanges.CollectStarts, DateRanges.Collect, DateRanges.CollectDistinct, DateRanges.CollectCovers,
  DateRanges.CollectKeepsFirst: starts are compared by value. The `==` of line 221 compares two Date
  objects by identity, so in the source `requireUnique` drops an element only when the start
  function returns the very same Date object again.
- Update in place and aliasing are modelled on values: `sort` in place, the `item.end`
  assignments, and `item.start` written into the caller's entries (line 260). Each becomes a new
  sequence.
- `Array.prototype.sort` is modelled as some stable sort (insertion), which ECMAScript requires.
  All stable sorts give the same order.
- `keySequence || []` (line 60): the key sequence is always given. Function-valued filters (the
  `isFunction(item[2])` branch) are not modelled, and source values are texts.
