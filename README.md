# Monthly lowest-close analysis, modelled in Dafny

This project models the API route `pages/api/analyze.js`. The route takes a
POST body `{ tickers, month }` and resolves the month designator (digits, or
a French or English name). It picks the ten most recent years in which that
month has begun. Then, for every ticker and every year, it requests the
daily closes of that month from a market-data vendor. From each reply it
keeps the four lowest closes of the month, and from all years it counts on
which days of the month those lows fell. The per-ticker report carries:

- the years, latest first;
- the lows of each year;
- the frequency table of days and the most frequent days;
- the errors of the years that failed, or a failure sentence when no year
  succeeded.

The modules follow the parts of the route:

| module | what it holds |
|---|---|
| `Common` | `Option`, `Result` and a sequence fact used by the loop invariants. |
| `Text` | `trim`, `toLowerCase`, the `^\d+$` test with `parseInt`, decimal rendering of integers, and `split(",")`. |
| `Months` | The two month tables and `parseMonth`. It also holds `parseMonth` as written, with the inherited-member lookup. |
| `Calendar` | The ECMAScript day arithmetic behind `Date.UTC` and the `getUTC*` getters (proleptic Gregorian, UTC). |
| `Window` | `pickYearsForLast10` and `monthBoundsUnix`. Today's time value is decoded once into a `Today` record. |
| `Sorting` | `Array.prototype.sort` with a numeric comparator, as a stable insertion sort on sequences. |
| `Lows` | The row filter loop (`CollectRows`) and the choice of the four lowest closes. |
| `Frequency` | The tally loop (`CountDays`), `maxFreq`, `bestDays` and `freqDays.sorted`. |
| `Vendor` | The shapes a vendor reply can take, and the checks the route makes on it before filtering rows. |
| `Report` | What one (ticker, year) attempt yields, and how `perYear` and `yearErrors` fill up. It also holds how a ticker report is assembled. |
| `Handler` | The request checks and the ticker list. It holds the year loop (`AttemptYears`) and the ticker loop (`AnalyzeAll`), and `Handle`. |

The handler's loops are methods over local sequences, proved against
functions that state what they compute:

- `Report.PerYear` and `Report.YearErrors` say which list each attempt lands in.
- `Lows.KeptRows` is the result of the row filter.
- `Frequency.Counts` is the tally.
- `Handler.ResponseOf` is the whole response.

The vendor is a parameter of the model: `vendor(n, q)` is the reply to the
`n`-th chart request of one handler call, made with query `q`. The requests
made and the pauses taken are ghost outputs. The current time is a
parameter as well (`todayMs`).

## Model

| member | source | states |
|---|---|---|
| Months.ParseMonth | pages/api/analyze.js:41-50 | The month is accepted exactly when its normalized text resolves to a month. A rejection carries the message "Mois invalide: " followed by the input. An accepted month is of type `Month` (1..12). |
| Months.ResolveKey | pages/api/analyze.js:43-48 | A key that resolves to nothing is in neither month table. |
| Months.ParseMonthAsWritten | pages/api/analyze.js:41-50 | As written, an accepted own value is a month in 1..12, and an accepted inherited member is one of the members every object inherits. A rejection carries "Mois invalide: " followed by the input. |
| Months.LookupKeyAsWritten | pages/api/analyze.js:43-48 | As written, a lookup finds either a month in 1..12 or an inherited member named exactly by the key. |
| Months.NumericMonth | pages/api/analyze.js:42-45 | A numeric month is accepted exactly when it lies in 1..12, and is then itself. |
| Months.NumberResolves | pages/api/analyze.js:42-48 | The text of a number resolves to the number when it is in 1..12 and to nothing otherwise. Negative numbers and 0 are not names either. |
| Months.DigitsKey | pages/api/analyze.js:43-48 | The digits of a natural number resolve to it exactly when it is in 1..12. |
| Months.DigitsText | pages/api/analyze.js:42-45 | Any string of digits, leading zeros included, is accepted exactly when its `parseInt` value is in 1..12, and then parses to that value. |
| Months.NumberText | pages/api/analyze.js:42-45 | The decimal text of a non-zero number parses like the number itself. |
| Months.LeadingZeroExample | pages/api/analyze.js:43-45 | "07" parses to 7. |
| Months.NumberNormalized | pages/api/analyze.js:42 | The text of a non-zero number is unchanged by trimming and lower-casing. |
| Months.NormalizeWord | pages/api/analyze.js:42 | A non-empty word of lower-case ASCII letters is unchanged by trimming and lower-casing. |
| Months.ResolveIgnoresPadding | pages/api/analyze.js:42 | Whitespace around a designator never changes the month it resolves to. |
| Months.ResolveIgnoresCase | pages/api/analyze.js:42 | Letter case never changes the month a designator resolves to. |
| Months.TableKeysAreWords | pages/api/analyze.js:3-34 | Every key of both tables is non-empty and starts with a lower-case letter. |
| Months.NotAName | pages/api/analyze.js:3-34 | A key that starts with a digit or a minus sign is in neither table. |
| Months.FrenchEightLetterKeys | pages/api/analyze.js:3-19 | An eight-letter key that does not end in "e" is not a French month name. |
| Months.AccentFreeSpellings | pages/api/analyze.js:5-6 | "fevrier" and "février" both resolve to 2. "aout" and "août" both resolve to 8. "decembre" and "décembre" both resolve to 12. |
| Months.PaddedCapitalExample | pages/api/analyze.js:42-48 | "Novembre " parses to 11. |
| Months.EnglishNameExample | pages/api/analyze.js:48 | "november" parses to 11. |
| Months.DigitsExample | pages/api/analyze.js:43-45 | "11" parses to 11. |
| Months.OutOfRangeExamples | pages/api/analyze.js:43-49 | "0" and "13" are rejected. |
| Months.ParsesAs | pages/api/analyze.js:41-48 | A designator whose normalized key resolves to month m parses to m. |
| Months.RejectedAs | pages/api/analyze.js:49 | A designator whose normalized key resolves to nothing is rejected with the "Mois invalide" message. |
| Months.FrenchKeysNotInherited | pages/api/analyze.js:3-19 | No French key is a member that every object inherits. |
| Months.EnglishKeysNotInherited | pages/api/analyze.js:21-34 | No English key is a member that every object inherits. |
| Months.KeyAgrees | pages/api/analyze.js:43-48 | On every key the corrected lookup resolves, the lookup as written finds the same month. |
| Months.AsWrittenAgreesOnMonths | pages/api/analyze.js:41-50 | On every designator the corrected parser accepts, the parser as written returns the same month. |
| Months.ConstructorAcceptedAsWritten | pages/api/analyze.js:47-48 | "constructor" is rejected by the corrected parser but accepted as written, yielding an inherited member instead of a month. |
| Months.LookupConstructor | pages/api/analyze.js:47-48 | As written, the lookup of "constructor" finds the inherited member. The corrected lookup finds nothing. |
| Months.NormalizeConstructor | pages/api/analyze.js:42 | "constructor" is its own normal form. |
| Text.TrimStartSuffix | pages/api/analyze.js:42 | Trimming the start keeps a suffix. What it drops is whitespace, and the result does not start with whitespace. |
| Text.TrimEndPrefix | pages/api/analyze.js:42 | Trimming the end keeps a prefix. What it drops is whitespace, and the result does not end with whitespace. |
| Text.TrimIsSlice | pages/api/analyze.js:42 | `trim` returns a slice with no whitespace at either end, cut out of whitespace-only margins. |
| Text.TrimPadded | pages/api/analyze.js:42 | Whitespace added at both ends does not change `trim`. |
| Text.TrimStartPadded | pages/api/analyze.js:42 | Leading whitespace does not change the start trim. |
| Text.TrimEndPadded | pages/api/analyze.js:42 | Trailing whitespace does not change the end trim. |
| Text.TrimStartAppend | pages/api/analyze.js:42 | The start trim of a string that is not blank carries over what follows it. |
| Text.TrimStartThenEnd | pages/api/analyze.js:42 | Trailing whitespace does not change `trim`. |
| Text.LowerChar | pages/api/analyze.js:42 | Lower-casing a character keeps whitespace as whitespace and digits as digits. |
| Text.ToLowerAt | pages/api/analyze.js:42 | `toLowerCase` keeps the length and maps each character on its own. |
| Text.ToLowerUnchanged | pages/api/analyze.js:42 | A string whose characters are all their own lower case is unchanged. |
| Text.ToLowerIdempotent | pages/api/analyze.js:42 | Lower-casing twice is lower-casing once. |
| Text.TrimToLower | pages/api/analyze.js:42 | Trimming and lower-casing commute. |
| Text.TrimStartToLower | pages/api/analyze.js:42 | The start trim commutes with lower-casing. |
| Text.TrimEndToLower | pages/api/analyze.js:42 | The end trim commutes with lower-casing. |
| Text.NatDigits | pages/api/analyze.js:49 | The decimal text of a natural number is all digits, with no leading zero unless the number is 0. |
| Text.DecimalString | pages/api/analyze.js:49 | The decimal text of an integer is never empty. |
| Text.DigitsRoundTrip | pages/api/analyze.js:43-44 | `parseInt` of the decimal text of n is n. |
| Text.SplitComma | pages/api/analyze.js:102 | `split(",")` yields at least one piece, and no piece contains a comma. |
| Text.SplitJoin | pages/api/analyze.js:102 | Joining the pieces of `split(",")` with commas gives back the string. |
| Calendar.YearLength | pages/api/analyze.js:54-57 | The next year starts one year-length after this one (365 or 366 days by the Gregorian rule). |
| Calendar.Quarter | pages/api/analyze.js:54-57 | Leap-day count step for the 4-year term of the year formula. |
| Calendar.Century | pages/api/analyze.js:54-57 | Leap-day count step for the 100-year term. |
| Calendar.Quadricentury | pages/api/analyze.js:54-57 | Leap-day count step for the 400-year term. |
| Calendar.YearStartsLater | pages/api/analyze.js:54-57 | Each year starts at least 365 days after the one before. |
| Calendar.YearsOrdered | pages/api/analyze.js:54-57 | An earlier year ends no later than a later year starts. |
| Calendar.MonthLength | pages/api/analyze.js:54-57 | The next month starts one month-length after this one. The first month starts at day 0 of the year, and the thirteenth at the year's length. |
| Calendar.MonthsOrdered | pages/api/analyze.js:54-57 | An earlier month ends no later than a later month starts. |
| Calendar.YearSearchUp | pages/api/analyze.js:176-179 | The year found by searching upwards holds the day. |
| Calendar.YearSearchDown | pages/api/analyze.js:176-179 | The year found by searching downwards holds the day. |
| Calendar.YearFromDay | pages/api/analyze.js:176-178 | `getUTCFullYear`: the year returned holds the day. |
| Calendar.MonthSearch | pages/api/analyze.js:179 | `getUTCMonth`: the month returned holds the day within its year. |
| Calendar.DateOfDay | pages/api/analyze.js:176-179 | The date of a day number is a valid date, and its day number is that day. |
| Calendar.UtcDateOf | pages/api/analyze.js:176 | The UTC date of any time value is a valid date. |
| Calendar.UtcDateOfDay | pages/api/analyze.js:176-179 | The UTC date of a time value is the day that contains it. |
| Calendar.DayInsideYear | pages/api/analyze.js:54-57 | A valid date's day number lies inside its year, and inside its month. |
| Calendar.OneYearHoldsDay | pages/api/analyze.js:176-178 | Only one year holds a given day. |
| Calendar.OneMonthHoldsDay | pages/api/analyze.js:179 | Only one month of a year holds a given day of that year. |
| Calendar.DayNumberInjective | pages/api/analyze.js:54-57 | Two valid dates with the same day number are the same date. |
| Calendar.DateOfDayRoundTrip | pages/api/analyze.js:176-179 | Decoding the day number of a valid date gives the date back. |
| Calendar.DayOfInstant | pages/api/analyze.js:176 | A time value inside day d has day number d. |
| Calendar.UtcDateOfRoundTrip | pages/api/analyze.js:176-179 | A time value anywhere inside a valid date's day decodes to that date. |
| Calendar.MonthStartOrder | pages/api/analyze.js:75-78 | The first day of (y, m) is on or before a date exactly when (y, m) is not later than that date's year and month. |
| Window.TodayOf | pages/api/analyze.js:99 | Today's record keeps the time value and holds a valid UTC date. |
| Window.TomorrowMs | pages/api/analyze.js:60-61 | `tomorrow` keeps today's time of day. |
| Window.TomorrowIsOneDayLater | pages/api/analyze.js:60-61 | `setUTCDate(getUTCDate() + 1)` moves the time value exactly one day later, also at the end of a month or a year. |
| Window.MonthBoundsUnix | pages/api/analyze.js:53-73 | `period1` is the first second of the month. `period2` never passes the first second of the next month, and is exactly that second outside the current month. |
| Window.MonthWindow | pages/api/analyze.js:53-73 | `period1` is the first second of the month, and `period2` never passes the first second of the next month. Outside the current UTC month, `period2` is exactly that second. In the current month, `period2` is the earlier of "one day after now" and the start of the next month. |
| Window.MonthStartWholeSeconds | pages/api/analyze.js:64 | The start of a month is a whole number of seconds. |
| Window.WindowNonEmpty | pages/api/analyze.js:53-73 | `period1 < period2` for every year and month, whatever the time of day. |
| Window.DecemberRollsOver | pages/api/analyze.js:55-57 | Outside the current month, December's window ends at 1 January of the next year. |
| Window.PickYearsForLast10 | pages/api/analyze.js:75-80 | Exactly ten years, each one less than the one before. |
| Window.PickedYearsAreLatestBegun | pages/api/analyze.js:75-80 | All ten years' month has begun by now, and the month of the year after the first has not. So these are the ten latest occurrences of the month. |
| Window.CurrentYearPickedIffMonthBegun | pages/api/analyze.js:76-78 | The first year is the current year exactly when the month is not later than the current month. For the current month, its window ends no later than one day after now. |
| Sorting.Insert | pages/api/analyze.js:197 | Inserting into a sorted sequence keeps it sorted and adds exactly that element. |
| Sorting.PrependSorted | pages/api/analyze.js:197 | An element no larger than the head can be put in front of a sorted sequence. |
| Sorting.SortBy | pages/api/analyze.js:197 | The sort yields a sorted permutation of its input. |
| Sorting.SortByKeepsSorted | pages/api/analyze.js:247 | Sorting an already sorted sequence changes nothing. |
| Sorting.SortedPrefixSmallest | pages/api/analyze.js:197 | The first k elements of a sorted sequence are sorted and drawn from it. They are no larger than anything left out. |
| Sorting.Project | pages/api/analyze.js:251 | `map` keeps the length and applies the function at every index. |
| Sorting.ProjectAppend | pages/api/analyze.js:251 | Mapping a concatenation is the concatenation of the mappings. |
| Sorting.ProjectSorted | pages/api/analyze.js:251-252 | Mapping preserves sortedness when the keys agree. |
| Sorting.ProjectInsert | pages/api/analyze.js:251-252 | Mapping commutes with insertion when the keys agree. |
| Sorting.ProjectSort | pages/api/analyze.js:251-252 | Mapping commutes with sorting when the keys agree. |
| Lows.DecodeTimestamp | pages/api/analyze.js:176 | A timestamp decodes to a valid date when it is in range. |
| Lows.DecodedDates | pages/api/analyze.js:172-176 | Each timestamp is decoded on its own. |
| Lows.KeptRows | pages/api/analyze.js:171-186 | There are never more kept rows than timestamps, and every kept row is dated in the target year and month. |
| Lows.RowAt | pages/api/analyze.js:173-185 | A row is kept only when its close is present and its date is in the target year and month. The row then carries that date and close. |
| Lows.KeptRowsMembers | pages/api/analyze.js:171-186 | A row is kept exactly when some index yields it. There are never more kept rows than timestamps. |
| Lows.KeptRowsInMonth | pages/api/analyze.js:171-186 | Every kept row has a valid date in the target year and month. It comes from an index whose close is present and whose timestamp decodes to that date. |
| Lows.KeptRowsComplete | pages/api/analyze.js:171-186 | Every index whose close is present and whose timestamp falls in the target year and month yields a kept row. |
| Lows.CollectRows | pages/api/analyze.js:171-186 | The filter loop builds exactly the kept rows, in index order. |
| Lows.RowFor | pages/api/analyze.js:173-185 | One pass of the filter loop yields the row kept for that index, if any. |
| Lows.LowestFour | pages/api/analyze.js:197 | The selection has min(4, rows) entries. |
| Lows.LowestFourAreSmallest | pages/api/analyze.js:197 | The selection has min(4, rows) entries, ascending by close, drawn from the rows. Every row left out closes at or above the largest selected close. |
| Lows.LowestFourMembers | pages/api/analyze.js:197 | Every selected row is one of the rows. |
| Lows.LeftOutClosesHigher | pages/api/analyze.js:197 | A row whose low was not selected closes at or above the last (largest) selected low. |
| Lows.LeftOutIndicesCloseHigher | pages/api/analyze.js:171-206 | Stated over the reply's arrays: any close of the target month whose low is not among the lows is at or above the largest low. |
| Lows.ToLows | pages/api/analyze.js:199-206 | Each low carries its row's date and close, in the same order. |
| Lows.DaysOf | pages/api/analyze.js:200-201 | The days pushed to `allDays` are the lows' days of month, in order. |
| Frequency.CountDays | pages/api/analyze.js:231-234 | The tally has exactly the days of `allDays` as keys, and each count is that day's number of occurrences. |
| Frequency.Counts | pages/api/analyze.js:231-234 | The tally's keys are exactly the days of `allDays`, each with a count of at least 1. |
| Frequency.MinOf | pages/api/analyze.js:236 | The least element of a non-empty set is in it and below all others. |
| Frequency.MinExists | pages/api/analyze.js:236 | A non-empty set of integers has a least element. |
| Frequency.MaxOf | pages/api/analyze.js:235 | `Math.max` of a non-empty list is one of its values. |
| Frequency.SortedKeys | pages/api/analyze.js:236 | `Object.entries` of integer keys lists every key once, ascending. |
| Frequency.MaxOfIsMaximum | pages/api/analyze.js:235 | `Math.max` of the values is one of them and at least every one. |
| Frequency.ValuesAt | pages/api/analyze.js:235 | `Object.values` lists the count of each key in key order. |
| Frequency.KeysOfCounts | pages/api/analyze.js:235 | A non-empty tally has keys, all of them in the tally. |
| Frequency.MaxFreq | pages/api/analyze.js:235 | `maxFreq` is the count of some day. |
| Frequency.KeysWithCount | pages/api/analyze.js:236-238 | The filter keeps exactly the keys with the given count. |
| Frequency.KeysWithCountAscending | pages/api/analyze.js:236-239 | Filtering ascending keys keeps them ascending. |
| Frequency.BestDays | pages/api/analyze.js:236-239 | Every best day is a counted day whose count is `maxFreq`. |
| Frequency.MaxFreqIsLargestCount | pages/api/analyze.js:235 | `maxFreq` is the count of some day and at least every count. |
| Frequency.BestDaysAreModes | pages/api/analyze.js:236-239 | `bestDays` is non-empty and strictly ascending. It holds exactly the days whose count is at least every count. |
| Frequency.Entries | pages/api/analyze.js:241-246 | The table has one entry per key, holding its day, its count and whether it is among the best days. |
| Frequency.FreqTable | pages/api/analyze.js:241-247 | `freqDays.sorted` has one entry per counted day. |
| Frequency.FreqTableAscending | pages/api/analyze.js:241-247 | `freqDays.sorted` has one entry per counted day, with strictly ascending days. |
| Frequency.FreqTableCoversCounts | pages/api/analyze.js:241-247 | Every counted day appears in `freqDays.sorted`, and only those. |
| Frequency.FreqTableEntries | pages/api/analyze.js:241-247 | Each entry's count is its day's count, and `isBest` holds exactly when the day is in `bestDays`. |
| Frequency.KeyEntries | pages/api/analyze.js:241-246 | The table built in key order has one entry per key, ascending, and covers every key. |
| Frequency.DaysAscending | pages/api/analyze.js:241-246 | A table whose days are the keys, index by index, is strictly ascending by day exactly when the keys are. |
| Frequency.DaysCover | pages/api/analyze.js:241-246 | A table whose days are the keys, index by index, holds exactly the keys as days. |
| Frequency.KeyEntryFields | pages/api/analyze.js:242-246 | Each entry built in key order carries its key's count and best-day flag. |
| Frequency.FreqTableInKeyOrder | pages/api/analyze.js:241-247 | The sort by day leaves the key-ordered table unchanged. |
| Frequency.EntriesInKeyOrder | pages/api/analyze.js:247 | Sorting the key-ordered entries by day changes nothing. |
| Frequency.CountsAddUp | pages/api/analyze.js:231-234 | The counts add up to the number of days tallied. |
| Frequency.SumCountsIsMultiplicities | pages/api/analyze.js:231-234 | Summing the tally over keys is summing the multiplicities. |
| Frequency.MultiplicitiesAddOne | pages/api/analyze.js:233 | One more day adds one to the sum exactly when it is among the keys. |
| Frequency.NoMultiplicities | pages/api/analyze.js:231 | The empty tally sums to 0. |
| Frequency.MultiplicitiesAddUp | pages/api/analyze.js:231-234 | Over ascending keys covering the days, the multiplicities sum to the number of days. |
| Frequency.CountsNonEmpty | pages/api/analyze.js:231-235 | A non-empty `allDays` gives a non-empty tally. |
| Frequency.CountsOf | pages/api/analyze.js:231-234 | The tally's keys are the days that occur, each with its number of occurrences. |
| Frequency.DayTable | pages/api/analyze.js:241-247 | Stated over `allDays`: the table is strictly ascending by day, and each count is the day's number of occurrences. `isBest` holds exactly for the best days, and every day that occurs is listed. |
| Frequency.DayTableCounts | pages/api/analyze.js:241-247 | Stated over `allDays`: each entry's count is its day's number of occurrences, and `isBest` holds exactly for the best days. |
| Frequency.DayTableCovers | pages/api/analyze.js:231-247 | Stated over `allDays`: a day appears in `freqDays.sorted` exactly when it occurs in `allDays`. |
| Frequency.DayModes | pages/api/analyze.js:235-239 | Stated over `allDays`: `bestDays` is non-empty and ascending. It holds exactly the days that occur at least as often as any other. |
| Vendor.ChartErrorText | pages/api/analyze.js:156 | The recorded message for a chart error or an empty reply is never empty. |
| Vendor.ReadReply | pages/api/analyze.js:126-169 | A usable reply is a 2xx response with a JSON body, and its series has non-empty timestamps and closes. |
| Vendor.UsableReply | pages/api/analyze.js:126-169 | A reply is usable exactly when the request returned 2xx and the body is JSON. The chart must have a first result and no error, with non-empty timestamps and closes. The series is then that result's arrays. |
| Vendor.HttpStatusMessage | pages/api/analyze.js:135-137 | A status outside 200..299 is recorded as "HTTP <status>", whatever the body. |
| Vendor.ChartErrorMessage | pages/api/analyze.js:135-157 | For any 2xx status, a chart error wins over a present result, and its description is recorded when it has one. |
| Vendor.EmptyReplyMessage | pages/api/analyze.js:153-157 | A body without a chart, or with no result and no error, is recorded as "réponse Yahoo vide". |
| Vendor.NoDataMessage | pages/api/analyze.js:162-168 | A first result missing its timestamps or its closes is recorded as "pas de données dans chart". |
| Report.Outcomes | pages/api/analyze.js:118-215 | There is one attempt per year. |
| Report.YearOutcome | pages/api/analyze.js:119-211 | The outcome is for the year asked, and a successful year has 1 to 4 lows. |
| Report.PerYear | pages/api/analyze.js:208-211 | `perYear` holds only the entries of successful attempts, and no more entries than attempts. |
| Report.YearErrors | pages/api/analyze.js:145-195 | `yearErrors` holds only the entries of failed attempts, and no more entries than attempts. |
| Report.AttemptedYears | pages/api/analyze.js:118 | The year of each attempt, in attempt order. |
| Report.ListsAppend | pages/api/analyze.js:145-211 | One more attempt adds its entry to exactly one of `perYear` and `yearErrors`. |
| Report.AllDaysStep | pages/api/analyze.js:199-201 | A successful year appends its lows' days to `allDays`. |
| Report.PerYearHasLows | pages/api/analyze.js:188-211 | Every `perYear` entry has at least one low. |
| Report.AllDaysNonEmpty | pages/api/analyze.js:199-211 | A non-empty `perYear` gives a non-empty `allDays`. |
| Report.YearOutcomeLows | pages/api/analyze.js:171-211 | A successful year has min(4, kept rows) lows, 1 to 4, ascending by price, each dated in that year and month. Every close of that month in the reply whose low is not kept is at or above the largest low. |
| Report.SelectedLows | pages/api/analyze.js:197-206 | From rows of one month, the lows are min(4, rows) in number, 1 to 4, ascending, and dated in that month. |
| Report.YearOutcomeFailure | pages/api/analyze.js:140-195 | A year fails exactly when the reply is unusable or the filter keeps no row. It is recorded with the reply's message or with "aucune ligne dans le mois après filtrage". |
| Report.OutcomesHaveLows | pages/api/analyze.js:118-215 | Every successful attempt has lows, and the k-th attempt is for the k-th year. |
| Report.EachYearOnce | pages/api/analyze.js:118-215 | `perYear` and `yearErrors` together hold as many entries as there were attempts. Their years are, as a multiset, exactly the attempted years, so each year lands in exactly one list. |
| Report.OneMoreOutcome | pages/api/analyze.js:145-211 | One more attempt lands in exactly one list and adds its year once. |
| Report.AttemptedYearsAppend | pages/api/analyze.js:118 | One more attempt appends its year. |
| Report.OneMoreLowered | pages/api/analyze.js:208-211 | A successful attempt extends `perYear` by its entry and leaves `yearErrors` alone. |
| Report.OneMoreFailed | pages/api/analyze.js:145-191 | A failed attempt extends `yearErrors` by its entry and leaves `perYear` alone. |
| Report.NoYearIffAllFailed | pages/api/analyze.js:217 | `perYear` is empty exactly when every attempt failed. `yearErrors` is empty exactly when every attempt succeeded. |
| Report.FailureReport | pages/api/analyze.js:217-229 | When no year succeeded: `years`, `perYear`, `freqDays.sorted` and `bestDays` are empty, and `error` is the failure sentence. `yearErrors` holds one entry per attempt. |
| Report.ReportFrom | pages/api/analyze.js:217-256 | The report keeps the ticker. `years` and `perYear` have one entry per successful year, and the `yearErrors` field is present exactly when no year succeeded. |
| Report.TickerReportOf | pages/api/analyze.js:217-256 | The report of a ticker's attempts keeps the ticker and lists no more years than attempts. |
| Report.SortedYears | pages/api/analyze.js:251-252 | Sorting the years descending gives the years of `perYear` sorted by descending year. |
| Report.SuccessReport | pages/api/analyze.js:249-256 | When some year succeeded: `perYear` is a permutation of the successful years, latest first, and `years` lists their years in that order. `error` is null exactly when no attempt failed, and otherwise the year errors. There is no separate `yearErrors` field. |
| Report.SuccessStatistics | pages/api/analyze.js:231-253 | When some year succeeded, `allDays` is non-empty, and `freqDays.sorted` and `bestDays` are those of its tally. |
| Handler.TrimEach | pages/api/analyze.js:103 | Each piece is trimmed, in order. |
| Handler.TrimmedNonEmpty | pages/api/analyze.js:103-104 | The kept entries are non-empty and no more than the pieces. |
| Handler.TrimmedNonEmptyMembers | pages/api/analyze.js:103-104 | The list holds exactly the non-empty trimmed pieces, and is no longer than the pieces. |
| Handler.TickerList | pages/api/analyze.js:101-104 | Every listed ticker is non-empty. |
| Handler.TickerListEntries | pages/api/analyze.js:101-104 | The tickers are exactly the non-empty trimmed pieces between commas. Each is non-empty, has no whitespace at either end, and has no comma. |
| Handler.TrimmedNonEmptyShape | pages/api/analyze.js:103-104 | Pieces without commas give entries with no whitespace at either end and no comma. |
| Handler.TrimmedPiece | pages/api/analyze.js:103 | A trimmed piece that is not blank has no whitespace at either end, and no comma when the piece had none. |
| Handler.AnalysisOf | pages/api/analyze.js:113-257 | There is one report per ticker. |
| Handler.ResponseOf | pages/api/analyze.js:82-264 | The request is rejected exactly when the method is not POST, a field is missing, or the month does not parse; a rejection is 405 or 400. An analysis answers the month as sent, the month it parses to, and one report per listed ticker. |
| Handler.Rejections | pages/api/analyze.js:83-97 | 405 exactly for a method other than POST. 400 "tickers et month sont requis" for a POST missing a truthy field. 400 with the parser's message for a month that does not parse. The analysis in every other case. |
| Handler.AnalysisReports | pages/api/analyze.js:259-263 | The answer holds the month as sent and the month it parses to. It holds one report per listed ticker, in list order. |
| Handler.AttemptYear | pages/api/analyze.js:119-214 | One year's attempt yields that year's outcome from the vendor's reply, and pauses exactly once whichever exit it takes. |
| Handler.AttemptYears | pages/api/analyze.js:114-215 | The year loop makes one request per year, with that year's window, in order, and one pause per year. It leaves `perYear` and `yearErrors` as the successful and failed attempts, and `allDays` as the lows' days. |
| Handler.AttemptNext | pages/api/analyze.js:119-214 | The k-th pass makes the k-th request, yields the k-th outcome and pauses once. |
| Handler.RecordOutcome | pages/api/analyze.js:145-211 | Recording an outcome extends `perYear` or `yearErrors` by it, and `allDays` by its days. |
| Handler.AssembleReport | pages/api/analyze.js:217-256 | The report assembled from the lists is the one the route pushes. |
| Handler.AnalyzeTicker | pages/api/analyze.js:113-257 | One ticker's loop makes its ten requests and ten pauses, and yields its report. |
| Handler.AnalyzeNext | pages/api/analyze.js:113-257 | One pass of the ticker loop appends that ticker's report, its ten requests and its ten pauses. |
| Handler.YearQueries | pages/api/analyze.js:118-123 | The requests of one ticker: one per year, in year order, each with that year's window. |
| Handler.AllQueriesAt | pages/api/analyze.js:113-123 | Request 10·i + k is for ticker i and year k. |
| Handler.AllQueriesStep | pages/api/analyze.js:113-123 | One more ticker appends its ten requests. |
| Handler.AnalyzeAll | pages/api/analyze.js:111-257 | The ticker loop yields the reports of all tickers in order. Its requests are those of each ticker in turn, with one pause per request. |
| Handler.Handle | pages/api/analyze.js:82-264 | The response is the one specified. A rejection makes no request and takes no pause. An analysis makes exactly ten requests per ticker, ticker-major, each for that ticker, year and window, and takes one pause per request. |

## Left out

- Network I/O: the chart URL, the request headers, and `fetch` itself. The vendor is a function from (request number, query) to reply.
- The pauses: `sleep`, `setTimeout`, `SLEEP_MS` and `YAHOO_SLEEP_MS`. Only the number of pauses is kept, as a ghost count.
- `console.error` logging.
- Response framing: `res.status(...).json(...)` is reduced to the status and the response value.
- `pages/index.js` (the browser page) is not part of this model.
- Prices are integers, not floating-point numbers. The comparator `a.close - b.close` is modelled as a comparison of closes.
- `Array.prototype.sort` is stable since ECMAScript 2019, and the model's stable insertion sort gives the same order, ties included. Closes that are NaN, which would make the comparator inconsistent, are not modelled.
- `toISOString().slice(0, 10)` is not modelled: a low keeps its UTC year, month and day.
- `Date.UTC` maps years 0..99 to 1900..1999. The model does not, since the years the route asks for are the current one and the nine before it.
- Month windows for years so far away that `Date.UTC` returns NaN are not modelled.
- JSON values other than strings for `tickers` are not modelled. Such a value would make `split` throw, and the route would fail outside these checks.
- For `month`, only strings and integers are modelled. Fractional numbers, booleans and objects are not.
- Months.ParseMonth: a numeric month is written out by `Months.InputText` and `Months.MessageText` as its exact decimal digits. JavaScript's `String(n)` gives the exact digits only up to 2^53 in magnitude. Above that it gives the shortest round-tripping digits padded with zeros (2^60 becomes "1152921504606847000"), and from 1e21 on it uses exponent notation ("1e+21"). Only the text after "Mois invalide: " differs: both the model and the route reject every such number, so acceptance is not affected.
- Text.DecimalString: exact decimal digits for every integer. This matches JavaScript's `String(n)` only for |n| <= 2^53, for the reason above.
- `toLowerCase` maps ASCII and Latin-1 letters only. Other Unicode case mappings are not modelled; they cannot turn a key into a month name the tables hold.
- `Object.prototype` members are reduced to the two all-lower-case ones, "constructor" and "__proto__". A trimmed, lower-cased key can never name the others, because their names contain capital letters.
- A null entry in `timestamp` is not modelled: timestamps are integers. Null closes are modelled.
- Handler.Handle: it uses the corrected `Months.ParseMonth`. For a month such as "constructor" or "__proto__" the model answers 400 "Mois invalide", whereas the route as written answers 200 with month windows built from NaN (see Findings).
- `encodeURIComponent` on a ticker holding a lone surrogate throws outside the request's `try`, so the route fails. Strings here hold only Unicode scalar values, so this case is not modelled.
- Handler.AnalyzeAll: requires exactly ten years, which is what the route always passes (`pickYearsForLast10`).

## Findings

| source | as written | input that shows it | evidently intended | confidence | as-written member | corrected member |
|---|---|---|---|---|---|---|
| pages/api/analyze.js:47-48 | `FRENCH_MONTHS[s]` and `ENGLISH_MONTHS[s]` read plain object literals, so a lookup also finds inherited members. "constructor" yields the `Object` function and "__proto__" yields `Object.prototype`. Both are truthy and are returned as the month. | month `"constructor"` (also `" Constructor "` or `"__proto__"`) | the month is rejected with 400 "Mois invalide: constructor" | high, not executed | Months.ConstructorAcceptedAsWritten | Months.ParseMonth |
