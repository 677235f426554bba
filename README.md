# ios-health server core, modelled in Dafny

ios-health stores one row of daily health metrics per calendar date. The iOS app sends steps,
kcals, km, flights climbed and weight to `POST /dump`. A dashboard reads ranges of records and
edits single days with `PATCH /api/health-data/<date>`. Daily goals are the averages of past
records rounded up. A daily Telegram summary compares yesterday with goals built from the
preceding year.

This project models that core and proves properties of it:

- `Calendar` (`calendar.dfy`) models Python's `date` from 0001-01-01 to 9999-12-31.
  - `date.toordinal()`, and `d - timedelta(days = n)` with `None` where Python raises `OverflowError`.
  - naive timestamps and their order.
  - `isoformat()` and a decoder for it.
- `Rounding` (`rounding.dfy`) models:
  - `math.ceil`.
  - `int()` of a float, which truncates toward zero.
  - `_round_up_to_nearest`. It is defined identically in `src/health_goals.py` and `src/summary_notifier.py`, and modelled once.
- `HealthDumpStore` (`health_dump_store.dfy`) models the `health_dumps` table.
  - It is a class whose `rows` field maps each date to its stored row.
  - Its `Upsert` method is `upsert_health_dump`. A dump replaces a row only if it was recorded strictly later.
  - The `NOT NULL` columns make an incomplete dump fail, and so does a steps value outside SQLite's 64-bit `INTEGER`.
- `HealthGoals` (`health_goals.dfy`) models `_compute_goals` and `get_goals`.
- `SummaryNotifier` (`summary_notifier.dfy`) models everything `send_summary_message_to_telegram` computes before it formats and posts the message:
  - the query window.
  - the date guard.
  - the truncation of yesterday's kcals, which goes through the alias `today_stats = health_stats[0]` into the list the averages read.
  - the `filter(None, …)` lists.
  - the goals and the percents.
  - the latest weight.
  - each exception the computation can raise.
- `App` (`app.dfy`) models the request logic of `src/app.py`:
  - the `date` shortcut of `GET /api/health-data`.
  - the shape check, lookup, body check, field merge and upsert of the PATCH handler.
  - the required-fields check, the weight's decimal comma and the upsert of `POST /dump`.
- `Wrappers` (`wrappers.dfy`) holds `Option` and `Result`.

Python's `int()` and `float()` on text are kept abstract. They are the two partial functions of an
`App.Parsers` value. Numbers and booleans are converted as Python converts them. The clock
(`datetime.now()`) is a parameter, and so are the rows a database query returns.

## Model

| member | source | states |
|---|---|---|
| Calendar.MinusDays | src/summary_notifier.py:27-28 | `date - timedelta(days=n)` exists exactly when the ordinal of `d` exceeds `n`; it is then a valid date whose ordinal is exactly `n` less, strictly earlier than `d` for `n > 0` and `d` itself for `n == 0` |
| Calendar.OrdinalOfPrevDay | src/summary_notifier.py:28 | the day before a date has the ordinal one less, across month and year ends and leap days |
| Calendar.OrdinalPositive | src/summary_notifier.py:27 | the ordinal of a valid date is at least 1, and 1 only for 0001-01-01, as `date.toordinal()` counts |
| Calendar.DaysBeforeNextYear | src/summary_notifier.py:27 | consecutive year starts are 366 days apart after a Gregorian leap year and 365 otherwise |
| Calendar.Iso | src/summary_notifier.py:27-28 | `isoformat()` is ten characters: digits with dashes at positions 4 and 7 |
| Calendar.PrevDay | src/summary_notifier.py:28 | the day before a date is valid, earlier, and no valid date lies between the two |
| Calendar.IsoRoundTrip | src/summary_notifier.py:27-28 | decoding the `isoformat()` text of a valid date gives the date back |
| Calendar.IsoInjective | src/summary_notifier.py:32 | two dates with the same ISO text are the same date, so the date guard's string comparison is a date comparison |
| Calendar.AtOrBeforeTotal | ios_health_dump.py:50 | the `<=` on recorded timestamps is total, antisymmetric and reflexive |
| Rounding.Ceil | src/health_goals.py:15 | `math.ceil(x)` is the least integer not below `x` |
| Rounding.Trunc | src/summary_notifier.py:36 | `int()` of a float truncates toward zero, for both signs |
| Rounding.RoundUpToNearest | src/health_goals.py:13-15 | for a positive step, the result is a multiple of the step, at least the value, and less than one step above it |
| Rounding.RoundUpIsLeastMultiple | src/summary_notifier.py:16-18 | no multiple of the step that is at least the value is below the rounded result |
| Rounding.RoundUpSign | src/health_goals.py:13-15 | a value of zero rounds to 0, a non-positive value to at most 0, a positive value to at least one step |
| HealthDumpStore.RowOf | ios_health_dump.py:55-66 | the row written holds the dump's date, steps, kcals, km and recorded time, and nothing else |
| HealthDumpStore.ShouldUpdate | ios_health_dump.py:47-53 | a dump with the stored `recorded_at` is skipped; an update of a stored date means the dump is strictly newer |
| HealthDumpStore.Upserted | ios_health_dump.py:54-67 | the table after the write gains at most the dump's date, a new date holds the dump's row, and every other date keeps its row |
| HealthDumpStore.UpsertResult | ios_health_dump.py:37-77 | the upsert fails exactly when it would write a dump with a null steps, kcals or km or a steps value outside 64 bits; otherwise it returns the row count afterwards |
| HealthDumpStore.HealthDumpTable.Upsert | ios_health_dump.py:37-78 | the outcome and the new rows are the upsert of the old rows; a failed insert (`NOT NULL` or a steps value outside SQLite's 64-bit `INTEGER`) leaves the rows unchanged; the returned count is the number of rows afterwards |
| HealthDumpStore.OversizedStepsFail | ios_health_dump.py:55-77 | a steps value outside 64 bits makes the upsert raise exactly when the dump would be written |
| HealthDumpStore.InsertWhenAbsent | ios_health_dump.py:47-67 | a complete dump for a new date is inserted with exactly its stored fields |
| HealthDumpStore.SkipWhenNotNewer | ios_health_dump.py:48-52 | a dump recorded at or before the stored row, equal times included, changes nothing |
| HealthDumpStore.ReplaceWhenNewer | ios_health_dump.py:50-67 | a strictly newer complete dump replaces the row of its date and adds no date |
| HealthDumpStore.OtherDatesUnchanged | ios_health_dump.py:44-67 | every other date keeps its row, and no other date appears or disappears |
| HealthDumpStore.CountGrowth | ios_health_dump.py:71-74 | the count grows by one exactly when the date was absent |
| HealthDumpStore.UpsertIdempotent | ios_health_dump.py:38-53 | applying the same dump twice equals applying it once |
| HealthDumpStore.UnstoredFieldsIgnored | ios_health_dump.py:57-66 | flights and weight never affect the outcome or the table |
| HealthDumpStore.StoredTimestampMonotone | ios_health_dump.py:38-53 | the stored `recorded_at` of a date never decreases ("keeps only the latest entry per day") |
| HealthGoals.GoalFor | src/health_goals.py:34-37 | a non-positive average gives 0; a positive one gives the least multiple of the step that is at least the average |
| HealthGoals.GoalForNonNegative | src/health_goals.py:34-37 | for a non-negative average the `if avg > 0 else 0` guard agrees with plain rounding |
| HealthGoals.ComputeGoals | src/health_goals.py:22-23 | no records give all-zero goals |
| HealthGoals.GoalsAreRoundedMeans | src/health_goals.py:25-38 | steps, kcals and km goals are the rounded means over every record; the flights goal is the rounded mean of the flights values |
| HealthGoals.MissingCountsAsZero | src/health_goals.py:26-28 | a missing or null steps, kcals or km value changes the goals exactly as an explicit 0 would |
| HealthGoals.FlightValuesMembers | src/health_goals.py:30 | the flights list holds exactly the non-null flights values, zeros included |
| HealthGoals.FlightValuesAppend | src/health_goals.py:30 | the flights list keeps record order: filtering a concatenation concatenates the filtered parts |
| HealthGoals.NullFlightsIgnored | src/health_goals.py:30-31 | a record without flights does not move the flights average, wherever it is added |
| HealthGoals.ZeroFlightsCount | src/health_goals.py:30-31 | a zero flights value counts: adding a 0 to a single 4 lowers the flights goal from 4 to 2 |
| HealthGoals.GoalsCoverAverages | src/health_goals.py:18-38 | with non-negative inputs every goal is non-negative and at least its average |
| HealthGoals.SumAppend | src/health_goals.py:26-28 | the sum of a concatenation is the sum of the parts |
| HealthGoals.GetGoals | src/health_goals.py:41-44 | supplied data is what the goals are computed from; fetched rows are used only without data |
| HealthGoals.SuppliedDataWins | src/health_goals.py:43-44 | with data supplied, the fetched rows have no influence |
| SummaryNotifier.GoalReached | src/summary_notifier.py:21-22 | the check mark exactly when the percent is at least 1, the cross exactly when it is below |
| SummaryNotifier.GoalReachedMeansGoalMet | src/summary_notifier.py:21-22 | for a positive goal the check mark of the percent means the day's value reached the goal |
| SummaryNotifier.SummaryWindow | src/summary_notifier.py:27-28 | the window runs from the ISO date 365 days back to yesterday's ISO date, start strictly earlier; it exists exactly when today's ordinal exceeds 365, that is when the subtraction does not overflow |
| SummaryNotifier.SummaryWindowDays | src/summary_notifier.py:27-28 | the window's two strings decode to the dates exactly 365 days and 1 day before today |
| SummaryNotifier.TruthyFlights | src/summary_notifier.py:40 | `filter(None, …)` keeps no zero and no more values than records |
| SummaryNotifier.TruthyWeights | src/summary_notifier.py:41 | `filter(None, …)` of the weights keeps no 0.0 and no more values than records |
| SummaryNotifier.WithTruncatedKcals | src/summary_notifier.py:31-36 | `today_stats` aliases `health_stats[0]`, so after line 36 the list holds the first record with integer kcals and every other record unchanged |
| SummaryNotifier.TruncationKeepsFilters | src/summary_notifier.py:36-41 | the truncation leaves both filtered lists unchanged |
| SummaryNotifier.TruthyFlightsMembers | src/summary_notifier.py:40 | the filtered flights are exactly the records' non-null, non-zero values |
| SummaryNotifier.TruthyFiltersAppend | src/summary_notifier.py:40-41 | both filters keep record order |
| SummaryNotifier.FirstTruthyWeight | src/summary_notifier.py:41-42 | the latest weight is the first record's weight that is neither null nor 0, and every earlier record has none |
| SummaryNotifier.Summarize | src/summary_notifier.py:27-35 | an overflowing window fails first, no records fail next, and a summary is only produced from rows whose first record is yesterday's |
| SummaryNotifier.SummaryOfRows | src/summary_notifier.py:36-54 | no truthy weight fails first, no truthy flights next; a summary reports the first record's date, its truncated kcals and a non-zero weight |
| SummaryNotifier.SummaryGoals | src/summary_notifier.py:44-49 | the steps goal is whole thousands, the kcals goal whole hundreds, and the flights goal at least the truthy-flights mean |
| SummaryNotifier.SummarizeSucceedsIff | src/summary_notifier.py:27-54 | a summary is produced exactly when the window exists, the first row is yesterday's, there is a weight and a truthy flights value, yesterday has flights, and no goal computed over the rows with the first kcals truncated is 0 |
| SummaryNotifier.WrongFirstDateRejected | src/summary_notifier.py:31-35 | a first record dated other than yesterday raises the wrong-dates error naming both dates |
| SummaryNotifier.SummaryContents | src/summary_notifier.py:31-36 | a summary is about yesterday, and its date is the first record's date |
| SummaryNotifier.SummaryOfRowsContents | src/summary_notifier.py:36-54 | the summary carries the first record's values with kcals truncated, the goals over the rows with that truncation applied, each percent as value over goal, and a non-zero latest weight |
| SummaryNotifier.SummaryGoalsAreLeastMultiples | src/summary_notifier.py:44-49 | every summary goal (steps, kcals, km, flights) is the least multiple of its step at or above its mean: over all rows for the first three, over the truthy flights for flights |
| SummaryNotifier.GoalsAgreeWithApi | src/summary_notifier.py:36-47 | for non-negative records the summary's steps and km goals equal those of `_compute_goals` on the stored records; its kcals goal equals `_compute_goals` only on the records with the first kcals truncated |
| SummaryNotifier.GoalsAgreeOnRows | src/summary_notifier.py:44-47 | on the same non-negative rows the summary's mean-and-round-up agrees with `_compute_goals` for steps, kcals and km |
| SummaryNotifier.KcalsGoalsDiverge | src/summary_notifier.py:36-52 | a single day at 100.5 kcals gets a kcals goal of 100 and a check mark in the summary, but 200 from `_compute_goals` |
| SummaryNotifier.TruncatedKcalsZeroGoal | src/summary_notifier.py:36-52 | a single day at 0.5 kcals truncates to a kcals goal of 0, so the percent divides by zero, while `_compute_goals` gives 100 |
| SummaryNotifier.SingleRowGoals | src/summary_notifier.py:44-48 | the goals of a single record are its own values rounded up |
| SummaryNotifier.FlightsGoalsDiverge | src/summary_notifier.py:40-48 | the flights goals differ: records with flights 4 and 0 give 4 in the summary and 2 in `_compute_goals` |
| App.ReplaceCommas | src/app.py:99 | `replace(",", ".")` keeps the length, leaves no comma, and changes exactly the commas |
| App.ReplaceCommasIdempotent | src/app.py:127 | normalising twice is normalising once |
| App.ReplaceCommasKeepsCommaFree | src/app.py:127 | text without commas is unchanged |
| App.DecimalCommaExample | src/app.py:127 | "72,5" becomes "72.5" |
| App.IntOf | src/app.py:94-97 | `int()` of null fails, of a number truncates toward zero for both signs, of text is the text parser's result |
| App.FloatOf | src/app.py:95-96 | `float()` of null fails, of a number is the number, of text is the text parser's result |
| App.StatusCode | src/app.py:73-124 | 404 only for a missing record, 500 only for an uncaught exception, 400 for every other rejection |
| App.Lower | src/app.py:61 | lowering keeps the length and lowers each character |
| App.TodayKeywordIsCaseInsensitive | src/app.py:61 | the keyword is "today" in any mix of cases, and nothing else |
| App.HealthDataRange | src/app.py:55-64 | a non-empty `date` parameter sets both bounds to one day, today's ISO date for the keyword; otherwise the explicit bounds pass through |
| App.IsDateShape | src/app.py:73 | every string that decodes as an ISO date passes the shape check |
| App.IsoHasDateShape | src/app.py:73 | every ISO date passes the shape check |
| App.ShapeCheckIgnoresDigits | src/app.py:73 | only length and dashes are checked: "abcd-ef-gh" passes though no date renders to it; "2024-1-05" and "2024/01/05" fail |
| App.Merge | src/app.py:85-91 | an absent key keeps the stored value, `null` clears it, any other value goes through the parser |
| App.MergeParserUnused | src/app.py:86-90 | an absent or null key never consults the parser and never fails |
| App.MergeAbsentKeeps | src/app.py:86-87 | adding other keys to the body keeps the stored value of an absent key |
| App.ParseWeight | src/app.py:98-100 | an empty weight clears, a weight text is read with ',' as the decimal separator and fails exactly when that text does not parse, a boolean fails |
| App.MergeFields | src/app.py:93-100 | an empty body keeps all five stored values; a steps text is parsed with `int()` |
| App.PatchDump | src/app.py:73-113 | a PATCH dump exists only for a well-shaped date with a record and a body, carries that date and `now`, and its errors are never the POST ones |
| App.PatchErrors | src/app.py:73-102 | 400 for a bad shape, 404 for no record, 400 for a missing or empty body, 400 for an unparsable field, each exactly when its check is the first to fail |
| App.PatchMerges | src/app.py:85-113 | a successful PATCH writes the requested date, stamped now; absent fields keep the stored values, a null clears, an empty weight clears, a weight text is read with ',' as the decimal separator |
| App.UpdateHealthData | src/app.py:70-116 | a rejected request leaves the table unchanged; a merged dump the insert refuses (null steps, kcals or km, or steps outside 64 bits) answers 500 and leaves the table unchanged; otherwise the table is the upsert of the dump and the dump is returned |
| App.DumpFromBody | src/app.py:122-136 | an accepted dump is dated today's ISO date and stamped now; a rejection is either the 400 for missing fields or a 500 |
| App.DumpRequiresFields | src/app.py:123-124 | `POST /dump` gets 400 exactly when the body is missing or lacks steps, kcals or km |
| App.DumpContents | src/app.py:126-136 | an accepted dump is dated today's ISO date, stamped now, has steps, kcals and km, holds the converted fields, and its weight is the comma-normalised text, or `None` when the weight is absent or falsy |
| App.Dump | src/app.py:119-140 | a rejection leaves the table unchanged; a dump the insert refuses (steps outside 64 bits) answers 500 and leaves it unchanged; otherwise the table is the upsert of the dump, and the reply holds the dump and the new row count |

## Left out

- Flask routing, `jsonify`, response bodies and messages, the favicon, index and status routes, and `main`. These are framework plumbing; only the status code and the returned dump are modelled.
- The older root `app.py`, `db.py` and `git_commit_scheduler.py`. They are not part of the core.
- Which upsert the handlers reach. `src/app.py` and `src/summary_notifier.py` import `src.ios_health_dump`, which is not part of this model. The handlers are wired to the upsert of the root `ios_health_dump.py`, which stores only date, steps, kcals, km and `recorded_at`. Under that table a PATCH of `flights_climbed` or `weight` stores nothing (`HealthDumpStore.UnstoredFieldsIgnored`), although the handler merges both fields and the notifier reads them back from the query. The query rows are parameters, so the model does not tie what the summary reads to what was stored.
- `get_all_health_data` and its date-range query. `src/ios_health_dump.py` is not part of this model. Its results are parameters: `existing` of the PATCH handler and the `rows` of the summary.
- The SQLite connection, `init_health_dumps_table` and the transaction. The table is a map from each date to its row. Only the five columns of the table definition in `ios_health_dump.py` are stored.
- `datetime.fromisoformat(recorded_at.isoformat())` is taken as the identity on timestamps.
- `get_all_health_data()` at the end of `dump`: its result is unused.
- The `data is None` branch of `get_goals`, which queries the preceding window. `HealthGoals.GetGoals` takes the fetched rows as a parameter.
- The Telegram message text, the `strftime` date formatting and the HTTP post with its error logging. They are I/O and formatting.
- `round(km, 2)` of the summary (`src/summary_notifier.py:37`). The model keeps the stored km, because it works on exact reals rather than binary floats. Through the same alias as the kcals truncation, the rounded km is what the km mean of line 46 sums and what the km zero-goal test sees; the model sums and tests the unrounded value.
- The write through the alias `today_stats = health_stats[0]` is modelled on values: `SummaryNotifier.WithTruncatedKcals` is the list after the write, and the model does not represent the dicts as shared objects.
- Floating-point arithmetic in general. Sums, means and percents are exact reals.
- Text parsing by `int()` and `float()`. It is abstract and taken as parameters. Bytes, encodings and Unicode case mapping beyond ASCII are not modelled. No non-ASCII character lowers to a letter of "today", so this does not change the keyword test.
- JSON arrays and objects as field values. A field is null, a boolean, a number or a string.
- Request bodies that are not JSON objects. A non-empty list or string passes `not data`, and then `key in data` tests list membership or substring, and `data[key]` raises. The model's body is always an object or absent.
- `HealthDump` validation and `to_dict`. `src/datamodels.py` is not part of this model.
- The clock. `datetime.now()` is the parameter `now` or `today`. The notifier reads the clock twice (`src/summary_notifier.py:27-28`); if midnight falls between the reads, the window spans 366 days. The model reads one `today`.
- Floats that SQLite stores as NULL, such as NaN kcals or km, and so fail the `NOT NULL` constraint. Exact reals have no NaN.
