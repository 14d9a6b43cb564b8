# CloudFront access-log pipeline: a Dafny model

This project models the Lambda functions of the Amazon CloudFront access-logs query pipeline. They do four jobs.

- They move every log object whose key carries a CloudFront timestamp into a partitioned layout `year=/month=/day=/hour=/`.
- They create the Athena partition for the coming hour.
- They convert the hour containing the time two hours before the run from gzip to Parquet.
- Once a day, they insert the gzip rows that are still missing from the Parquet table.

Each handler's decisions are modelled:

- which key a log file moves to;
- which partition a statement names;
- which day the daily job processes;
- which rows the anti-join selects;
- how waiting on an Athena query ends.

The JavaScript `Date` built-ins that the handlers rely on are modelled as section 21.4 of ECMA-262 (13th edition, 2022) defines them. They are:

- the time value and its clipping;
- `Day`, `YearFromTime`, `DateFromTime` and `HourFromTime`, with `MonthFromTime` as the 0-based month of the decoded date;
- `MakeDay`, `MakeTime` and `MakeDate`;
- the Date Time String Format (section 21.4.1.15);
- `Date.prototype.setDate` (section 21.4.4.20).

The modules are:

- `Wrappers`: `Option`.
- `Decimal`:
  - `Number.prototype.toString` for integers;
  - `padStart(2, '0')`;
  - reading digit strings back.
- `EcmaTime`:
  - the day, year, month, date and hour arithmetic of section 21.4.1;
  - calendar successor and predecessor days and hours, with their round trips.
- `DateString`:
  - `new Date(string)` for strings in the `YYYY-MM-DDTHH:mm:ssZ` form, which is what a well-formed `dth` or `dt` yields;
  - every other string goes to a host parser given as a parameter.
- `JsDate`:
  - a `DateObject` class whose time value `setDate` updates in place;
  - `getDate`, which on a UTC host is `getUTCDate`.
- `PartitionFields`: the `year`/`month`/`day`/`hour` strings that the handlers derive from a time value. A NaN time value renders as `"NaN"`.
- `CreatePartitions`: `createPartitions.js` and `createPartitions.mjs`.
- `TransformPartition`: `transformPartition.js` and `transformPartition.mjs`, which have the same body.
- `TransformMissingGz`: `transformMissingGzDataDaily.js`. It has:
  - the handler as a method using `DateObject`;
  - a model of its anti-join `INSERT … SELECT`.
- `AccessLogs`: `moveAccessLogs.mjs`. It has:
  - the leftmost-match date pattern;
  - the file-name pattern;
  - the target key;
  - the handler loop over the event's records, with the S3 requests and error callbacks it issues.
- `QueryRunner`: `util.mjs`. It has the polling loop and the submission.

Some inputs are parameters of the model:

- the clock, `Date.now()`, is an integer parameter `now`;
- the environment variables are a `Config` or an `Option` parameter;
- the replies of S3 and Athena are parameters;
- the host's fallback date parser is a parameter.

A handler that reaches `util.runQuery(statement)` is modelled as `RunsQuery(statement)`. A handler that throws is modelled as `Throws(message)`.

## Model

| member | source | states |
|---|---|---|
| Decimal.NatToString | functions/createPartitions.js:19-21 | The decimal text of a natural number is a non-empty digit string. It starts with '0' exactly when the number is zero. |
| Decimal.ValueOfIntToString | functions/createPartitions.js:18 | The year text reads back as the year: for a non-negative year it is all digits with that value; for a negative year it is '-' followed by digits whose value is the magnitude. |
| Decimal.PadStart2Value | functions/createPartitions.js:19-21 | Padding digit text with '0' on the left gives at least two digits and keeps the value the text reads back as. |
| Decimal.ValueOfNatToString | functions/createPartitions.js:19-21 | Reading back the decimal text of n gives n. |
| Decimal.NatToStringOfValue | functions/createPartitions.js:13 | A digit string without a leading zero is the decimal text of its own value. This is the other direction of the round trip. |
| Decimal.TwoDigitsValue | functions/createPartitions.js:19-21 | For n below 100, the padded text has two digits and reads back as n. |
| Decimal.TwoDigitsOfValue | functions/transformMissingGzDataDaily.js:43-45 | Any two-digit string is the padded text of its own value. |
| EcmaTime.DaysInYearCount | functions/createPartitions.js:18 | A year has 366 days by the Gregorian leap rule (divisible by 4, not by 100 unless by 400), otherwise 365. |
| EcmaTime.DayFromYearStep | functions/createPartitions.js:18 | The first day of year y+1 follows year y's first day by the length of year y. |
| EcmaTime.DayFromYearCycle | functions/createPartitions.js:18 | Every 400 years from 1970 span exactly 146097 days. |
| EcmaTime.YearFromDayUnique | functions/createPartitions.js:18 | A day lying between the first days of years y and y+1 belongs to year y. |
| EcmaTime.YearFromTimeIsLargest | functions/createPartitions.js:18 | `YearFromTime(t)` is the largest year whose start is not after t, as ECMA-262 defines it. |
| EcmaTime.MonthUnique | functions/createPartitions.js:19 | A day of the year lying within month m's span belongs to month m. |
| EcmaTime.DateOfDay | functions/createPartitions.js:18-20 | The decoded date is a valid calendar date. That it is the only valid date with that day number is `DateOfDayUnique`. |
| EcmaTime.DateOfDayUnique | functions/createPartitions.js:18-20 | A valid calendar date whose day number is d is the date that d decodes to, so the decomposition is unique. |
| EcmaTime.MakeDay | functions/transformMissingGzDataDaily.js:40 | Definition of section 21.4.1.13 on integers (no ensures of its own). Its meaning is stated by `DateOfMakeDay` and `MakeDayInYear`. |
| EcmaTime.DateOfMakeDay | functions/transformMissingGzDataDaily.js:35 | `MakeDay` of a valid date decodes back to that date. |
| EcmaTime.NextDayNumber | functions/createPartitions.js:18-20 | The calendar successor of a valid date has the next day number. |
| EcmaTime.DateOfNextDay | functions/createPartitions.js:18-20 | Day d+1 decodes to the calendar successor of day d's date. |
| EcmaTime.DateOfPrevDay | functions/transformMissingGzDataDaily.js:38-45 | Day d-1 decodes to the calendar predecessor of day d's date. |
| EcmaTime.NextDay | functions/createPartitions.js:18-20 | The successor of a valid date is a valid date. |
| EcmaTime.PrevDay | functions/transformMissingGzDataDaily.js:40 | The predecessor of a valid date is a valid date. |
| EcmaTime.NextHour | functions/createPartitions.js:13 | The successor of a valid UTC hour is a valid UTC hour. |
| EcmaTime.PrevHour | functions/transformPartition.js:12 | The predecessor of a valid UTC hour is a valid UTC hour. |
| EcmaTime.HourFromTimeWithinDay | functions/createPartitions.js:21 | `getUTCHours` is the hour of the time within its day, between 0 and 23. |
| EcmaTime.HourOfLayout | functions/createPartitions.js:14 | A time that lies h hours into a valid date's day decodes to that date and hour. |
| EcmaTime.HourOfMakeDate | functions/createPartitions.js:14 | `MakeDate(MakeDay(..), MakeTime(..))` of in-range fields decodes to the same date and hour. |
| EcmaTime.MakeDateOfHourOf | functions/createPartitions.js:18-21 | Rebuilding a time from its date and hour gives the time truncated to the hour. |
| EcmaTime.HourOfPlusHour | functions/createPartitions.js:13-21 | One hour after t is `NextHour` of t's calendar hour, including day, month and year rollover. |
| EcmaTime.HourOfMinusHour | functions/transformPartition.js:12-16 | One hour before t is `PrevHour` of t's calendar hour. |
| EcmaTime.HourOfMinusDay | functions/transformMissingGzDataDaily.js:39-45 | One day before t falls on the calendar predecessor of t's date, at the same hour. |
| EcmaTime.HourOfPlusDays | functions/transformMissingGzDataDaily.js:40 | k whole days later (or earlier) is the same hour of the day on the day k days on. |
| EcmaTime.MakeDayInYear | functions/transformMissingGzDataDaily.js:40 | For a month inside the year, `MakeDay` counts the date from the month's first day, even when the date is outside the month. |
| DateString.Parse | functions/createPartitions.js:14 | The result is NaN or a clipped time value. A string of the date-time form with a month, day, hour, minute or second out of range is NaN. |
| DateString.FormattedInRange | functions/createPartitions.js:14 | Every existing date with a four-digit year is inside the time-value range. |
| DateString.ParseValue | functions/createPartitions.js:14 | A well-formed string with an existing day parses to `MakeDate` of its fields. |
| DateString.ParseWellFormed | functions/createPartitions.js:13-14 | A well-formed `YYYY-MM-DDTHH:mm:ssZ` with hour below 24 parses to a time in that date and hour. |
| DateString.ParseHour24 | functions/createPartitions.js:13-14 | Hour 24 with zero minutes and seconds parses to hour 0 of the next day. |
| DateString.WithMinutes | functions/createPartitions.js:13 | Appending `:00:00Z` to a `YYYY-MM-DDTHH` string gives the date-time form, whose fields are the ones written in `dth`. |
| DateString.WithTime | functions/transformMissingGzDataDaily.js:35 | Appending `T00:00:00Z` to a `YYYY-MM-DD` string gives the date-time form at midnight of that date. |
| PartitionFields.RenderHourReadsBack | functions/createPartitions.js:18-21 | The four rendered fields read back as the year, the 1-based month, the date and the hour. Month, day and hour have exactly two digits. |
| PartitionFields.NatToStringInjective | functions/createPartitions.js:19-21 | Different numbers render differently. |
| PartitionFields.IntToStringInjective | functions/createPartitions.js:18 | Different years render differently. |
| PartitionFields.RenderHourInjective | functions/createPartitions.js:18-21 | Different UTC hours render to different partition fields. |
| PartitionFields.RenderedIsNotNaN | functions/createPartitions.js:15-19 | A valid time value never renders its month as "NaN". |
| PartitionFields.FieldsOfHour | functions/createPartitions.js:18-21 | The fields of a valid time value are the rendering of its calendar hour. |
| PartitionFields.FieldsDetermineHour | functions/transformPartition.js:13-16 | Two time values with equal fields lie in the same UTC hour. |
| PartitionFields.FieldsOfDay | functions/transformMissingGzDataDaily.js:43-45 | The day fields of a valid time value are the rendering of its calendar date. |
| PartitionFields.RenderWrittenHour | functions/createPartitions.js:13-21 | Rendering the hour named by a real `dth` gives back the four substrings written in `dth`. |
| PartitionFields.RenderWrittenDay | functions/transformMissingGzDataDaily.js:35-45 | Rendering the day named by a real `dt` gives back the three substrings written in `dt`. |
| JsDate.DateOfIsCalendarDate | functions/transformMissingGzDataDaily.js:40 | For a valid time value, `getDate` is between 1 and 31 and is the date of its calendar day. |
| JsDate.DateObject.Now | functions/transformMissingGzDataDaily.js:39 | `new Date()` holds the clipped clock value. |
| JsDate.DateObject.FromString | functions/transformMissingGzDataDaily.js:35 | `new Date(string)` holds the parsed value. |
| JsDate.DateObject.GetDate | functions/transformMissingGzDataDaily.js:40 | `getDate` is NaN exactly for an invalid date. Otherwise it is between 1 and 31 and is the date of the object's calendar day. |
| JsDate.SetDateValue | functions/transformMissingGzDataDaily.js:40 | Definition of `setDate` on time values, as section 21.4.4.20 of ECMA-262 gives it (no ensures of its own). Its meaning is stated by `SetDateShift`, `SetDateMinusOne`, `SetDateSame` and `SetDateInMonth`. |
| JsDate.SetDateShift | functions/transformMissingGzDataDaily.js:40 | `setDate(n)` moves the time by whole days, n minus the current date, keeps the time of day, and clips the result. |
| JsDate.DateObject.SetDate | functions/transformMissingGzDataDaily.js:40 | The object's new time value is `setDate` applied to its old one. It is NaN if either is NaN. |
| JsDate.SetDateMinusOne | functions/transformMissingGzDataDaily.js:40 | Setting the date to one less than the current date moves the time back exactly one day (24 h), including from the 1st into the previous month. |
| JsDate.SetDateSame | functions/transformMissingGzDataDaily.js:40 | Setting the current date leaves the time value unchanged. |
| JsDate.SetDateInMonth | functions/transformMissingGzDataDaily.js:40 | Setting a date inside the month keeps the year, month and hour and changes only the date. |
| CreatePartitions.CommonJsHandler | functions/createPartitions.js:10-34 | Definition of the CommonJS handler (no ensures of its own). Its meaning is stated by `NextHourPartition`, `DthRoundTrip`, `DthOutOfBounds`, `DthHour24` and `ClockOutOfRange`. |
| CreatePartitions.EsModuleHandler | functions/createPartitions.mjs:10-28 | Definition of the ES-module handler (no ensures of its own). Its meaning is stated by `NextHourPartition` (the same statement as the CommonJS handler without `dth`) and `ClockOutOfRange`. |
| CreatePartitions.NextHourPartition | functions/createPartitions.js:13-33 | Without `dth`, the statement adds the partition for the calendar hour after the clock's hour. |
| CreatePartitions.ClockOutOfRange | functions/createPartitions.mjs:11-27 | Without `dth`, the CommonJS handler throws 'invalid dth' exactly when the next hour lies outside the time range, on either side. There the ES-module handler, which has no check, runs a statement with "NaN" fields; inside the range its month is never "NaN". |
| CreatePartitions.MonthEndRollover | functions/createPartitions.js:18-21 | At 23:00 on a month's last day, the next partition is hour 00 of the 1st of the next month. |
| CreatePartitions.PaddedSmall | functions/createPartitions.js:19-21 | Hour 0 and 1 render as "00" and "01". |
| CreatePartitions.DthRoundTrip | functions/createPartitions.js:13-31 | A `dth` naming a real hour yields a statement whose partition values are exactly the substrings of `dth`. |
| CreatePartitions.DthFields | functions/createPartitions.js:13-21 | A real `dth` parses to a time in the hour it names. |
| CreatePartitions.DthOutOfBounds | functions/createPartitions.js:13-16 | A `dth` with month outside 1..12, day outside 1..31 or hour above 24 throws 'invalid dth'. |
| CreatePartitions.DthHour24 | functions/createPartitions.js:13-21 | A `dth` at hour 24 creates the partition for hour 00 of the following day. |
| CreatePartitions.NewYearExample | functions/createPartitions.js:13-31 | At 2021-01-01T00:00Z the partition created is year 2021, month 01, day 01, hour 01. |
| TransformPartition.Handler | functions/transformPartition.js:11-30 | Definition of the handler of both `transformPartition` files (no ensures of its own). Its meaning is stated by `TwoHoursBack`, `ConsecutiveRuns` and `DistinctHoursDistinctStatements`. |
| TransformPartition.TwoHoursBack | functions/transformPartition.js:12-29 | The statement converts the partition of the calendar hour two hours before the clock's hour. |
| TransformPartition.MidnightRollsBack | functions/transformPartition.js:12-16 | At 00:xx or 01:xx the converted hour is 22 or 23 of the previous day. |
| TransformPartition.SameDayTwoHoursBack | functions/transformPartition.js:12-16 | From 02:00 on, the converted hour is on the same day, two hours earlier. |
| TransformPartition.ConsecutiveRuns | functions/transformPartition.js:12-16 | Runs one hour apart convert consecutive hours, so hourly runs cover every hour. |
| TransformPartition.DistinctHoursDistinctStatements | functions/transformPartition.mjs:12-27 | Runs in different hours convert different partitions. |
| TransformPartition.ClockOutOfRange | functions/transformPartition.mjs:12-16 | A clock two hours back outside the time range, on either side, yields partition fields "NaN". Inside the range the month is never "NaN". |
| TransformMissingGz.InsertMissingStatement | functions/transformMissingGzDataDaily.js:8-30 | Definition of the statement text for a day's fields (no ensures of its own). The rows it selects are modelled by `MissingRows`; the fields it is built from are stated by `Handler`, `YesterdayIsPrevDay` and `DtRoundTrip`. |
| TransformMissingGz.Handler | functions/transformMissingGzDataDaily.js:33-49 | An unparsable `dt` throws 'invalid dt'. Otherwise the handler runs the insert statement for the day `dt` names, or for yesterday when `dt` is absent. |
| TransformMissingGz.YesterdayBySetDate | functions/transformMissingGzDataDaily.js:39-40 | `new Date()` followed by `setDate(getDate() - 1)` is the clock minus one day, or NaN when the clock is out of range. |
| TransformMissingGz.YesterdayIsPrevDay | functions/transformMissingGzDataDaily.js:38-45 | Without `dt`, the fields name the calendar day before the clock's day. |
| TransformMissingGz.DtRoundTrip | functions/transformMissingGzDataDaily.js:34-45 | A `dt` naming a real day yields exactly the year, month and day substrings of `dt`. |
| TransformMissingGz.DtOutOfBounds | functions/transformMissingGzDataDaily.js:34-37 | A `dt` with month outside 1..12 or day outside 1..31 gives an invalid date, so the handler throws. |
| TransformMissingGz.RowsOfDay | functions/transformMissingGzDataDaily.js:13-16 | The gzip rows selected are exactly the rows of the processed day, each as many times as it occurs in the source. |
| TransformMissingGz.KeysOf | functions/transformMissingGzDataDaily.js:17-21 | The Parquet keys are exactly the `(dth, request_id)` pairs of the target rows. |
| TransformMissingGz.Unmatched | functions/transformMissingGzDataDaily.js:22-27 | The left join keeps each gzip row with its multiplicity when it has no Parquet partner, and drops it otherwise. |
| TransformMissingGz.MissingRows | functions/transformMissingGzDataDaily.js:10-27 | The inserted rows are source rows (no more often than in the source) and all lie on the processed day. The exact selection is `MissingRowsExactly`. |
| TransformMissingGz.MissingRowsExactly | functions/transformMissingGzDataDaily.js:10-27 | A row is inserted iff it is in the source on the processed day and no target row on that day has the same `dth` and the same non-null request id. It is then inserted as many times as it occurs in the source, otherwise not at all. |
| TransformMissingGz.SameDayDth | functions/transformMissingGzDataDaily.js:18-25 | On one day, two rows' `dth` values agree exactly when their hours agree. |
| TransformMissingGz.SecondRunSelectsNothing | functions/transformMissingGzDataDaily.js:10-29 | When every request id on the day is non-null, a second run for the same day inserts nothing. |
| TransformMissingGz.NullRequestIdReselected | functions/transformMissingGzDataDaily.js:24-27 | A row with a null request id is inserted again on every run. |
| TransformMissingGz.OtherDaysUntouched | functions/transformMissingGzDataDaily.js:13-20 | Only rows of the processed day are inserted, and target rows of other days do not change the selection. |
| TransformMissingGz.ConcatCancel | functions/transformMissingGzDataDaily.js:18 | Strings with a common prefix are equal iff their tails are. |
| AccessLogs.FindDate | functions/moveAccessLogs.mjs:16-25 | The result is the leftmost position from which the date pattern matches. None means no position matches. |
| AccessLogs.SegmentStart | functions/moveAccessLogs.mjs:17 | The file name starts after the last '/' or at the key's start. |
| AccessLogs.Filename | functions/moveAccessLogs.mjs:31-32 | A file name exists iff the key is non-empty and does not end in '/'. It is the key's longest '/'-free suffix. |
| AccessLogs.RouteOf | functions/moveAccessLogs.mjs:24-34 | Definition of a key's route: skip, fail or move (no ensures of its own). Its meaning is stated by `NoTimestampSkips`, `LeftmostTimestampWins`, `TrailingSlashThrows` and `MoveKeepsFilename`. |
| AccessLogs.NoTimestampSkips | functions/moveAccessLogs.mjs:24-27 | A key is skipped iff the date pattern matches nowhere in it. |
| AccessLogs.LeftmostTimestampWins | functions/moveAccessLogs.mjs:24-34 | The target key uses the groups of the leftmost match and the key's file name. |
| AccessLogs.TrailingSlashThrows | functions/moveAccessLogs.mjs:31-32 | A dated key ending in '/' has no file name, so the handler fails. |
| AccessLogs.MoveKeepsFilename | functions/moveAccessLogs.mjs:31-34 | The target key ends with the same file name as the source key. |
| AccessLogs.SegmentAfterSlash | functions/moveAccessLogs.mjs:17 | After "head/" followed by a '/'-free name, the file name starts right after the slash. |
| AccessLogs.CloudFrontKeyMoves | functions/moveAccessLogs.mjs:16-34 | A CloudFront log key `dir/ID.YYYY-MM-DD-HH.tail` moves to `prefix` + `year=YYYY/month=MM/day=DD/hour=HH/` + its file name. |
| AccessLogs.StampWindow | functions/moveAccessLogs.mjs:16 | The stamp between the two dots matches the date pattern at the first dot. |
| AccessLogs.NoEarlierStamp | functions/moveAccessLogs.mjs:16 | A key head without '-' has no match of the date pattern. |
| AccessLogs.NameSlashFree | functions/moveAccessLogs.mjs:17 | A CloudFront file name contains no '/'. |
| AccessLogs.TimestampAtStartSkipped | functions/moveAccessLogs.mjs:16-27 | For every stamp and tail, a date at the very start of the key is not matched, because the pattern needs a non-digit before it; with no later match, the key is skipped. |
| AccessLogs.MoveRequests | functions/moveAccessLogs.mjs:37-54 | A move first sends the copy of `bucket/key` to the target key. Its only other request is the delete of the same object, sent exactly when the copy succeeded. |
| AccessLogs.Run | functions/moveAccessLogs.mjs:19-58 | The record-by-record specification of the handler (no ensures of its own). Its meaning is stated by `ThrowStops`, `RequestsComeFromRecords`, `DeleteOnlyAfterCopied`, `ErrorsAreFailedCopies`, `EveryFailedCopyReported` and `EveryLogFileCopied`. |
| AccessLogs.Handler | functions/moveAccessLogs.mjs:19-58 | The requests, error callbacks and failure of the record loop are those of the record-by-record specification `Run`. |
| AccessLogs.ThrowStops | functions/moveAccessLogs.mjs:31-32 | Once a record fails, later records add no requests or errors. |
| AccessLogs.RequestsComeFromRecords | functions/moveAccessLogs.mjs:37-48 | Every request is the copy or delete of a moved record, with that record's bucket, source key and target key. |
| AccessLogs.AppendMoves | functions/moveAccessLogs.mjs:44-50 | Appending a record's requests keeps every delete preceded by its own copy. |
| AccessLogs.DeleteFollowsItsCopy | functions/moveAccessLogs.mjs:46-50 | In the model's record-by-record order, every delete comes immediately after the copy of the same object. The source sends all copies first. |
| AccessLogs.DeleteOnlyAfterCopied | functions/moveAccessLogs.mjs:44-54 | An object is deleted only if a record names that bucket and key, the key is moved, and its copy succeeded. |
| AccessLogs.SkippedKeysUntouched | functions/moveAccessLogs.mjs:24-27 | An undated key is neither copied nor deleted. |
| AccessLogs.MovesOfOtherKey | functions/moveAccessLogs.mjs:37-44 | A record's requests name only its own key. |
| AccessLogs.CopySourceDeterminesKey | functions/moveAccessLogs.mjs:38 | Within a bucket, the copy source names exactly one key. |
| AccessLogs.ErrorsAreFailedCopies | functions/moveAccessLogs.mjs:51-54 | Every reported error is "Error while copying KEY: REASON" for a moved record whose copy failed. |
| AccessLogs.EveryFailedCopyReported | functions/moveAccessLogs.mjs:51-54 | When no record fails, every moved record whose copy failed is reported with its key and reason. |
| AccessLogs.EveryLogFileCopied | functions/moveAccessLogs.mjs:20-50 | When no record fails, every dated log file is copied to its target key, and deleted when that copy succeeded. |
| QueryRunner.FirstDecisive | functions/util.mjs:10-19 | Finds the first fetch that rejects or reports SUCCEEDED, FAILED or CANCELLED. None means every fetch resolved with a non-terminal status. |
| QueryRunner.WaitForQueryExecution | functions/util.mjs:9-22 | Returns on SUCCEEDED, throws "Query ID failed: REASON" on FAILED or CANCELLED, and passes on the error of a rejected `GetQueryExecution` call, whichever comes first. The k-th fetch decides after k+1 fetches and k pauses. |
| QueryRunner.DecisiveAt | functions/util.mjs:10-19 | A deciding fetch after only non-deciding ones is the first deciding one. |
| QueryRunner.PollOutcome | functions/util.mjs:10-19 | Definition of the outcome of a sequence of fetches (no ensures of its own). Its meaning is stated by `PollOutcomeCases`, `NonTerminalWaits` and `LaterStatusesIgnored`. |
| QueryRunner.PollOutcomeCases | functions/util.mjs:10-19 | Return iff SUCCEEDED is the first deciding fetch; throw iff a rejected call, FAILED or CANCELLED is; the thrown message is the call's error for a rejection and "Query ID failed: REASON" for a status; keep polling iff no fetch decides. |
| QueryRunner.NonTerminalWaits | functions/util.mjs:19-21 | A non-terminal status, of any text, only delays the outcome by one fetch and one pause. |
| QueryRunner.LaterStatusesIgnored | functions/util.mjs:10-18 | Fetches after the first deciding one do not change the outcome. |
| QueryRunner.RunQuery | functions/util.mjs:25-34 | The statement and output location are submitted verbatim. A rejected submission is passed on without polling; otherwise the returned id is polled, and a rejected status fetch is passed on as well. |

## Left out

- S3 and Athena calls are not made. Their replies are parameters: each copy's reply, the submission's reply and the sequence of status fetches, each a status or a rejected call.
- The 100 ms pause is counted, not timed.
- The model does not capture concurrency. `Promise.all` runs the moves concurrently. Requests are modelled record by record in event order, so interleavings across records are not captured.
- `AccessLogs.DeleteFollowsItsCopy`: the adjacency it proves (each delete right after its own copy) holds in the model's record-by-record order only. In the source, the synchronous `map` sends every copy before any `.then` issues a delete; what carries over is that a delete follows its own successful copy (`AccessLogs.DeleteOnlyAfterCopied`).
- A failing delete rejects `Promise.all`; this path is not modelled (every delete is assumed to succeed).
- `console.log` output is not modelled.
- `QueryRunner.WaitForQueryExecution`: the source loops until a terminal status or a rejected call, possibly forever. The model reads a finite sequence of fetches and reports `StillPolling` when it runs out.
- `DateString.Parse` handles only the `YYYY-MM-DDTHH:mm:ssZ` form, which is what a well-formed `dth` or `dt` yields. Other strings are delegated to the host parameter. This includes:
  - expanded years;
  - date-only forms;
  - local-time forms;
  - the host's lenient legacy formats;
  - non-string `dth` and `dt` values (for instance a number in the event).
- In the date-time form, a day such as 30 February that is within 1..31 but does not exist is also left to the host, as engines differ there.
- The local time zone is not modelled. The host is assumed to run in UTC, as Lambda does; `setDate` then acts on UTC fields.
- `EcmaTime.MakeDay` is modelled on integers. The NaN it returns for non-finite arguments cannot arise from the handlers' integer inputs.
- `DateString.NamesRealHour` and `DateString.NamesRealDay` require a year without a leading zero (1000 and later), because `getUTCFullYear` renders years without padding. A `dth` such as `0999-…` therefore does not round-trip: it yields year `999`.
- `AccessLogs.CloudFrontKeyMoves` requires that the distribution id and the directory contain no '-'. Otherwise an earlier substring could match the date pattern first; `AccessLogs.LeftmostTimestampWins` covers that case.
- `TransformMissingGz` models the anti-join's row selection over sequences of rows. The rest of SQL is not modelled: column projection and Parquet storage are out of scope.
- `build/transform.py` is not part of this model. It is a build-time template tool.
- Environment variables (`DATABASE`, the table names, `TARGET_KEY_PREFIX`, `ATHENA_QUERY_RESULTS_LOCATION`) are parameters. An unset prefix renders as "undefined".
