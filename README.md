# Activity log normaliser and minute expander

This Dafny project models the two batch scripts that turn a raw activity log
into one record per minute.

- **Stage 1, `Old/clean.py`** (module `Clean`). It reads rows of the form
  `activity,D M<m> YYYY HH:MM,D M<m> YYYY HH:MM,minutes`.
  - It splits each row on `,`, then each timestamp on spaces.
  - It drops the first character of the month token.
  - It writes the date back as `YYYY-m-D HH:MM`, with no re-padding.
  - The output starts with the fixed header `activity,start,end,minutes`.
  - `NormalizeLine` is the per-line rewrite, as a function returning an
    `Option`. `Clean` is the driver loop.
- **Stage 2, `Old/minutize.py`** (module `Minutize`). It skips the first
  line as a header and writes the header `date_time,activity`.
  - For each row it parses the end field `Y-M-D H:M` into five integers and
    builds a calendar date-time.
  - It then writes `minutes` records `YYYY-MM-DD HH:MM,activity`. The first
    is at the end time; each later one is a minute earlier.
  - `ExpandRow` is the inner `for` loop and `Minutize` the outer one. Both
    are proved against the specification functions `RowStamps`, `Records`
    and `ExpandRows`.
- **Shared modules.**
  - `Calendar`: the proleptic Gregorian calendar used by `datetime` for
    years 1 to 9999. It has a day/minute numbering `ToMinutes` and the
    one-minute step `PrevMinute` behind `timedelta(minutes = 1)`.
  - `Text`: Python's one-character `str.split`, `int()` on plain decimal
    text, and the zero padding of `strftime`.
  - `Pipeline`: states that a line written by stage 1 is read back by
    stage 2 with the values of the raw fields.

Every exception the scripts can die with is an explicit error value:
- IndexError in stage 1 is `None`.
- In stage 2, the `Error` constructors say where a row fails, in the order
  the script meets those places, not which Python exception is raised:
  - `MalformedRow`: the row has fewer than four comma fields (IndexError).
  - `BadDuration`: `int()` cannot read the minutes field (ValueError).
  - `MalformedTimestamp`: the end field cannot be cut into five pieces
    (IndexError) or one of the pieces is not an integer (ValueError).
  - `InvalidCalendarValue`: `datetime()` rejects the five integers as a
    date-time (ValueError, or OverflowError for a field outside the C int
    range).
  - `BeforeYearOne`: stepping back one minute goes below 0001-01-01 00:00
    (OverflowError).

When a script dies, the lines it wrote before are kept. The model keeps
them too.

Two behaviours of the scripts are easy to misread:
- Stage 1 does not skip an input header: every input line, the first
  included, is rewritten. A raw header line `activity,start,end,minutes`
  does not become a garbage row. Its `start` field has only one space
  token, so the script stops with IndexError (`Clean.HeaderLineRejected`).
- On a decrement below year 1, the record already formatted at line 38 is
  not written, because the exception comes at line 41, before the write at
  line 43. `Minutize.RowStamps` stops there, and `ExpandRow` reports
  `ok == false`.

## Model

| member | source | states |
|---|---|---|
| Text.ParseInt | Old/minutize.py:24 | `int()` on an optional `+` or `-` followed by ASCII digits, leading zeros allowed; any other text is the ValueError (`None`); see "## Left out" for the texts `int()` treats differently |
| Text.ZeroPad | Old/minutize.py:38 | the `%Y`, `%m`, `%d`, `%H` and `%M` fields of `strftime`: the decimal digits of the number, with zeros on the left up to the width |
| Text.Split | Old/clean.py:11 | `str.split(sep)` gives at least one piece, no piece holds the separator, and joining the pieces with it gives back the text |
| Text.SplitJoin | Old/minutize.py:16 | splitting pieces that are free of the separator, once joined, gives back exactly those pieces |
| Text.SplitFour | Old/clean.py:11 | four separator-free fields joined by the separator split back into the same four fields |
| Text.ParseShowInt | Old/minutize.py:24 | `int()` reads back every integer written in decimal, negative ones included |
| Text.ZeroPadDigits | Old/minutize.py:38 | zero padding gives an all-digit text, at least as wide as asked, whose decimal value is the number |
| Text.ZeroPadWidth | Old/minutize.py:38 | a number below 10^width is padded to exactly `width` digits |
| Calendar.Valid | Old/minutize.py:32 | the five integers `datetime.datetime()` accepts: year 1 to 9999, month 1 to 12, a day within the month (29 February in leap years only), hour 0 to 23, minute 0 to 59 |
| Calendar.ToMinutes | Old/minutize.py:41 | the minutes elapsed since 0001-01-01 00:00 in the proleptic Gregorian calendar, the scale on which `timedelta(minutes = 1)` is subtracted |
| Calendar.DaysBeforeYearFormula | Old/minutize.py:32 | the days before a year, counted year by year, equal the closed form 365 per year plus the multiples of 4, less those of 100, plus those of 400 |
| Calendar.PrevDay | Old/minutize.py:41 | the day before a valid date is a valid date one day number earlier, rolling over month and year ends, and there is none exactly before 0001-01-01 |
| Calendar.ToMinutesOrigin | Old/minutize.py:41 | minute numbers of valid date-times are non-negative, and 0 belongs to 0001-01-01 00:00 alone |
| Calendar.ToMinutesInjective | Old/minutize.py:32 | two valid date-times with the same minute number are the same date-time |
| Calendar.PrevMinute | Old/minutize.py:41 | subtracting one minute fails exactly at 0001-01-01 00:00; otherwise it gives a valid date-time whose minute number is one less, across hour, day, month and year ends and leap days |
| Calendar.MinutesBefore | Old/minutize.py:37-43 | `k` steps back from a valid date-time, when it has at least `k` minutes before it, give the valid date-time `k` minutes earlier |
| Calendar.LeapDayRollover | Old/minutize.py:41 | 2020-03-01 00:00 steps to 2020-02-29 23:59, 2019-03-01 00:00 to 2019-02-28 23:59, and 2019-01-01 00:00 to 2018-12-31 23:59 |
| Minutize.EndFields | Old/minutize.py:26-30 | the five texts cut from the end field: the first two `-` pieces, the third `-` piece up to a space, and the first two `:` pieces of the second space-separated piece; a missing piece is the IndexError |
| Minutize.ParseEnd | Old/minutize.py:26-30 | `int()` of each of those five texts, giving the five integers handed to `datetime()`, with no range check yet |
| Minutize.Format | Old/minutize.py:38 | `strftime("%Y-%m-%d %H:%M")` of a date-time |
| Minutize.Record | Old/minutize.py:38 | one output line: the formatted time, a comma and the activity |
| Minutize.ParseEndOfDigits | Old/minutize.py:26-30 | an end field `Y-M-D H:M` of digit strings of any width, unpadded included, parses to the five decimal values |
| Minutize.FormatRoundTrip | Old/minutize.py:38 | the end-field parser reads a formatted `YYYY-MM-DD HH:MM` back to the same date-time |
| Minutize.FormatWidth | Old/minutize.py:38 | a formatted valid date-time is exactly 16 characters long |
| Minutize.RecordInjective | Old/minutize.py:38 | two records of one activity are equal only when their date-times are equal |
| Minutize.ParseRow | Old/minutize.py:16-32 | a row that parses has a valid calendar end time |
| Minutize.ParseRowErrors | Old/minutize.py:16-30 | a row of comma-free fields is refused as `MalformedRow` when it has fewer than four, then as `BadDuration` when its fourth is not an integer, then as `MalformedTimestamp` when its third cannot be read as five integers |
| Minutize.ParseRowOfFields | Old/minutize.py:21-32 | a row whose third field is a formatted date-time and whose fourth is a written integer parses to that activity, end time and minutes, or is rejected when the date-time is not a calendar value |
| Minutize.StartFieldIgnored | Old/minutize.py:21-24 | rows that differ only in the start field parse alike and expand to the same records with the same outcome |
| Minutize.RowStamps | Old/minutize.py:34-43 | the times whose lines the inner loop writes for `n` minutes from the end time: all of them are valid; the loop stops early, without writing the current line, when the step back fails |
| Minutize.RowStampsLength | Old/minutize.py:37-43 | a row emits no records for minutes of 0 or less, and exactly `minutes` records when the end time has that many minutes before it; otherwise it emits as many as it has minutes before it |
| Minutize.RowStampAt | Old/minutize.py:37-43 | record `k` of a row is stamped exactly `k` minutes before the end time |
| Minutize.RowStampsAll | Old/minutize.py:37-43 | every record `k` of a row is stamped `k` minutes before the end time |
| Minutize.RowRecordsAll | Old/minutize.py:37-43 | every written line `k` of a row is the formatted record of the end time minus `k` minutes with the row's activity |
| Minutize.RowStampsDescend | Old/minutize.py:34-43 | the first record is stamped at the end time, and the stamps fall strictly, one minute apart |
| Minutize.RowSkipsStartMinute | Old/minutize.py:37 | the minute `minutes` before the end, the row's start, is never written |
| Minutize.ExampleRowStamps | Old/minutize.py:18 | the row ending 2018-12-11 02:43 of 63 minutes is stamped 63 times, from 02:43 down to 01:41, and never at 01:40 |
| Minutize.LineExpansion | Old/minutize.py:16-43 | what one data line contributes: its records, and the exception (parse error or `BeforeYearOne`) that ends the run, if any |
| Minutize.ExpandRows | Old/minutize.py:15-47 | the data lines in order: each line's records follow the previous line's, and the first line with an exception ends the run after the records it wrote |
| Minutize.DataRows | Old/minutize.py:10-14 | the input lines after the first, which is read and dropped as a header |
| Minutize.ExpandRow | Old/minutize.py:34-43 | the loop writes the records of the row's stamps in order, one per minute, and fails exactly when the row reaches below 0001-01-01 00:00 |
| Minutize.ExpandLine | Old/minutize.py:16-43 | one data line gives the records and the outcome of the row specification |
| Minutize.ExpandRowsSucceeds | Old/minutize.py:15-47 | a run finishes without an exception exactly when every row parses and does not reach below year 1 |
| Minutize.ExpandRowsCount | Old/minutize.py:24-43 | a run that finishes without an exception writes as many records as the sum of the rows' minutes, a count of 0 or less adding none |
| Minutize.ExpandRowsHeaderFree | Old/minutize.py:8-43 | no written record equals the output header |
| Minutize.Minutize | Old/minutize.py:8-47 | the output is the header `date_time,activity` once, then the records of every input line after the first, in order, and the first exception, if any |
| Clean.NormalizeTimestamp | Old/clean.py:22-39 | one raw timestamp split on spaces and rebuilt as token 2, `-`, token 1 without its first character, `-`, token 0, a space, token 3; fewer than four tokens is the IndexError (`None`) |
| Clean.NormalizeLine | Old/clean.py:11-51 | one raw line split on commas: field 0, the rewrites of fields 1 and 2, and field 3, joined by commas; fewer than four fields or a short timestamp is the IndexError (`None`) |
| Clean.NormalizeTimestampOfTokens | Old/clean.py:22-39 | a timestamp is rebuilt as token 2, `-`, token 1 without its first character, `-`, token 0, a space, token 3; later tokens are ignored; fewer than four tokens is an error |
| Clean.NormalizeTimestampOfFour | Old/clean.py:22-39 | `D M<m> YYYY HH:MM` becomes `YYYY-m-D HH:MM` with the time copied unchanged |
| Clean.MonthMarkerIgnored | Old/clean.py:24 | the month token loses its first character whatever that character is |
| Clean.NormalizeLineOfFields | Old/clean.py:11-51 | a line is rewritten from its first four comma fields, passing activity and minutes through verbatim; later fields are ignored; fewer than four fields or a short timestamp is an error |
| Clean.NormalizeLineOfFour | Old/clean.py:16-51 | a four-field line keeps its first and last field and replaces the two timestamps by their rewrites |
| Clean.NormalizedFields | Old/clean.py:44-51 | the rewritten line splits back into the activity, the two rewritten timestamps and the minutes field |
| Clean.NormalizeTimestampAvoidsComma | Old/clean.py:38-51 | a rewritten timestamp brings no comma into the output line |
| Clean.NormalizeTimestampHasDash | Old/clean.py:38-39 | a rewritten timestamp always contains `-` |
| Clean.HeaderLineRejected | Old/clean.py:22-27 | the header text `activity,start,end,minutes`, read as a data line, is an IndexError |
| Clean.HeaderNotData | Old/clean.py:6-51 | no data line is rewritten into the header text, so the header appears exactly once |
| Clean.ExampleLine | Old/clean.py:13-51 | `Study,11 M12 2018 01:40,11 M12 2018 02:43,63` is rewritten to `Study,2018-12-11 01:40,2018-12-11 02:43,63` |
| Clean.Clean | Old/clean.py:6-57 | the header comes first, and no later line equals it; every input line, the first included, gives one output line in order; the run fails exactly at the first line that cannot be rewritten, after the lines before it |
| Pipeline.CleanedEndParses | Old/minutize.py:26-30 | the end field rewritten by stage 1 from digit tokens parses in stage 2 to the raw field's year, month, day, hour and minute |
| Pipeline.CleanedLineParses | Old/minutize.py:16-32 | any raw line that stage 1 rewrites, whatever its number of comma fields, gives a stage 2 row with the raw activity and minutes and the end time of its rewritten end field |
| Pipeline.CleanedRowParses | Old/clean.py:30-39 | a raw line of four or more comma fields, with a rewritable start field, whose end field is `D M<m> YYYY HH:MM` in digits is read by stage 2 with that end time, or rejected only when that is not a calendar date |

## Left out

- File opening, `readline`, `write` and `close` are not modelled. Input is a `seq<string>` of lines and output a `seq<string>`.
- Lines are given without their newline. `str.strip()` on other surrounding whitespace is not modelled.
- `Text.ParseInt` reads an optional sign and ASCII digits only. Surrounding whitespace, underscores and non-ASCII digits, which `int()` also accepts, are not modelled. Nor is the limit of 4300 digits that Python 3.11 and later (and the security releases 3.10.7, 3.9.14, 3.8.14 and 3.7.14) put on decimal text: there a longer minutes field is a ValueError (`BadDuration`), while the model reads it as a number.
- `Minutize.Format` always writes a four-digit year. `strftime` pads years below 1000 differently on different platforms.
- The internals of `datetime` and `timedelta` are not modelled. The calendar is re-implemented on integers for years 1 to 9999.
- `Minutize.Minutize` returns the error as a value. It does not model the traceback or the files left partly written.
