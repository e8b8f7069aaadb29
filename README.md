# netcdf-date-bump: the timestamp-rebasing engine in Dafny

netcdf-date-bump rewrites the time axis of a NetCDF file so that it starts
"today" and keeps its original spacing. This project models the engine behind
that rewrite and proves properties of it. The engine lives in two revisions of
`datetime_utils.py`:

- **Step resolver** (`generate_timedelta`). It returns the user's step in
  seconds when one is given. Otherwise it returns the gap between the first two
  existing times. With fewer than two times and no user step it fails; it never
  guesses.
- **Time-list generator** (`generate_new_time_list`). It builds an anchor from
  the current UTC date and the time of day of the first existing time. It then
  returns `anchor + i * delta` for every index `i` of the input.
- **Diff printer** (`print_time_diff`). When the two lists have the same length,
  it prints a header, one `old --> new` line per index and a closing rule. When
  the lengths differ, it logs one error and prints nothing.
- **Start-time parser** (`parse_start_datetime`). It calls
  `datetime.strptime(s, '%Y-%m-%dT%H:%M:%SZ')`.

How things are represented:

- A Python `datetime` is a count of whole seconds since 0001-01-01T00:00:00 in
  the proleptic Gregorian calendar, limited to Python's range (years 1 to 9999).
  `date()` and `time()` are that count divided by 86400 and the remainder.
- A `timedelta` is a signed number of seconds within Python's bound of
  ±999999999 days.
- Arithmetic that leaves either range fails with `OverflowError`, as in Python.
- `datetime.now(timezone.utc)` becomes the parameter `now`.
- Exceptions and `sys.exit` calls become `Err` values of `Outcomes.Result`.
- The parser and `isoformat()` need the calendar fields of a timestamp.
  `Calendar.FromTimestamp` and `Calendar.ToTimestamp` convert in both
  directions, and both round trips are proved.

Modules:

- `Outcomes` (`outcomes.dfy`): the `Option` and `Result` values and the failure kinds.
- `Calendar` (`calendar.dfy`): timestamps, days, times of day, steps, and the Gregorian calendar.
- `IsoText` (`iso_text.dfy`): `isoformat()`, and the pattern CPython's `strptime` builds for the start-time format.
- `TimeSeries` (`time_series.dfy`): the anchor and the list comprehension that both revisions share.
- `DatetimeUtils` (`datetime_utils.dfy`): the current revision, `utils/datetime_utils.py`.
- `LegacyDatetimeUtils` (`legacy_datetime_utils.dfy`): the earlier revision, `netcdfdatebump/datetime_utils.py`.

The two revisions compute the same results. They differ only in how they fail:

| situation | current revision | earlier revision |
|---|---|---|
| no user step and fewer than two times | raises `GenerateTimeDeltaException` | calls `sys.exit(2)` |
| empty input list | raises `InvalidDateListException` | lets an `IndexError` escape (no guard) |

`LegacyDatetimeUtils.TimedeltaRevisionsAgree` and
`LegacyDatetimeUtils.NewTimeListRevisionsAgree` state this difference.

## Behaviour worth noting

- **No explicit start instant.** The generator has no start-time parameter, and
  the parsed start time is never passed to it (TODO at
  netcdf_date_bump.py:105-106). The generator here always anchors on the
  clock's date.
- **Failure names.** The failures carry the names of the exceptions the code
  raises: `GenerateTimeDeltaException` and `InvalidDateListException` in the
  current revision, `SystemExit(2)` and `IndexError` in the earlier one.
- **Lenient parsing.** The parser's own error message demands the form
  `YYYY-MM-DDTHH:MM:SSZ` (utils/datetime_utils.py:86-87), but `strptime`
  accepts more than that, and the model accepts what `strptime` accepts:
  - month, day, hour, minute and second may have one digit;
  - the day may be a space followed by one digit;
  - `t` and `z` may be lower case.

  Beyond the pattern, `datetime` refuses year 0, a day past the end of its
  month (with Gregorian leap years) and second 60 or 61. All of these end in
  `ValueError`.

## Model

| member | source | states |
|---|---|---|
| `DatetimeUtils.GenerateTimedelta` | utils/datetime_utils.py:13-28 | A user step is returned as given, failing only with `OverflowError` outside the `timedelta` range. With no user step: success exactly when there are at least two times, the step carries `times[0]` onto `times[1]`, and otherwise it fails with `GenerateTimeDeltaException`. |
| `DatetimeUtils.UserStepWins` | utils/datetime_utils.py:15-18 | With a user step, the result is the same whatever the existing times are. |
| `DatetimeUtils.GenerateNewTimeList` | utils/datetime_utils.py:31-61 | An empty list fails with `InvalidDateListException`. Otherwise, on success: the output has the input's length; its first time has the clock's UTC date and the first input's time of day; each element is `i` steps of `delta` after the first. It fails with `OverflowError` exactly when the last slot leaves the `datetime` range. |
| `DatetimeUtils.FirstNewTimeFields` | utils/datetime_utils.py:44-53 | The first new time has the year, month and day of the clock and the hour, minute and second of the first old time. |
| `DatetimeUtils.RebaseKeepsFirstGap` | utils/datetime_utils.py:20-58 | With a derived step, every pair of neighbouring new times is as far apart as the first two old times. |
| `DatetimeUtils.HourlyRebaseExample` | utils/datetime_utils.py:20-58 | Times 2021-01-01 00:00 and 01:00, clock at 2023-05-10: the step is 3600 and the new times are 2023-05-10 00:00 and 01:00. |
| `DatetimeUtils.UserStepRebaseExample` | utils/datetime_utils.py:15-58 | The same times with user step 7200: the new times are 2023-05-10 00:00 and 02:00. |
| `DatetimeUtils.PrintTimeDiff` | utils/datetime_utils.py:64-76 | With equal lengths: stdout is the 3-line header, then `old[i] --> new[i]` for each index in order, then the closing rule, and nothing is logged. With unequal lengths: nothing is printed and exactly one error is logged. |
| `DatetimeUtils.DiffLinesAt` | utils/datetime_utils.py:71-72 | The loop emits one line per index, and line `i` pairs `old[i]` with `new[i]`. |
| `DatetimeUtils.DiffLineParts` | utils/datetime_utils.py:72 | A diff line is 43 characters: the old time's ISO text, ` --> `, then the new time's ISO text. |
| `DatetimeUtils.IsoFormatInjective` | utils/datetime_utils.py:72 | Different times print different ISO texts. |
| `DatetimeUtils.ParseStartDatetime` | utils/datetime_utils.py:79-88 | Success exactly when the string matches the `strptime` pattern and the fields form a valid datetime. The result has exactly the parsed fields. Every refusal is `ValueError`. |
| `DatetimeUtils.ParseIsoFormat` | utils/datetime_utils.py:79-88 | Parsing `isoformat()` of any time with `Z` appended gives back that time. |
| `DatetimeUtils.ParseValidExample` | test/utils/test_datetime_utils.py:7-19 | `'2021-06-24T14:33:00Z'` parses to year 2021, month 6, day 24, hour 14, minute 33. |
| `DatetimeUtils.ParseMonth13Raises` | utils/datetime_utils.py:82-88 | `'2021-13-24T14:33:00Z'` is refused with `ValueError`. |
| `DatetimeUtils.ParseLeapDay` | utils/datetime_utils.py:82 | February 29 is accepted in the leap year 2020. |
| `DatetimeUtils.ParseCommonYearLeapDayRaises` | utils/datetime_utils.py:82-88 | February 29 is refused with `ValueError` in 2021. |
| `DatetimeUtils.ParseStartDatetimeOrNone` | test/utils/test_datetime_utils.py:21-29 | The parser the test expects: `None` exactly where `parse_start_datetime` raises, and the same time elsewhere. |
| `DatetimeUtils.ParseMonth13GivesNone` | test/utils/test_datetime_utils.py:21-29 | The corrected parser gives `None` for month 13. |
| `LegacyDatetimeUtils.GenerateTimedelta` | netcdfdatebump/datetime_utils.py:11-23 | A user step is returned as given (or `OverflowError`). With no user step: success exactly when there are at least `TimeStepsMin` (2) times, giving `times[1] - times[0]`; otherwise `SystemExit(2)`. |
| `LegacyDatetimeUtils.GenerateNewTimeList` | netcdfdatebump/datetime_utils.py:26-42 | An empty list ends in `IndexError`. Otherwise the output has the same length, starts on the clock's date at the first input's time of day, and steps by exactly `delta`, with no special case for zero or negative steps. |
| `LegacyDatetimeUtils.TimedeltaRevisionsAgree` | netcdfdatebump/datetime_utils.py:11-23 | Both revisions resolve the same step. Where the current one raises `GenerateTimeDeltaException`, the earlier one exits with status 2. |
| `LegacyDatetimeUtils.NewTimeListRevisionsAgree` | netcdfdatebump/datetime_utils.py:26-42 | Both revisions generate the same times. Where the current one raises `InvalidDateListException`, the earlier one raises `IndexError`. |
| `TimeSeries.Anchor` | utils/datetime_utils.py:44-53 | The anchor has the clock's date and the first old time's time of day. |
| `TimeSeries.SlotsFrom` | utils/datetime_utils.py:57-58 | The comprehension succeeds exactly when every slot `anchor + j * delta` lies in the `datetime` range. It then yields those slots in index order; otherwise it fails with `OverflowError`. |
| `TimeSeries.EndsBoundSlots` | utils/datetime_utils.py:57-58 | All slots lie in range exactly when the last one does, because the anchor always does. |
| `TimeSeries.ConstantStep` | utils/datetime_utils.py:57-58 | Neighbouring elements of an evenly spaced list differ by exactly `delta`. |
| `TimeSeries.StepSignOrders` | netcdfdatebump/datetime_utils.py:40-41 | A positive step gives a strictly increasing list, a negative step a strictly decreasing one, and a zero step repeats the anchor. |
| `Calendar.Combine` | utils/datetime_utils.py:53 | `datetime.combine(date, time)` has that date and that time of day. |
| `Calendar.SameTimeOfDay` | utils/datetime_utils.py:44 | Two times have equal `time()` exactly when their hour, minute and second agree. |
| `Calendar.SameDate` | utils/datetime_utils.py:47 | Two times have equal `date()` exactly when their year, month and day agree. |
| `Calendar.AddSeconds` | utils/datetime_utils.py:57-58 | `datetime + timedelta` succeeds exactly when the sum's whole-day count names a calendar day (ordinal 1 to 3652059, as Python checks it). The result then has that day as its `date()` and the leftover seconds as its `time()`; otherwise it fails with `OverflowError`. |
| `Calendar.SecondsDelta` | utils/datetime_utils.py:18 | `timedelta(seconds=s)` succeeds exactly when the day count of `s` stays within ±999999999, and then holds `s`. |
| `Calendar.YearOf` | utils/datetime_utils.py:72 | The year found by counting 400-, 100-, 4- and 1-year cycles contains the given day. |
| `Calendar.FromTimestamp` | utils/datetime_utils.py:72 | The calendar fields of every timestamp in range form a valid `datetime`: year 1 to 9999, a day that exists in its month, a time of day below 24:00:00. |
| `Calendar.ToFromTimestamp` | utils/datetime_utils.py:72 | `ToTimestamp` after `FromTimestamp`: rebuilding a time from its calendar fields gives the same time. |
| `Calendar.FromToTimestamp` | utils/datetime_utils.py:82 | `FromTimestamp` after `ToTimestamp`: a valid datetime is recovered from its second count. |
| `IsoText.ZeroPad` | utils/datetime_utils.py:72 | Zero padding gives exactly `width` digits that read back as the number. |
| `IsoText.IsoFormatFields` | utils/datetime_utils.py:72 | `IsoFormat`, the model of `isoformat()`, prints exactly 19 characters, `YYYY-MM-DDTHH:MM:SS`, and the digits in each position spell the timestamp's own year, month, day, hour, minute and second. |
| `IsoText.StrptimeFields` | utils/datetime_utils.py:82 | Whatever the `strptime` pattern matches has fields within the pattern's bounds (year 0 to 9999, month 1 to 12, day 1 to 31, hour up to 23, minute up to 59, second up to 61), and the matched string is 15 to 20 characters long. |
| `IsoText.StrptimeReadsIsoFormat` | utils/datetime_utils.py:82 | `strptime` with the start-time format reads back the fields `isoformat()` wrote. |
| `IsoText.ReadsFixedWidth` | utils/datetime_utils.py:82 | A string with the layout `YYYY-MM-DDTHH:MM:SSZ` is read field by field. It matches exactly when each field lies within its pattern's bounds. |

## Findings

| source | as written | input that shows it | evidently intended | confidence | as-written member | corrected member |
|---|---|---|---|---|---|---|
| utils/datetime_utils.py:79-88 | `parse_start_datetime` logs a refused string and raises the `ValueError` again | `'2021-13-24T14:33:00Z'` | return `None`: test/utils/test_datetime_utils.py:21-29 asserts `None`, and netcdf_date_bump.py:71-76 checks for `None` to log "start-time is invalid." and exit with status 2 | not executed | `DatetimeUtils.ParseMonth13Raises` | `DatetimeUtils.ParseStartDatetimeOrNone` |

## Left out

- netcdf_date_bump.py is left out: argument parsing, the module-level globals, logging set-up and `update_nc_dates`, which only chains file I/O, codec calls and the functions modelled here. With it go two boundary quirks: the parsed `START_TIME` is never used, and `--time-step 0` is falsy, so it falls through to a derived step.
- utils/netcdf_utils.py and netcdfdatebump/netcdf_utils.py are left out. They open, write and close `netCDF4.Dataset` objects and check file names on disk.
- The cftime codec (`num2pydate`, `date2num`) is an external library working on floating-point offsets. Its round trip is not this repository's code and is not modelled. Input times arrive here already decoded.
- `datetime.now(timezone.utc)` is the parameter `now`, a naive timestamp read as UTC.
- Microseconds are not modelled. Timestamps and steps are whole seconds, so `isoformat()` never prints a fraction.
- Time zones are not modelled. All timestamps are naive, as in the code.
- Output other than the diff printer's is not modelled: the `logger.error` calls that precede each raised failure (utils/datetime_utils.py:27, 40 and 85-87; netcdfdatebump/datetime_utils.py:21-22), the `logger.info` and `logger.debug` messages, and the `pformat` dump. The diff printer's stdout lines and its one logged error are modelled.
- ParseStartDatetime: `strptime`'s `\d` also matches non-ASCII decimal digits. The model reads ASCII digits only.
- ParseStartDatetime: a non-string argument (the test's `12`) raises `TypeError` in Python. Dafny's types rule that input out.
- DatetimeUtils.GenerateTimedelta: `time_step` is an integer, as argparse produces it. Other Python types are not modelled.
- DatetimeUtils.GenerateNewTimeList: the first comprehension (`[new_start_datetime for time in times_pydate]`) only fixes the output length. It is folded into the second one.
