/** The current revision of the date utilities (`utils/datetime_utils.py`):
    the time-step resolver, the time-list generator, the old/new diff printer
    and the start-time parser.  The clock read by `datetime.now(timezone.utc)`
    is the parameter `now`; what `print_time_diff` prints and the one error it
    logs are returned as lines, and the module's other log messages are not
    modelled. */
module DatetimeUtils {
  import opened Outcomes
  import opened Calendar
  import opened IsoText
  import opened TimeSeries

  /** `generate_timedelta`: the user's step in seconds when one is given,
      otherwise the gap between the first two existing times. */
  function GenerateTimedelta(times: seq<Timestamp>, timeStep: Option<int>): (r: Result<Delta>)
    // a user step wins, whatever the spacing of `times`; it fails only when `timedelta` overflows
    ensures timeStep.Some? ==> (r.Ok? <==> MinDeltaSeconds <= timeStep.value <= MaxDeltaSeconds)
    ensures timeStep.Some? && r.Ok? ==> r.value == timeStep.value
    ensures timeStep.Some? && r.Err? ==> r.failure == OverflowError
    // with no user step, the step carries the first sample onto the second
    ensures timeStep.None? ==> (r.Ok? <==> |times| >= 2)
    ensures timeStep.None? && r.Ok? ==> times[0] + r.value == times[1]
    // and too few samples is reported, never guessed
    ensures timeStep.None? && r.Err? ==> r.failure == GenerateTimeDeltaException
  {
    match timeStep
    case Some(seconds) => SecondsDelta(seconds)
    case None =>
      // `times[1] - times[0]` raises IndexError below two samples, re-raised as GenerateTimeDeltaException
      if |times| < 2 then Err(GenerateTimeDeltaException) else Ok(times[1] as int - times[0] as int)
  }

  /** `generate_new_time_list`: as many times as the input, the first on
      today's UTC date at the first input's time of day, each next one `delta`
      later. */
  function GenerateNewTimeList(times: seq<Timestamp>, delta: Delta, now: Timestamp): (r: Result<seq<Timestamp>>)
    ensures |times| == 0 ==> r == Err(InvalidDateListException)
    ensures r.Ok? ==> |r.value| == |times|
    ensures r.Ok? ==> DateOf(r.value[0]) == DateOf(now) && TimeOfDay(r.value[0]) == TimeOfDay(times[0])
    ensures r.Ok? ==> EvenlySpaced(r.value, delta)
    ensures |times| > 0 ==> (r.Ok? <==> 0 <= Slot(Anchor(times[0], now), delta, |times| - 1) < TimestampLimit)
    ensures |times| > 0 && r.Err? ==> r.failure == OverflowError
  {
    if |times| == 0 then
      // `times_pydate[0]` raises IndexError, re-raised as InvalidDateListException
      Err(InvalidDateListException)
    else
      var anchor := Anchor(times[0], now);
      EndsBoundSlots(anchor, delta, |times|);
      SlotsFrom(anchor, delta, 0, |times|)
  }

  const Rule: string := "==========================================="
  const Heading: string := "    OLD TIME        -->   NEW TIME         "
  const LengthMismatch: string := "Unable to print time diff - time arrays are of different length"

  /** What a call writes: lines printed to standard output and lines logged at error level. */
  datatype Output = Output(stdout: seq<string>, errors: seq<string>)

  /** One line of the diff: the old time, an arrow, the new time. */
  function DiffLine(oldTime: Timestamp, newTime: Timestamp): string {
    IsoFormat(oldTime) + " --> " + IsoFormat(newTime)
  }

  /** The lines of the loop in `print_time_diff`, one per index, in order. */
  function DiffLines(oldTimes: seq<Timestamp>, newTimes: seq<Timestamp>): seq<string>
    requires |oldTimes| == |newTimes|
  {
    if oldTimes == [] then [] else [DiffLine(oldTimes[0], newTimes[0])] + DiffLines(oldTimes[1..], newTimes[1..])
  }

  /** `print_time_diff`: a three-line header, one line per index, a closing rule;
      nothing printed and an error logged when the lengths differ. */
  function PrintTimeDiff(oldTimes: seq<Timestamp>, newTimes: seq<Timestamp>): (out: Output)
    ensures |oldTimes| == |newTimes| ==>
      && |out.stdout| == |oldTimes| + 4
      && out.stdout[..3] == [Rule, Heading, Rule]
      && (forall i :: 0 <= i < |oldTimes| ==> out.stdout[3 + i] == DiffLine(oldTimes[i], newTimes[i]))
      && out.stdout[|oldTimes| + 3] == Rule
      && out.errors == []
    ensures |oldTimes| != |newTimes| ==> out.stdout == [] && out.errors == [LengthMismatch]
  {
    if |oldTimes| == |newTimes| then
      DiffLinesAt(oldTimes, newTimes);
      Framed(DiffLines(oldTimes, newTimes));
      Output([Rule, Heading, Rule] + DiffLines(oldTimes, newTimes) + [Rule], [])
    else Output([], [LengthMismatch])
  }

  /** `parse_start_datetime`: `datetime.strptime(dateStr, '%Y-%m-%dT%H:%M:%SZ')`;
      every `ValueError` strptime raises is raised again. */
  function ParseStartDatetime(dateStr: string): (r: Result<Timestamp>)
    ensures r.Ok? <==> StrptimeFields(dateStr).Some? && ValidDateTime(StrptimeFields(dateStr).value)
    ensures r.Ok? ==> FromTimestamp(r.value) == StrptimeFields(dateStr).value
    ensures r.Err? ==> r.failure == ValueError
  {
    match StrptimeFields(dateStr)
    case Some(dt) =>
      if ValidDateTime(dt) then FromToTimestamp(dt); Ok(ToTimestamp(dt)) else Err(ValueError)
    case None => Err(ValueError)
  }

  /** What the repository's test and its caller expect of `parse_start_datetime`:
      `None` for a string that does not parse, rather than a raised error. */
  function ParseStartDatetimeOrNone(dateStr: string): (r: Option<Timestamp>)
    ensures r.Some? <==> ParseStartDatetime(dateStr).Ok?
    ensures r.Some? ==> FromTimestamp(r.value) == StrptimeFields(dateStr).value
  {
    match ParseStartDatetime(dateStr)
    case Ok(ts) => Some(ts)
    case Err(_) => None
  }

  // ----- properties -----

  /** A user step is used as given: the existing times play no part. */
  lemma UserStepWins(a: seq<Timestamp>, b: seq<Timestamp>, seconds: int)
    ensures GenerateTimedelta(a, Some(seconds)) == GenerateTimedelta(b, Some(seconds))
  {
  }

  /** Rebasing without a user step keeps the first gap of the old series as the
      gap between every pair of neighbouring new times. */
  lemma RebaseKeepsFirstGap(times: seq<Timestamp>, now: Timestamp, i: nat)
    requires GenerateTimedelta(times, None).Ok?
    requires GenerateNewTimeList(times, GenerateTimedelta(times, None).value, now).Ok?
    requires i + 1 < |times|
    ensures var newTimes := GenerateNewTimeList(times, GenerateTimedelta(times, None).value, now).value;
      newTimes[i + 1] as int - newTimes[i] as int == times[1] as int - times[0] as int
  {
    var delta := GenerateTimedelta(times, None).value;
    ConstantStep(GenerateNewTimeList(times, delta, now).value, delta, i);
  }

  /** In calendar terms, the first new time has the year, month and day of the
      clock's UTC date and the hour, minute and second of the first old time. */
  lemma FirstNewTimeFields(times: seq<Timestamp>, delta: Delta, now: Timestamp)
    requires GenerateNewTimeList(times, delta, now).Ok?
    ensures var first, old0, clock := FromTimestamp(GenerateNewTimeList(times, delta, now).value[0]),
                                      FromTimestamp(times[0]), FromTimestamp(now);
      && (first.year, first.month, first.day) == (clock.year, clock.month, clock.day)
      && (first.hour, first.minute, first.second) == (old0.hour, old0.minute, old0.second)
  {
    var first := GenerateNewTimeList(times, delta, now).value[0];
    SameDate(first, now);
    SameTimeOfDay(first, times[0]);
  }

  /** Day indexes of the instants the examples below use. */
  lemma ExampleInstants()
    ensures ToTimestamp(DateTime(2021, 1, 1, 0, 0, 0)) == 737790 * SecondsPerDay
    ensures ToTimestamp(DateTime(2021, 1, 1, 1, 0, 0)) == 737790 * SecondsPerDay + 3600
    ensures ToTimestamp(DateTime(2023, 5, 10, 0, 0, 0)) == 738649 * SecondsPerDay
    ensures ToTimestamp(DateTime(2023, 5, 10, 1, 0, 0)) == 738649 * SecondsPerDay + 3600
    ensures ToTimestamp(DateTime(2023, 5, 10, 2, 0, 0)) == 738649 * SecondsPerDay + 7200
  {
    assert DaysBeforeYear(2021) == 737790;
    assert DaysBeforeYear(2023) == 738520;
  }

  /** Two samples an hour apart on 2021-01-01, rebased with the clock at
      2023-05-10T00:00:00 UTC: the derived step is one hour and the new times
      are 00:00 and 01:00 on 2023-05-10. */
  lemma HourlyRebaseExample(times: seq<Timestamp>, now: Timestamp)
    requires times == [ToTimestamp(DateTime(2021, 1, 1, 0, 0, 0)), ToTimestamp(DateTime(2021, 1, 1, 1, 0, 0))]
    requires now == ToTimestamp(DateTime(2023, 5, 10, 0, 0, 0))
    ensures GenerateTimedelta(times, None) == Ok(3600)
    ensures GenerateNewTimeList(times, 3600, now) == Ok([now, ToTimestamp(DateTime(2023, 5, 10, 1, 0, 0))])
  {
    ExampleInstants();
    var later := ToTimestamp(DateTime(2023, 5, 10, 1, 0, 0));
    assert Anchor(times[0], now) == now;
    var r := GenerateNewTimeList(times, 3600, now);
    assert r.Ok? && r.value[0] == now && r.value[1] == later;
    assert r.value == [now, later];
  }

  /** The same samples with a user step of 7200 seconds: the new times are
      00:00 and 02:00 on 2023-05-10, whatever the samples' own spacing. */
  lemma UserStepRebaseExample(times: seq<Timestamp>, now: Timestamp)
    requires times == [ToTimestamp(DateTime(2021, 1, 1, 0, 0, 0)), ToTimestamp(DateTime(2021, 1, 1, 1, 0, 0))]
    requires now == ToTimestamp(DateTime(2023, 5, 10, 0, 0, 0))
    ensures GenerateTimedelta(times, Some(7200)) == Ok(7200)
    ensures GenerateNewTimeList(times, 7200, now) == Ok([now, ToTimestamp(DateTime(2023, 5, 10, 2, 0, 0))])
  {
    ExampleInstants();
    var later := ToTimestamp(DateTime(2023, 5, 10, 2, 0, 0));
    assert Anchor(times[0], now) == now;
    var r := GenerateNewTimeList(times, 7200, now);
    assert r.Ok? && r.value[0] == now && r.value[1] == later;
    assert r.value == [now, later];
  }

  /** Where the header, the body lines and the closing rule sit in the printed output. */
  lemma Framed(lines: seq<string>)
    ensures var printed := [Rule, Heading, Rule] + lines + [Rule];
      && |printed| == |lines| + 4
      && printed[..3] == [Rule, Heading, Rule]
      && (forall i :: 0 <= i < |lines| ==> printed[3 + i] == lines[i])
      && printed[|lines| + 3] == Rule
  {
  }

  lemma {:induction false} DiffLinesAt(oldTimes: seq<Timestamp>, newTimes: seq<Timestamp>)
    requires |oldTimes| == |newTimes|
    ensures |DiffLines(oldTimes, newTimes)| == |oldTimes|
    ensures forall i :: 0 <= i < |oldTimes| ==> DiffLines(oldTimes, newTimes)[i] == DiffLine(oldTimes[i], newTimes[i])
  {
    if oldTimes != [] {
      DiffLinesAt(oldTimes[1..], newTimes[1..]);
    }
  }

  /** A diff line shows the old time, then ` --> `, then the new time. */
  lemma DiffLineParts(oldTime: Timestamp, newTime: Timestamp)
    ensures var line := DiffLine(oldTime, newTime);
      |line| == 43 && line[..19] == IsoFormat(oldTime) && line[19..24] == " --> " && line[24..] == IsoFormat(newTime)
  {
    IsoFormatFields(oldTime);
    IsoFormatFields(newTime);
  }

  /** Distinct times print differently, so a diff line names its times unambiguously. */
  lemma IsoFormatInjective(a: Timestamp, b: Timestamp)
    requires IsoFormat(a) == IsoFormat(b)
    ensures a == b
  {
    StrptimeReadsIsoFormat(a);
    StrptimeReadsIsoFormat(b);
    ToFromTimestamp(a);
    ToFromTimestamp(b);
  }

  /** The start-time parser reads back what `isoformat` prints, with a `Z` appended. */
  lemma ParseIsoFormat(ts: Timestamp)
    ensures ParseStartDatetime(IsoFormat(ts) + "Z") == Ok(ts)
  {
    StrptimeReadsIsoFormat(ts);
    ToFromTimestamp(ts);
  }

  /** `'2021-06-24T14:33:00Z'` parses to 2021-06-24 14:33:00. */
  lemma ParseValidExample(s: string)
    requires s == "2021-06-24T14:33:00Z"
    ensures ParseStartDatetime(s).Ok?
    ensures FromTimestamp(ParseStartDatetime(s).value) == DateTime(2021, 6, 24, 14, 33, 0)
  {
    ReadsFixedWidth(s);
    var dt := DateTime(2021, 6, 24, 14, 33, 0);
    assert LayoutFields(s) == dt;
    assert ValidDateTime(dt);
  }

  /** The 29th of February is accepted in the leap year 2020 ... */
  lemma ParseLeapDay(s: string)
    requires s == "2020-02-29T00:00:00Z"
    ensures ParseStartDatetime(s).Ok?
  {
    ReadsFixedWidth(s);
    assert LayoutFields(s) == DateTime(2020, 2, 29, 0, 0, 0);
    assert IsLeapYear(2020);
  }

  /** ... and refused with `ValueError` in the common year 2021. */
  lemma ParseCommonYearLeapDayRaises(s: string)
    requires s == "2021-02-29T00:00:00Z"
    ensures ParseStartDatetime(s) == Err(ValueError)
  {
    ReadsFixedWidth(s);
    assert LayoutFields(s) == DateTime(2021, 2, 29, 0, 0, 0);
    assert !IsLeapYear(2021);
  }

  /** Month 13 is refused: `parse_start_datetime` raises `ValueError` for it. */
  lemma ParseMonth13Raises(s: string)
    requires s == "2021-13-24T14:33:00Z"
    ensures ParseStartDatetime(s) == Err(ValueError)
  {
    ReadsFixedWidth(s);
    assert LayoutFields(s).month == 13;
  }

  /** The repository's test expects `None` for month 13, which the intended parser gives. */
  lemma ParseMonth13GivesNone(s: string)
    requires s == "2021-13-24T14:33:00Z"
    ensures ParseStartDatetimeOrNone(s) == None
  {
    ParseMonth13Raises(s);
  }
}
