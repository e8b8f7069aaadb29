/** The earlier revision of the date utilities (`netcdfdatebump/datetime_utils.py`).
    It computes what the current revision computes; it differs in how it
    stops: `sys.exit(2)` where the current one raises
    `GenerateTimeDeltaException`, and an unguarded `times_pydate[0]` (an
    `IndexError` escaping to the caller) where the current one raises
    `InvalidDateListException`. */
module LegacyDatetimeUtils {
  import opened Outcomes
  import opened Calendar
  import opened TimeSeries
  import DatetimeUtils

  /** Fewest existing times from which a step can be derived. */
  const TimeStepsMin: int := 2

  /** `generate_timedelta`: the user's step, else the first gap when there are
      at least `TimeStepsMin` times, else exit with status 2. */
  function GenerateTimedelta(times: seq<Timestamp>, timeStep: Option<int>): (r: Result<Delta>)
    ensures timeStep.Some? ==> (r.Ok? <==> MinDeltaSeconds <= timeStep.value <= MaxDeltaSeconds)
    ensures timeStep.Some? && r.Ok? ==> r.value == timeStep.value
    ensures timeStep.Some? && r.Err? ==> r.failure == OverflowError
    ensures timeStep.None? ==> (r.Ok? <==> |times| >= TimeStepsMin)
    ensures timeStep.None? && r.Ok? ==> times[0] + r.value == times[1]
    ensures timeStep.None? && r.Err? ==> r.failure == SystemExit(2)
  {
    if timeStep.Some? then SecondsDelta(timeStep.value)
    else if |times| >= TimeStepsMin then Ok(times[1] as int - times[0] as int)
    else Err(SystemExit(2))
  }

  /** `generate_new_time_list`: one new time per old time, the first on the
      UTC date of `now` at the first old time's time of day, each next one
      `delta` later; zero and negative steps are applied like any other. */
  function GenerateNewTimeList(times: seq<Timestamp>, delta: Delta, now: Timestamp): (r: Result<seq<Timestamp>>)
    ensures |times| == 0 ==> r == Err(IndexError)
    ensures r.Ok? ==> |r.value| == |times|
    ensures r.Ok? ==> DateOf(r.value[0]) == DateOf(now) && TimeOfDay(r.value[0]) == TimeOfDay(times[0])
    ensures r.Ok? ==> EvenlySpaced(r.value, delta)
    ensures |times| > 0 ==> (r.Ok? <==> 0 <= Slot(Anchor(times[0], now), delta, |times| - 1) < TimestampLimit)
    ensures |times| > 0 && r.Err? ==> r.failure == OverflowError
  {
    if |times| == 0 then Err(IndexError)
    else
      var anchor := Anchor(times[0], now);
      EndsBoundSlots(anchor, delta, |times|);
      SlotsFrom(anchor, delta, 0, |times|)
  }

  /** The two revisions resolve the same step from the same inputs; where the
      current one raises `GenerateTimeDeltaException` the earlier one exits with status 2. */
  lemma TimedeltaRevisionsAgree(times: seq<Timestamp>, timeStep: Option<int>)
    ensures var earlier, current := GenerateTimedelta(times, timeStep), DatetimeUtils.GenerateTimedelta(times, timeStep);
      if current == Err(GenerateTimeDeltaException) then earlier == Err(SystemExit(2)) else earlier == current
  {
  }

  /** The two revisions generate the same times; where the current one raises
      `InvalidDateListException` the earlier one lets an `IndexError` escape. */
  lemma NewTimeListRevisionsAgree(times: seq<Timestamp>, delta: Delta, now: Timestamp)
    ensures var earlier, current := GenerateNewTimeList(times, delta, now), DatetimeUtils.GenerateNewTimeList(times, delta, now);
      if current == Err(InvalidDateListException) then earlier == Err(IndexError) else earlier == current
  {
  }
}
