/** Naive proleptic-Gregorian datetimes as Python's `datetime` holds them
    (years 1 to 9999, whole seconds), modelled as a count of seconds since
    0001-01-01T00:00:00, and `timedelta` values as signed second counts.
    The civil fields (year, month, day, hour, minute, second) are recovered
    from a count by `FromTimestamp`, which `ToTimestamp` inverts. */
module Calendar {
  import opened Outcomes

  const SecondsPerDay: int := 86400
  /** Number of days from 0001-01-01 to 9999-12-31 inclusive (Python's `date.max.toordinal()`). */
  const MaxOrdinal: int := 3652059
  /** One past the last second a `datetime` can hold. */
  const TimestampLimit: int := MaxOrdinal * SecondsPerDay
  /** `timedelta` keeps its day count within plus or minus this bound. */
  const MaxDeltaDays: int := 999999999
  const MinDeltaSeconds: int := -MaxDeltaDays * SecondsPerDay
  const MaxDeltaSeconds: int := MaxDeltaDays * SecondsPerDay + SecondsPerDay - 1

  /** A naive `datetime`: seconds since 0001-01-01T00:00:00. */
  type Timestamp = s: int | 0 <= s < TimestampLimit
  /** A `date`: days since 0001-01-01 (its proleptic ordinal minus one). */
  type Day = d: int | 0 <= d < MaxOrdinal
  /** A `time` of day without microseconds: seconds since midnight. */
  type ClockTime = t: int | 0 <= t < SecondsPerDay
  /** A `timedelta` without microseconds, in seconds. */
  type Delta = d: int | MinDeltaSeconds <= d <= MaxDeltaSeconds

  datatype DateTime = DateTime(year: int, month: int, day: int, hour: int, minute: int, second: int)

  predicate IsLeapYear(y: int) {
    y % 4 == 0 && (y % 100 != 0 || y % 400 == 0)
  }

  function DaysInYear(y: int): int {
    if IsLeapYear(y) then 366 else 365
  }

  function DaysInMonth(y: int, m: int): (n: int)
    requires 1 <= m <= 12
    ensures 28 <= n <= 31
  {
    if m == 2 then (if IsLeapYear(y) then 29 else 28)
    else if m == 4 || m == 6 || m == 9 || m == 11 then 30
    else 31
  }

  /** Days of year `y` that precede the first of month `m` (13 stands for the next year). */
  function DaysBeforeMonth(y: int, m: int): int
    requires 1 <= m <= 13
  {
    var common :=
      if m <= 6 then (if m == 1 then 0 else if m == 2 then 31 else if m == 3 then 59
                      else if m == 4 then 90 else if m == 5 then 120 else 151)
      else if m <= 12 then (if m == 7 then 181 else if m == 8 then 212 else if m == 9 then 243
                            else if m == 10 then 273 else if m == 11 then 304 else 334)
      else 365;
    common + (if m > 2 && IsLeapYear(y) then 1 else 0)
  }

  /** Days from 0001-01-01 to the first of January of year `y`. */
  function DaysBeforeYear(y: int): int
    requires y >= 1
  {
    var k := y - 1;
    365 * k + k / 4 - k / 100 + k / 400
  }

  predicate ValidDateTime(dt: DateTime) {
    && 1 <= dt.year <= 9999
    && 1 <= dt.month <= 12
    && 1 <= dt.day <= DaysInMonth(dt.year, dt.month)
    && 0 <= dt.hour < 24
    && 0 <= dt.minute < 60
    && 0 <= dt.second < 60
  }

  lemma YearStep(y: int)
    requires y >= 1
    ensures DaysBeforeYear(y + 1) == DaysBeforeYear(y) + DaysInYear(y)
  {
    var k := y - 1;
    assert DaysBeforeYear(y + 1) == 365 * y + y / 4 - y / 100 + y / 400;
    CycleStep(y, 4);
    CycleStep(y, 100);
    CycleStep(y, 400);
    MultipleChain(y);
  }

  /** A multiple of 400 is a multiple of 100, and a multiple of 100 is a multiple of 4. */
  lemma MultipleChain(y: int)
    ensures y % 400 == 0 ==> y % 100 == 0
    ensures y % 100 == 0 ==> y % 4 == 0
  {
    if y % 400 == 0 {
      DivExact(y, 4 * (y / 400), 100, 0);
    }
    if y % 100 == 0 {
      DivExact(y, 25 * (y / 100), 4, 0);
    }
  }

  /** Counting year `y` completes a cycle of `q` years exactly when `y` is a multiple of `q`. */
  lemma CycleStep(y: int, q: int)
    requires y >= 1 && q > 0
    ensures y / q == (y - 1) / q + (if y % q == 0 then 1 else 0)
  {
    var k := y - 1;
    var a, r := k / q, k % q;
    assert k == a * q + r && 0 <= r < q;
    if r == q - 1 {
      assert y == (a + 1) * q;
      DivExact(y, a + 1, q, 0);
    } else {
      assert y == a * q + (r + 1);
      DivExact(y, a, q, r + 1);
    }
  }

  /** Division is determined by a quotient and a remainder in range. */
  lemma DivExact(n: int, a: int, q: int, r: int)
    requires q > 0 && 0 <= r < q && n == a * q + r
    ensures n / q == a && n % q == r
  {
    var a', r' := n / q, n % q;
    assert n == a' * q + r' && 0 <= r' < q;
    assert (a - a') * q == r' - r;
    MultipleOutside(a - a', q);
  }

  /** A nonzero multiple of `q` is at least `q` away from zero. */
  lemma MultipleOutside(x: int, q: int)
    requires q > 0
    ensures x >= 1 ==> x * q >= q
    ensures x <= -1 ==> x * q <= -q
  {
    if x >= 1 {
      assert x * q == (x - 1) * q + q;
      assert (x - 1) * q >= 0;
    } else if x <= -1 {
      assert x * q == (x + 1) * q - q;
      assert (x + 1) * q <= 0;
    }
  }

  /** Years are laid end to end: a later year starts after an earlier one ends. */
  lemma {:induction false} YearMonotone(a: int, b: int)
    requires 1 <= a < b
    ensures DaysBeforeYear(a) + DaysInYear(a) <= DaysBeforeYear(b)
    decreases b - a
  {
    YearStep(a);
    if a + 1 < b {
      YearMonotone(a + 1, b);
    }
  }

  lemma MonthsFillYear(y: int)
    ensures DaysBeforeMonth(y, 13) == DaysInYear(y)
  {
  }

  /** Months are laid end to end within a year. */
  lemma MonthMonotone(y: int, a: int, b: int)
    requires 1 <= a < b <= 13
    ensures DaysBeforeMonth(y, a) + DaysInMonth(y, a) <= DaysBeforeMonth(y, b)
  {
  }

  /** Day index of a valid civil date, with its bounds. */
  function DayNumber(y: int, m: int, d: int): (n: int)
    requires 1 <= y <= 9999 && 1 <= m <= 12 && 1 <= d <= DaysInMonth(y, m)
    ensures DaysBeforeYear(y) <= n < DaysBeforeYear(y) + DaysInYear(y)
    ensures 0 <= n < MaxOrdinal
  {
    DayNumberBounds(y, m, d);
    DaysBeforeYear(y) + DaysBeforeMonth(y, m) + d - 1
  }

  lemma DayNumberBounds(y: int, m: int, d: int)
    requires 1 <= y <= 9999 && 1 <= m <= 12 && 1 <= d <= DaysInMonth(y, m)
    ensures DaysBeforeMonth(y, m) + d - 1 < DaysInYear(y)
    ensures DaysBeforeYear(y) + DaysInYear(y) <= MaxOrdinal
  {
    MonthsFillYear(y);
    MonthMonotone(y, m, 13);
    if y < 9999 {
      YearMonotone(y, 9999);
    }
    YearStep(9999);
  }

  /** `datetime(year, month, day, hour, minute, second)` as a second count. */
  function ToTimestamp(dt: DateTime): Timestamp
    requires ValidDateTime(dt)
  {
    DayNumber(dt.year, dt.month, dt.day) * SecondsPerDay
      + dt.hour * 3600 + dt.minute * 60 + dt.second
  }

  /** The year holding day index `n`, found by counting 400-, 100-, 4- and 1-year cycles. */
  function YearOf(n: Day): (y: int)
    ensures 1 <= y <= 9999
    ensures DaysBeforeYear(y) <= n < DaysBeforeYear(y) + DaysInYear(y)
  {
    var q400, r400 := n / 146097, n % 146097;
    var q100, r100 := r400 / 36524, r400 % 36524;
    var q4, r4 := r100 / 1461, r100 % 1461;
    var q1, r1 := r4 / 365, r4 % 365;
    YearOfCycles(n, q400, r400, q100, r100, q4, r4, q1, r1);
    if q100 == 4 || q1 == 4 then 400 * q400 + 100 * q100 + 4 * q4 + q1
    else 400 * q400 + 100 * q100 + 4 * q4 + q1 + 1
  }

  /** Days before the year that follows `k` whole years, split into 400-, 100-, 4- and 1-year cycles. */
  lemma BeforeYearParts(k: int, q400: int, q100: int, q4: int, q1: int)
    requires q400 >= 0 && 0 <= q100 <= 3 && 0 <= q4 <= 24 && 0 <= q1 <= 3
    requires k == 400 * q400 + 100 * q100 + 4 * q4 + q1
    ensures DaysBeforeYear(k + 1) == 146097 * q400 + 36524 * q100 + 1461 * q4 + 365 * q1
  {
    DivExact(k, 100 * q400 + 25 * q100 + q4, 4, q1);
    DivExact(k, 4 * q400 + q100, 100, 4 * q4 + q1);
    DivExact(k, q400, 400, 100 * q100 + 4 * q4 + q1);
  }

  /** Year `400 * (q400 + 1)` is a leap year starting 365 days before the end of the `q400`-th 400-year cycle. */
  lemma LastDayOf400(q400: int)
    requires q400 >= 0
    ensures var y := 400 * q400 + 400;
      DaysBeforeYear(y) == 146097 * q400 + 146096 - 365 && IsLeapYear(y)
  {
    var y := 400 * q400 + 400;
    BeforeYearParts(y - 1, q400, 3, 24, 3);
    DivExact(y, q400 + 1, 400, 0);
    MultipleChain(y);
  }

  /** The year closing a 4-year cycle that does not close a 100-year cycle is a leap year. */
  lemma LastDayOf4(q400: int, q100: int, q4: int)
    requires q400 >= 0 && 0 <= q100 <= 3 && 0 <= q4 <= 23
    ensures var y := 400 * q400 + 100 * q100 + 4 * q4 + 4;
      DaysBeforeYear(y) == 146097 * q400 + 36524 * q100 + 1461 * q4 + 1095 && IsLeapYear(y)
  {
    var y := 400 * q400 + 100 * q100 + 4 * q4 + 4;
    BeforeYearParts(y - 1, q400, q100, q4, 3);
    DivExact(y, 100 * q400 + 25 * q100 + q4 + 1, 4, 0);
    DivExact(y, 4 * q400 + q100, 100, 4 * q4 + 4);
  }

  lemma YearOfCycles(n: int, q400: int, r400: int, q100: int, r100: int, q4: int, r4: int, q1: int, r1: int)
    requires 0 <= n < MaxOrdinal
    requires n == 146097 * q400 + r400 && 0 <= r400 < 146097
    requires r400 == 36524 * q100 + r100 && 0 <= r100 < 36524
    requires r100 == 1461 * q4 + r4 && 0 <= r4 < 1461
    requires r4 == 365 * q1 + r1 && 0 <= r1 < 365
    ensures var y := if q100 == 4 || q1 == 4 then 400 * q400 + 100 * q100 + 4 * q4 + q1
                     else 400 * q400 + 100 * q100 + 4 * q4 + q1 + 1;
      && 1 <= y <= 9999
      && DaysBeforeYear(y) <= n < DaysBeforeYear(y) + DaysInYear(y)
  {
    var y := if q100 == 4 || q1 == 4 then 400 * q400 + 100 * q100 + 4 * q4 + q1
             else 400 * q400 + 100 * q100 + 4 * q4 + q1 + 1;
    assert q400 >= 0 && 0 <= q100 <= 4 && 0 <= q4 <= 24 && 0 <= q1 <= 4;
    if q100 == 4 {
      // the last day of a leap 400th year
      LastDayOf400(q400);
    } else if q1 == 4 {
      // the last day of a leap 4th year that is not a 100th one
      assert q4 <= 23;
      LastDayOf4(q400, q100, q4);
    } else {
      BeforeYearParts(y - 1, q400, q100, q4, q1);
    }
    LastYear(n, y);
  }

  /** A year that starts before the last day of year 9999 is at most 9999. */
  lemma LastYear(n: int, y: int)
    requires y >= 1 && DaysBeforeYear(y) <= n < MaxOrdinal
    ensures y <= 9999
  {
    YearStep(9999);
    if y > 9999 {
      YearMonotone(9999, y);
    }
  }

  /** The month of year `y` holding day `doy` of that year (0-based), searching from month `m`. */
  function MonthFrom(y: int, doy: int, m: int): (r: int)
    requires 1 <= m <= 12
    requires DaysBeforeMonth(y, m) <= doy < DaysInYear(y)
    ensures m <= r <= 12
    ensures DaysBeforeMonth(y, r) <= doy < DaysBeforeMonth(y, r) + DaysInMonth(y, r)
    decreases 12 - m
  {
    MonthsFillYear(y);
    if m == 12 || doy < DaysBeforeMonth(y, m + 1) then m
    else MonthFrom(y, doy, m + 1)
  }

  /** The civil date of day index `n`, at midnight. */
  function DateFields(n: Day): (dt: DateTime)
    ensures ValidDateTime(dt) && dt.hour == 0 && dt.minute == 0 && dt.second == 0
  {
    var y := YearOf(n);
    var doy := n - DaysBeforeYear(y);
    var m := MonthFrom(y, doy, 1);
    DateTime(y, m, doy - DaysBeforeMonth(y, m) + 1, 0, 0, 0)
  }

  /** The civil fields of a timestamp. */
  function FromTimestamp(ts: Timestamp): (dt: DateTime)
    ensures ValidDateTime(dt)
  {
    var date := DateFields(ts / SecondsPerDay);
    var clock := ts % SecondsPerDay;
    DateTime(date.year, date.month, date.day, clock / 3600, clock % 3600 / 60, clock % 60)
  }

  /** Hours, minutes and seconds of a time of day, and their recombination. */
  lemma ClockFields(c: int, h: int, m: int, s: int)
    requires 0 <= h < 24 && 0 <= m < 60 && 0 <= s < 60
    ensures c == h * 3600 + m * 60 + s <==> (0 <= c < SecondsPerDay && h == c / 3600 && m == c % 3600 / 60 && s == c % 60)
  {
  }

  /** The day index of a timestamp's civil date is its `date()`. */
  lemma DayNumberOfDate(n: Day)
    ensures var dt := DateFields(n); DayNumber(dt.year, dt.month, dt.day) == n
  {
  }

  /** Reading the fields of a timestamp and building it back from them gives the timestamp. */
  lemma ToFromTimestamp(ts: Timestamp)
    ensures ToTimestamp(FromTimestamp(ts)) == ts
  {
    var dt := FromTimestamp(ts);
    DayNumberOfDate(ts / SecondsPerDay);
    ClockFields(ts % SecondsPerDay, dt.hour, dt.minute, dt.second);
  }

  /** Only year `y` holds the days between its first and its last. */
  lemma YearOfUnique(n: Day, y: int)
    requires 1 <= y <= 9999 && DaysBeforeYear(y) <= n < DaysBeforeYear(y) + DaysInYear(y)
    ensures YearOf(n) == y
  {
    var y' := YearOf(n);
    if y' < y {
      YearMonotone(y', y);
    } else if y < y' {
      YearMonotone(y, y');
    }
  }

  /** Only month `m` holds the days of the year between its first and its last. */
  lemma MonthFromUnique(y: int, doy: int, m: int)
    requires 1 <= m <= 12 && DaysBeforeMonth(y, m) <= doy < DaysBeforeMonth(y, m) + DaysInMonth(y, m)
    ensures MonthFrom(y, doy, 1) == m
  {
    MonthsFillYear(y);
    MonthMonotone(y, m, 13);
    var m' := MonthFrom(y, doy, 1);
    if m' < m {
      MonthMonotone(y, m', m);
    } else if m < m' {
      MonthMonotone(y, m, m');
    }
  }

  /** The civil date of a valid date's day index is that date. */
  lemma DateFieldsOfDayNumber(y: int, m: int, d: int)
    requires 1 <= y <= 9999 && 1 <= m <= 12 && 1 <= d <= DaysInMonth(y, m)
    ensures DateFields(DayNumber(y, m, d)) == DateTime(y, m, d, 0, 0, 0)
  {
    var n := DayNumber(y, m, d);
    var doy := n - DaysBeforeYear(y);
    assert doy == DaysBeforeMonth(y, m) + d - 1;
    YearOfUnique(n, y);
    MonthFromUnique(y, doy, m);
  }

  /** A valid datetime is recovered from its second count: the civil encoding is injective. */
  lemma FromToTimestamp(dt: DateTime)
    requires ValidDateTime(dt)
    ensures FromTimestamp(ToTimestamp(dt)) == dt
  {
    var n := DayNumber(dt.year, dt.month, dt.day);
    var clock := dt.hour * 3600 + dt.minute * 60 + dt.second;
    ClockFields(clock, dt.hour, dt.minute, dt.second);
    DivExact(ToTimestamp(dt), n, SecondsPerDay, clock);
    DateFieldsOfDayNumber(dt.year, dt.month, dt.day);
  }

  /** The `date()` part of a timestamp. */
  function DateOf(ts: Timestamp): Day {
    ts / SecondsPerDay
  }

  /** The `time()` part of a timestamp. */
  function TimeOfDay(ts: Timestamp): ClockTime {
    ts % SecondsPerDay
  }

  /** `datetime.combine(date, time)`. */
  function Combine(date: Day, time: ClockTime): (ts: Timestamp)
    ensures DateOf(ts) == date && TimeOfDay(ts) == time
  {
    date * SecondsPerDay + time
  }

  /** Two timestamps show the same wall-clock time exactly when their `time()` parts agree. */
  lemma SameTimeOfDay(a: Timestamp, b: Timestamp)
    ensures TimeOfDay(a) == TimeOfDay(b) <==>
      (FromTimestamp(a).hour, FromTimestamp(a).minute, FromTimestamp(a).second)
        == (FromTimestamp(b).hour, FromTimestamp(b).minute, FromTimestamp(b).second)
  {
    var da, db := FromTimestamp(a), FromTimestamp(b);
    ClockFields(TimeOfDay(a), da.hour, da.minute, da.second);
    ClockFields(TimeOfDay(b), db.hour, db.minute, db.second);
  }

  /** Two timestamps fall on the same calendar date exactly when their `date()` parts agree. */
  lemma SameDate(a: Timestamp, b: Timestamp)
    ensures DateOf(a) == DateOf(b) <==>
      (FromTimestamp(a).year, FromTimestamp(a).month, FromTimestamp(a).day)
        == (FromTimestamp(b).year, FromTimestamp(b).month, FromTimestamp(b).day)
  {
    DayNumberOfDate(DateOf(a));
    DayNumberOfDate(DateOf(b));
  }

  /** `datetime + timedelta`: the sum is split into whole days and seconds, and
      the day count must name an ordinal of the calendar; otherwise `OverflowError`. */
  function AddSeconds(ts: Timestamp, d: int): (r: Result<Timestamp>)
    ensures r.Ok? <==> 0 <= (ts + d) / SecondsPerDay < MaxOrdinal
    ensures r.Ok? ==> DateOf(r.value) == (ts + d) / SecondsPerDay && TimeOfDay(r.value) == (ts + d) % SecondsPerDay
    ensures r.Err? ==> r.failure == OverflowError
  {
    if 0 <= ts + d < TimestampLimit then Ok(ts + d) else Err(OverflowError)
  }

  /** `timedelta(seconds=s)`: raises `OverflowError` when the day count leaves its range. */
  function SecondsDelta(s: int): (r: Result<Delta>)
    ensures r.Ok? <==> -MaxDeltaDays <= s / SecondsPerDay <= MaxDeltaDays
    ensures r.Ok? ==> r.value == s
    ensures r.Err? ==> r.failure == OverflowError
  {
    if MinDeltaSeconds <= s <= MaxDeltaSeconds then Ok(s) else Err(OverflowError)
  }
}
