/** The rebased time axis both revisions build: from an anchor, the list
    comprehension `[anchor + i * delta for i in range(n)]`, and what such a
    list looks like. */
module TimeSeries {
  import opened Outcomes
  import opened Calendar

  /** The first new time: the date of `now` (the UTC clock) at the time of day of
      the first old time, as `datetime.combine(now.date(), first.time())`. */
  function Anchor(first: Timestamp, now: Timestamp): (a: Timestamp)
    ensures DateOf(a) == DateOf(now) && TimeOfDay(a) == TimeOfDay(first)
  {
    Combine(DateOf(now), TimeOfDay(first))
  }

  /** The `i`-th time of a series that starts at `anchor` and steps by `delta`. */
  function Slot(anchor: int, delta: int, i: int): int {
    anchor + i * delta
  }

  /** Every element lies `i` steps of `delta` after the first. */
  predicate EvenlySpaced(s: seq<int>, delta: int)
    requires |s| > 0
  {
    forall i :: 0 <= i < |s| ==> s[i] == Slot(s[0], delta, i)
  }

  /** `[anchor + j * delta for j in range(i, n)]`, evaluated in order. Python
      raises `OverflowError` at the first element outside the `datetime` range
      (the product `j * delta` can only overflow `timedelta` when the sum would
      leave that range as well). */
  function SlotsFrom(anchor: Timestamp, delta: Delta, i: nat, n: nat): (r: Result<seq<Timestamp>>)
    requires i <= n
    ensures r.Ok? <==> forall j :: i <= j < n ==> 0 <= Slot(anchor, delta, j) < TimestampLimit
    ensures r.Ok? ==> |r.value| == n - i
    ensures r.Ok? ==> forall j :: 0 <= j < n - i ==> r.value[j] == Slot(anchor, delta, i + j)
    ensures r.Err? ==> r.failure == OverflowError
    decreases n - i
  {
    if i == n then Ok([])
    else
      assert Slot(anchor, delta, i) == anchor + i * delta;
      var x :- AddSeconds(anchor, i * delta);
      var rest :- SlotsFrom(anchor, delta, i + 1, n);
      Ok([x] + rest)
  }

  /** Product of a bounded index and a step lies between the products at the ends. */
  lemma ScaleBetween(j: int, m: int, d: int)
    requires 0 <= j <= m
    ensures d >= 0 ==> 0 <= j * d <= m * d
    ensures d < 0 ==> m * d <= j * d <= 0
  {
    assert m * d - j * d == (m - j) * d;
  }

  /** The first and last slots bound all the others, so a series fits in the
      `datetime` range exactly when its two ends do. */
  lemma EndsBoundSlots(anchor: Timestamp, delta: Delta, n: nat)
    requires n > 0
    ensures (forall j :: 0 <= j < n ==> 0 <= Slot(anchor, delta, j) < TimestampLimit)
        <==> 0 <= Slot(anchor, delta, n - 1) < TimestampLimit
  {
    forall j | 0 <= j < n
      ensures 0 <= Slot(anchor, delta, n - 1) < TimestampLimit ==> 0 <= Slot(anchor, delta, j) < TimestampLimit
    {
      ScaleBetween(j, n - 1, delta);
    }
  }

  /** Consecutive elements differ by exactly `delta`, whatever its sign. */
  lemma ConstantStep(s: seq<int>, delta: int, i: nat)
    requires |s| > 0 && EvenlySpaced(s, delta)
    requires i + 1 < |s|
    ensures s[i + 1] - s[i] == delta
  {
    assert s[i + 1] == Slot(s[0], delta, i + 1) && s[i] == Slot(s[0], delta, i);
    assert (i + 1) * delta == i * delta + delta;
  }

  /** A positive step gives a strictly increasing series, a negative one a
      strictly decreasing series, and a zero step repeats the first element. */
  lemma StepSignOrders(s: seq<int>, delta: int, i: nat, j: nat)
    requires |s| > 0 && EvenlySpaced(s, delta)
    requires i < j < |s|
    ensures delta > 0 ==> s[i] < s[j]
    ensures delta < 0 ==> s[i] > s[j]
    ensures delta == 0 ==> s[i] == s[j]
  {
    assert s[j] - s[i] == (j - i) * delta by {
      assert s[j] == Slot(s[0], delta, j) && s[i] == Slot(s[0], delta, i);
      assert j * delta - i * delta == (j - i) * delta;
    }
    if delta > 0 {
      ScaleBetween(1, j - i, delta);
    } else if delta < 0 {
      ScaleBetween(1, j - i, delta);
    }
  }
}
