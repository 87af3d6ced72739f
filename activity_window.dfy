/** Activity-window detection of src/aggregating/pruning_raw_firestorm.py
    (and its copy src/ts_analysis/pruning_raw_firestorm.py) over the hourly
    table of `FirestormTweets`.

    A day is active when its busiest hour reaches the threshold
    `max(100, 0.2 * peak)`. The window starts at the first hour of the first
    active day that reaches the threshold, and ends one hour after the last
    such hour of the day before the first inactive day that follows. Hours
    are hour ordinals, days are `hour / 24`. */
module ActivityWindow {
  import opened Wrappers
  import opened Ordering
  import Filters
  import FT = FirestormTweets

  const MinThreshold: real := 100.0
  const ThresholdFactor: real := 0.2

  /** The result pair `(start_datetime, end_datetime)`: both `None` when the
      firestorm never reaches the threshold; `end` is exclusive. */
  datatype Bounds = Bounds(start: Option<int>, end: Option<int>)

  function DayOf(h: int): int {
    h / 24
  }

  predicate HoursIncreasing(rows: seq<FT.Row>) {
    forall i, j :: 0 <= i < j < |rows| ==> rows[i].hour < rows[j].hour
  }

  /** The highest `total_tweets` of some rows; `max` of a non-empty column. */
  function MaxTotal(rows: seq<FT.Row>): (m: nat)
    ensures forall i :: 0 <= i < |rows| ==> rows[i].total <= m
    ensures |rows| > 0 ==> exists i :: 0 <= i < |rows| && rows[i].total == m
    ensures |rows| == 0 ==> m == 0
  {
    if |rows| == 0 then 0
    else
      var m := MaxTotal(rows[1..]);
      if rows[0].total >= m then rows[0].total else m
  }

  /** `get_threshold`: `max(MIN_THRESHOLD, THRESHOLD_FACTOR * peak)`. */
  function Threshold(rows: seq<FT.Row>): (th: real)
    ensures th >= MinThreshold && th >= ThresholdFactor * MaxTotal(rows) as real
    ensures th == MinThreshold || th == ThresholdFactor * MaxTotal(rows) as real
  {
    var scaled := ThresholdFactor * MaxTotal(rows) as real;
    if scaled > MinThreshold then scaled else MinThreshold
  }

  /** The days of the index in ascending order: the keys of
      `groupby(lambda x: x.date)`. */
  function Days(rows: seq<FT.Row>): (r: seq<int>)
    requires HoursIncreasing(rows)
    ensures StrictlyIncreasing(r)
    ensures forall d :: d in r <==> exists i :: 0 <= i < |rows| && DayOf(rows[i].hour) == d
    ensures |rows| > 0 ==> |r| > 0 && r[0] == DayOf(rows[0].hour)
  {
    if |rows| == 0 then []
    else
      var d := DayOf(rows[0].hour);
      var rest := Days(rows[1..]);
      assert forall i :: 1 <= i < |rows| ==> d <= DayOf(rows[i].hour) by {
        forall i | 1 <= i < |rows| ensures d <= DayOf(rows[i].hour) {
          DayMonotone(rows[0].hour, rows[i].hour);
        }
      }
      assert forall x :: x in rest ==> d <= x;
      var r := if |rest| > 0 && rest[0] == d then rest else [d] + rest;
      assert forall x :: x in r <==> x == d || x in rest;
      r
  }

  lemma DayMonotone(a: int, b: int)
    requires a <= b
    ensures DayOf(a) <= DayOf(b)
  {
  }

  /** The rows of one day, in index order: `get_group(day)`. */
  function DayRows(rows: seq<FT.Row>, d: int): (r: seq<FT.Row>)
    ensures forall x :: x in r <==> x in rows && DayOf(x.hour) == d
  {
    if |rows| == 0 then []
    else
      var rest := DayRows(rows[1..], d);
      assert forall x :: x in rows <==> x == rows[0] || x in rows[1..] by {
        assert rows == [rows[0]] + rows[1..];
      }
      if DayOf(rows[0].hour) == d then [rows[0]] + rest else rest
  }

  /** A day's rows keep the index order. */
  lemma {:induction false} DayRowsIncreasing(rows: seq<FT.Row>, d: int)
    requires HoursIncreasing(rows)
    ensures HoursIncreasing(DayRows(rows, d))
  {
    if |rows| > 0 {
      DayRowsIncreasing(rows[1..], d);
      var rest := DayRows(rows[1..], d);
      if DayOf(rows[0].hour) == d {
        assert forall x :: x in rest ==> x in rows[1..];
        PrependIncreasing(rows[0], rest);
      }
    }
  }

  lemma PrependIncreasing(x: FT.Row, rest: seq<FT.Row>)
    requires HoursIncreasing(rest)
    requires forall y :: y in rest ==> x.hour < y.hour
    ensures HoursIncreasing([x] + rest)
  {
    var r := [x] + rest;
    forall i, j | 0 <= i < j < |r| ensures r[i].hour < r[j].hour {
      if i == 0 {
        assert r[j] in rest;
      } else {
        assert r[i] == rest[i - 1] && r[j] == rest[j - 1];
      }
    }
  }

  /** The busiest hour of each day: `max(df_group["total_tweets"])` for
      every group. */
  function DayPeaks(rows: seq<FT.Row>, days: seq<int>): (r: seq<nat>)
    requires HoursIncreasing(rows)
    ensures |r| == |days|
    ensures forall k :: 0 <= k < |days| ==> r[k] == MaxTotal(DayRows(rows, days[k]))
  {
    seq(|days|, k requires 0 <= k < |days| => MaxTotal(DayRows(rows, days[k])))
  }

  /** Which days are active: their busiest hour reaches the threshold. */
  function Active(peaks: seq<nat>, th: real): (r: seq<bool>)
    ensures |r| == |peaks| && forall k :: 0 <= k < |peaks| ==> (r[k] <==> peaks[k] as real >= th)
  {
    seq(|peaks|, k requires 0 <= k < |peaks| => peaks[k] as real >= th)
  }

  /** The first position at or after `from` holding `want`; `|flags|` when
      there is none. */
  function FirstAt(flags: seq<bool>, from: nat, want: bool): (k: nat)
    requires from <= |flags|
    ensures from <= k <= |flags|
    ensures forall j :: from <= j < k ==> flags[j] != want
    ensures k < |flags| ==> flags[k] == want
    decreases |flags| - from
  {
    if from == |flags| then from
    else if flags[from] == want then from
    else FirstAt(flags, from + 1, want)
  }

  /** The position of the first row reaching the threshold; `|group|`
      when there is none. */
  function FirstReachingIndex(group: seq<FT.Row>, th: real): (k: nat)
    ensures k <= |group|
    ensures forall j :: 0 <= j < k ==> group[j].total as real < th
    ensures k < |group| ==> group[k].total as real >= th
  {
    if |group| == 0 || group[0].total as real >= th then 0
    else 1 + FirstReachingIndex(group[1..], th)
  }

  /** The position of the last row reaching the threshold; `-1` when there
      is none. */
  function LastReachingIndex(group: seq<FT.Row>, th: real): (k: int)
    ensures -1 <= k < |group|
    ensures forall j :: k < j < |group| ==> group[j].total as real < th
    ensures k >= 0 ==> group[k].total as real >= th
  {
    if |group| == 0 then -1
    else if group[|group| - 1].total as real >= th then |group| - 1
    else
      var k := LastReachingIndex(group[..|group| - 1], th);
      assert forall j :: 0 <= j < |group| - 1 ==> group[..|group| - 1][j] == group[j];
      k
  }

  /** The hour of the first row reaching the threshold, if any. */
  function FirstHourAtLeast(group: seq<FT.Row>, th: real): Option<int> {
    var k := FirstReachingIndex(group, th);
    if k < |group| then Some(group[k].hour) else None
  }

  /** The hour of the last row reaching the threshold, if any. */
  function LastHourAtLeast(group: seq<FT.Row>, th: real): Option<int> {
    var k := LastReachingIndex(group, th);
    if k >= 0 then Some(group[k].hour) else None
  }

  /** What `get_firestorm_wrapping_datetime` returns: `max` of an empty
      table raises ValueError; when no day is active both ends are `None`;
      when the activity never falls back below the threshold `end_date`
      stays `None` and `get_group(None)` raises KeyError, as it does when
      the day before the first inactive day has no rows. */
  function WindowOf(rows: seq<FT.Row>): (r: Result<Bounds>)
    requires HoursIncreasing(rows)
  {
    if |rows| == 0 then Err(ValueError)
    else
      var th := Threshold(rows);
      var days := Days(rows);
      WindowFrom(rows, th, days, Active(DayPeaks(rows, days), th))
  }

  /** The day pass of detection: the positions `(s, t)` of the first
      active day and of the last day of its run. KeyError when the run never
      ends, or when the day before the first inactive day has no rows. */
  function ActiveSpan(days: seq<int>, active: seq<bool>): (r: Result<Option<(nat, nat)>>)
    requires StrictlyIncreasing(days) && |active| == |days|
    ensures r == Ok(None) <==> forall k :: 0 <= k < |days| ==> !active[k]
    ensures r.Err? ==> r.error == KeyError
    ensures r.Ok? && r.value.Some? ==>
              var (s, t) := r.value.value;
              && s <= t < |days| - 1
              && (forall k :: 0 <= k < s ==> !active[k])
              && (forall k :: s <= k <= t ==> active[k])
              && !active[t + 1] && days[t + 1] == days[t] + 1
  {
    var s := FirstAt(active, 0, true);
    if s == |days| then Ok(None)
    else
      var e := FirstAt(active, s + 1, false);
      if e == |days| || days[e] - 1 !in days then Err(KeyError)
      else
        EndDayActive(days, active, s, e);
        Ok(Some((s, e - 1)))
  }

  /** The window for threshold `th`, days `days` and their activity: the
      first hour of the first active day reaching the threshold, and the hour
      after the last such hour of the last day of the run. */
  function WindowFrom(rows: seq<FT.Row>, th: real, days: seq<int>, active: seq<bool>): (r: Result<Bounds>)
    requires HoursIncreasing(rows) && StrictlyIncreasing(days) && |active| == |days|
  {
    match ActiveSpan(days, active)
    case Err(x) => Err(x)
    case Ok(None) => Ok(Bounds(None, None))
    case Ok(Some((s, t))) =>
      Ok(Bounds(FirstHourAtLeast(DayRows(rows, days[s]), th),
                HourAfter(LastHourAtLeast(DayRows(rows, days[t]), th))))
  }

  /** `name + timedelta(hours=1)` on an optional hour. */
  function HourAfter(h: Option<int>): Option<int> {
    match h
    case Some(x) => Some(x + 1)
    case None => None
  }

  /** The span once both the first active day and the first inactive day
      after it are known. */
  lemma SpanFromDays(days: seq<int>, active: seq<bool>, s: nat, e: nat)
    requires StrictlyIncreasing(days) && |active| == |days|
    requires s == FirstAt(active, 0, true) < |days|
    requires e == FirstAt(active, s + 1, false) < |days| && days[e] - 1 in days
    ensures 0 < e && days[e - 1] == days[e] - 1
    ensures ActiveSpan(days, active) == Ok(Some((s, e - 1)))
  {
    EndDayActive(days, active, s, e);
  }

  /** The span in terms of the two positions the day loop finds. */
  lemma SpanByPositions(days: seq<int>, active: seq<bool>)
    requires StrictlyIncreasing(days) && |active| == |days|
    ensures var s := FirstAt(active, 0, true);
            && (s == |days| ==> ActiveSpan(days, active) == Ok(None))
            && (s < |days| ==>
                  var e := FirstAt(active, s + 1, false);
                  e == |days| || days[e] - 1 !in days ==> ActiveSpan(days, active) == Err(KeyError))
  {
  }

  /** `get_firestorm_wrapping_datetime`: a pass over the days in order that
      records the first active day and stops at the first inactive day after
      it, then a pass over the first day's hours that stops at the first one
      reaching the threshold, and a pass over all hours of the last active
      day in which each such hour overwrites the end. */
  method WrappingDatetimes(rows: seq<FT.Row>) returns (r: Result<Bounds>)
    requires HoursIncreasing(rows)
    ensures r == WindowOf(rows)
  {
    if |rows| == 0 {
      return Err(ValueError);
    }
    var th := Threshold(rows);
    var days := Days(rows);
    var peaks := DayPeaks(rows, days);
    assert WindowOf(rows) == WindowFrom(rows, th, days, Active(peaks, th));
    r := WindowFromPeaks(rows, th, days, peaks);
  }

  /** The three passes once the threshold, the days and their peaks are
      known. */
  method WindowFromPeaks(rows: seq<FT.Row>, th: real, days: seq<int>, peaks: seq<nat>) returns (r: Result<Bounds>)
    requires HoursIncreasing(rows) && StrictlyIncreasing(days) && |peaks| == |days|
    ensures r == WindowFrom(rows, th, days, Active(peaks, th))
  {
    var startDay, endDay := ScanDays(days, peaks, th);
    ghost var active := Active(peaks, th);
    if startDay.None? {
      WindowFromQuiet(rows, th, days, active);
      return Ok(Bounds(None, None));
    }
    if endDay.None? || endDay.value !in days {
      WindowFromUnended(rows, th, days, active);
      return Err(KeyError);
    }
    WindowFromFound(rows, th, days, active, startDay.value, endDay.value);
    var start := FirstReaching(DayRows(rows, startDay.value), th);
    var end := LastReaching(DayRows(rows, endDay.value), th);
    r := Ok(Bounds(start, end));
  }

  /** No active day: no window. */
  lemma WindowFromQuiet(rows: seq<FT.Row>, th: real, days: seq<int>, active: seq<bool>)
    requires HoursIncreasing(rows) && StrictlyIncreasing(days) && |active| == |days|
    requires FirstAt(active, 0, true) == |days|
    ensures WindowFrom(rows, th, days, active) == Ok(Bounds(None, None))
  {
    SpanByPositions(days, active);
  }

  /** A run of active days that reaches the last day, or ends before a day
      without rows: KeyError. */
  lemma WindowFromUnended(rows: seq<FT.Row>, th: real, days: seq<int>, active: seq<bool>)
    requires HoursIncreasing(rows) && StrictlyIncreasing(days) && |active| == |days|
    requires var s := FirstAt(active, 0, true);
             && s < |days|
             && var e := FirstAt(active, s + 1, false);
                e == |days| || days[e] - 1 !in days
    ensures WindowFrom(rows, th, days, active) == Err(KeyError)
  {
    SpanByPositions(days, active);
  }

  /** The window once the first active day and the day before the first
      inactive day after it are found, the latter having rows. */
  lemma WindowFromFound(rows: seq<FT.Row>, th: real, days: seq<int>, active: seq<bool>, startDay: int, endDay: int)
    requires HoursIncreasing(rows) && StrictlyIncreasing(days) && |active| == |days|
    requires var s := FirstAt(active, 0, true);
             && s < |days| && startDay == days[s]
             && var e := FirstAt(active, s + 1, false);
                e < |days| && endDay == days[e] - 1
    requires endDay in days
    ensures WindowFrom(rows, th, days, active) ==
      Ok(Bounds(FirstHourAtLeast(DayRows(rows, startDay), th),
                HourAfter(LastHourAtLeast(DayRows(rows, endDay), th))))
  {
    var s := FirstAt(active, 0, true);
    var e := FirstAt(active, s + 1, false);
    SpanFromDays(days, active, s, e);
  }

  /** The loop over the day groups: `start_date` is the first active day;
      `end_date` is the day before the first inactive day after it, and stays
      `None` when there is none. */
  method ScanDays(days: seq<int>, peaks: seq<nat>, th: real) returns (startDay: Option<int>, endDay: Option<int>)
    requires |peaks| == |days|
    ensures var active := Active(peaks, th);
            var s := FirstAt(active, 0, true);
            && (startDay.None? <==> s == |days|)
            && (startDay.Some? ==> startDay.value == days[s])
            && (startDay.None? ==> endDay.None?)
            && (startDay.Some? ==> var e := FirstAt(active, s + 1, false);
                                   endDay == if e == |days| then None else Some(days[e] - 1))
  {
    ghost var active := Active(peaks, th);
    ghost var s := FirstAt(active, 0, true);
    startDay, endDay := None, None;
    var k := 0;
    while k < |days| && endDay.None?
      invariant 0 <= k <= |days|
      invariant startDay.None? ==> endDay.None? && s >= k
      invariant startDay.Some? ==> s < k && startDay.value == days[s]
      invariant startDay.Some? && endDay.None? ==> FirstAt(active, s + 1, false) >= k
      invariant endDay.Some? ==> startDay.Some? && 0 < k && FirstAt(active, s + 1, false) == k - 1
                                 && endDay.value == days[k - 1] - 1
      decreases |days| - k
    {
      if startDay.None? {
        if peaks[k] as real >= th {
          startDay := Some(days[k]);
        }
      } else if (peaks[k] as real) < th {
        endDay := Some(days[k] - 1);
      }
      k := k + 1;
    }
  }

  /** The loop over the first day's rows that stops at the first row
      reaching the threshold. */
  method FirstReaching(group: seq<FT.Row>, th: real) returns (start: Option<int>)
    ensures start == FirstHourAtLeast(group, th)
  {
    start := None;
    var i := 0;
    while i < |group| && start.None?
      invariant 0 <= i <= |group|
      invariant start.None? ==> forall j :: 0 <= j < i ==> group[j].total as real < th
      invariant start.Some? ==> 0 < i && FirstReachingIndex(group, th) == i - 1 && start.value == group[i - 1].hour
      decreases |group| - i
    {
      if group[i].total as real >= th {
        start := Some(group[i].hour);
      }
      i := i + 1;
    }
  }

  /** The loop over the last active day's rows: every row reaching the
      threshold overwrites the end with the hour after it. */
  method LastReaching(group: seq<FT.Row>, th: real) returns (end: Option<int>)
    ensures end == HourAfter(LastHourAtLeast(group, th))
  {
    end := None;
    for i := 0 to |group|
      invariant end == HourAfter(LastHourAtLeast(group[..i], th))
    {
      assert group[..i + 1][..i] == group[..i];
      assert group[..i + 1][i] == group[i];
      if group[i].total as real >= th {
        end := Some(group[i].hour + 1);
      }
    }
    assert group[..|group|] == group;
  }

  // ------------------------------------------------------------ properties

  /** A row is in its own day's group and never above that day's peak. */
  lemma RowWithinPeak(rows: seq<FT.Row>, days: seq<int>, k: nat, i: nat)
    requires HoursIncreasing(rows) && k < |days| && i < |rows|
    requires DayOf(rows[i].hour) == days[k]
    ensures rows[i].total <= DayPeaks(rows, days)[k]
  {
    var group := DayRows(rows, days[k]);
    assert rows[i] in group;
    var j :| 0 <= j < |group| && group[j] == rows[i];
  }

  /** An active day has an hour reaching the threshold, and the first and
      the last such hour exist. */
  lemma ActiveDayReaches(rows: seq<FT.Row>, days: seq<int>, th: real, k: nat)
    requires HoursIncreasing(rows) && days == Days(rows) && k < |days|
    requires DayPeaks(rows, days)[k] as real >= th
    ensures FirstHourAtLeast(DayRows(rows, days[k]), th).Some?
    ensures LastHourAtLeast(DayRows(rows, days[k]), th).Some?
  {
    var group := DayRows(rows, days[k]);
    assert days[k] in days;
    var i :| 0 <= i < |rows| && DayOf(rows[i].hour) == days[k];
    assert rows[i] in group;
    GroupReaches(group, th);
  }

  lemma GroupReaches(group: seq<FT.Row>, th: real)
    requires |group| > 0 && MaxTotal(group) as real >= th
    ensures FirstHourAtLeast(group, th).Some? && LastHourAtLeast(group, th).Some?
  {
    var j :| 0 <= j < |group| && group[j].total == MaxTotal(group);
    assert FirstReachingIndex(group, th) <= j;
    assert LastReachingIndex(group, th) >= j;
  }

  /** Some day is active exactly when some hour has at least 100 tweets:
      the busiest hour always reaches `0.2 * peak`. */
  lemma SomeDayActiveIffBusy(rows: seq<FT.Row>)
    requires HoursIncreasing(rows) && |rows| > 0
    ensures var th := Threshold(rows);
            var days := Days(rows);
            var active := Active(DayPeaks(rows, days), th);
            FirstAt(active, 0, true) < |days| <==> exists i :: 0 <= i < |rows| && rows[i].total >= 100
  {
    if exists i :: 0 <= i < |rows| && rows[i].total >= 100 {
      var i :| 0 <= i < |rows| && rows[i].total >= 100;
      BusyDayActive(rows, i);
    }
    ActiveDayBusy(rows);
  }

  /** An hour with 100 tweets makes the day of the busiest hour active. */
  lemma BusyDayActive(rows: seq<FT.Row>, i: nat)
    requires HoursIncreasing(rows) && i < |rows| && rows[i].total >= 100
    ensures FirstAt(Active(DayPeaks(rows, Days(rows)), Threshold(rows)), 0, true) < |Days(rows)|
  {
    var th := Threshold(rows);
    var p := BusiestReaches(rows, i);
    var days := Days(rows);
    var k := DayPosition(rows, p);
    RowWithinPeak(rows, days, k, p);
    assert Active(DayPeaks(rows, days), th)[k];
  }

  /** The busiest hour of a table with an hour of 100 tweets reaches the
      threshold. */
  lemma BusiestReaches(rows: seq<FT.Row>, i: nat) returns (p: nat)
    requires i < |rows| && rows[i].total >= 100
    ensures p < |rows| && rows[p].total as real >= Threshold(rows)
  {
    p :| 0 <= p < |rows| && rows[p].total == MaxTotal(rows);
  }

  /** The position of a row's day among the days. */
  lemma DayPosition(rows: seq<FT.Row>, p: nat) returns (k: nat)
    requires HoursIncreasing(rows) && p < |rows|
    ensures k < |Days(rows)| && Days(rows)[k] == DayOf(rows[p].hour)
  {
    var days := Days(rows);
    assert DayOf(rows[p].hour) in days;
    k :| 0 <= k < |days| && days[k] == DayOf(rows[p].hour);
  }

  /** An active day has an hour with at least the threshold, so at least
      100, tweets. */
  lemma ActiveDayBusy(rows: seq<FT.Row>)
    requires HoursIncreasing(rows)
    ensures var th := Threshold(rows);
            var days := Days(rows);
            FirstAt(Active(DayPeaks(rows, days), th), 0, true) < |days| ==>
              exists i :: 0 <= i < |rows| && rows[i].total >= 100
  {
    var th := Threshold(rows);
    var days := Days(rows);
    var s := FirstAt(Active(DayPeaks(rows, days), th), 0, true);
    if s < |days| {
      var group := DayRows(rows, days[s]);
      ActiveDayReaches(rows, days, th, s);
      var j := FirstReachingIndex(group, th);
      assert group[j] in group;
      assert group[j] in rows;
    }
  }

  /** No window is reported exactly when no hour reaches 100 tweets. */
  lemma QuietIffNoWindow(rows: seq<FT.Row>)
    requires HoursIncreasing(rows) && |rows| > 0
    ensures WindowOf(rows) == Ok(Bounds(None, None)) <==> forall i :: 0 <= i < |rows| ==> rows[i].total < 100
  {
    SomeDayActiveIffBusy(rows);
    var th := Threshold(rows);
    var days := Days(rows);
    var active := Active(DayPeaks(rows, days), th);
    var s := FirstAt(active, 0, true);
    if s < |days| {
      ActiveDayReaches(rows, days, th, s);
    }
    assert WindowOf(rows) == WindowFrom(rows, th, days, active);
    WindowFromNone(rows, th, days, active);
  }

  /** The window has neither end exactly when no day is active, provided
      the first active day has an hour reaching the threshold. */
  lemma WindowFromNone(rows: seq<FT.Row>, th: real, days: seq<int>, active: seq<bool>)
    requires HoursIncreasing(rows) && StrictlyIncreasing(days) && |active| == |days|
    requires var s := FirstAt(active, 0, true);
             s < |days| ==> FirstHourAtLeast(DayRows(rows, days[s]), th).Some?
    ensures WindowFrom(rows, th, days, active) == Ok(Bounds(None, None)) <==> FirstAt(active, 0, true) == |days|
  {
    SpanByPositions(days, active);
    SpanStartsAtFirst(days, active);
  }

  /** A span starts at the first active day and ends on an active day. */
  lemma SpanStartsAtFirst(days: seq<int>, active: seq<bool>)
    requires StrictlyIncreasing(days) && |active| == |days|
    ensures var span := ActiveSpan(days, active);
            span.Ok? && span.value.Some? ==>
              span.value.value.0 == FirstAt(active, 0, true) && active[span.value.value.1]
  {
  }

  /** When the activity never falls back below the threshold, detection
      raises KeyError. */
  lemma NeverSubsidingRaises(rows: seq<FT.Row>)
    requires HoursIncreasing(rows) && |rows| > 0
    requires var th := Threshold(rows);
             var days := Days(rows);
             var active := Active(DayPeaks(rows, days), th);
             var s := FirstAt(active, 0, true);
             s < |days| && forall k :: s <= k < |days| ==> active[k]
    ensures WindowOf(rows) == Err(KeyError)
  {
    var th := Threshold(rows);
    var days := Days(rows);
    var active := Active(DayPeaks(rows, days), th);
    var s := FirstAt(active, 0, true);
    var e := FirstAt(active, s + 1, false);
    assert e == |days|;
    SpanByPositions(days, active);
    assert WindowOf(rows) == WindowFrom(rows, th, days, active);
  }

  /** On an index without gaps the days are consecutive. */
  predicate ConsecutiveHours(rows: seq<FT.Row>) {
    forall i :: 0 < i < |rows| ==> rows[i].hour == rows[i - 1].hour + 1
  }

  lemma {:induction false} ConsecutiveDays(rows: seq<FT.Row>)
    requires HoursIncreasing(rows) && ConsecutiveHours(rows)
    ensures forall k :: 0 < k < |Days(rows)| ==> Days(rows)[k] == Days(rows)[k - 1] + 1
  {
    if |rows| > 1 {
      var rest := rows[1..];
      assert ConsecutiveHours(rest) by {
        forall i | 0 < i < |rest| ensures rest[i].hour == rest[i - 1].hour + 1 {
          assert rest[i] == rows[i + 1] && rest[i - 1] == rows[i];
        }
      }
      ConsecutiveDays(rest);
      assert DayOf(rows[1].hour) == DayOf(rows[0].hour) || DayOf(rows[1].hour) == DayOf(rows[0].hour) + 1;
    }
  }

  /** The dense table of `FirestormTweets` has no gaps, so the only error of
      detection on it is the firestorm that never subsides. */
  lemma DenseTableRaisesOnlyWhenNeverSubsiding(ts: seq<Filters.Tweet>, g: FT.Grouping, rows: seq<FT.Row>)
    requires |ts| > 0 && FT.Indexed(ts, g, rows)
    ensures HoursIncreasing(rows)
    ensures var th := Threshold(rows);
            var days := Days(rows);
            var active := Active(DayPeaks(rows, days), th);
            var s := FirstAt(active, 0, true);
            WindowOf(rows).Err? <==> s < |days| && FirstAt(active, s + 1, false) == |days|
  {
    DenseTableConsecutive(ts, g, rows);
    GaplessRaisesOnlyWhenNeverSubsiding(rows);
  }

  lemma DenseTableConsecutive(ts: seq<Filters.Tweet>, g: FT.Grouping, rows: seq<FT.Row>)
    requires |ts| > 0 && FT.Indexed(ts, g, rows)
    ensures |rows| > 0 && HoursIncreasing(rows) && ConsecutiveHours(rows)
  {
  }

  /** On consecutive hours a window fails only when the activity never
      subsides. */
  lemma GaplessRaisesOnlyWhenNeverSubsiding(rows: seq<FT.Row>)
    requires |rows| > 0 && HoursIncreasing(rows) && ConsecutiveHours(rows)
    ensures var th := Threshold(rows);
            var days := Days(rows);
            var active := Active(DayPeaks(rows, days), th);
            var s := FirstAt(active, 0, true);
            WindowOf(rows).Err? <==> s < |days| && FirstAt(active, s + 1, false) == |days|
  {
    ConsecutiveDays(rows);
    var th := Threshold(rows);
    var days := Days(rows);
    var active := Active(DayPeaks(rows, days), th);
    assert WindowOf(rows) == WindowFrom(rows, th, days, active);
    GaplessSpan(days, active);
  }

  /** On consecutive days the span fails only when the run of active days
      reaches the last day. */
  lemma GaplessSpan(days: seq<int>, active: seq<bool>)
    requires StrictlyIncreasing(days) && |active| == |days|
    requires forall k :: 0 < k < |days| ==> days[k] == days[k - 1] + 1
    ensures var s := FirstAt(active, 0, true);
            ActiveSpan(days, active).Err? <==> s < |days| && FirstAt(active, s + 1, false) == |days|
  {
    SpanByPositions(days, active);
    var s := FirstAt(active, 0, true);
    if s < |days| {
      var e := FirstAt(active, s + 1, false);
      if e < |days| {
        assert days[e] - 1 == days[e - 1];
        assert days[e] - 1 in days;
        SpanFromDays(days, active, s, e);
      }
    }
  }

  /** The day before the first inactive day, when it has rows, is the last
      active day of the run. */
  lemma EndDayActive(days: seq<int>, active: seq<bool>, s: nat, e: nat)
    requires StrictlyIncreasing(days) && |active| == |days|
    requires s == FirstAt(active, 0, true) < |days|
    requires e == FirstAt(active, s + 1, false) < |days| && days[e] - 1 in days
    ensures s < e && days[e] - 1 == days[e - 1] && active[e - 1]
  {
    var m :| 0 <= m < |days| && days[m] == days[e] - 1;
  }

  /** No hour before the window's start reaches the threshold: earlier days
      are inactive and earlier hours of the start day stay below it. */
  lemma NothingBeforeStart(rows: seq<FT.Row>, th: real, days: seq<int>, s: nat, x: nat)
    requires HoursIncreasing(rows) && days == Days(rows)
    requires s == FirstAt(Active(DayPeaks(rows, days), th), 0, true) < |days|
    requires x < |rows|
    requires FirstHourAtLeast(DayRows(rows, days[s]), th).Some?
    requires rows[x].hour < FirstHourAtLeast(DayRows(rows, days[s]), th).value
    ensures rows[x].total as real < th
  {
    var group := DayRows(rows, days[s]);
    var k := FirstReachingIndex(group, th);
    assert group[k] in group;
    var d := DayOf(rows[x].hour);
    DayMonotone(rows[x].hour, group[k].hour);
    assert d in days;
    var m :| 0 <= m < |days| && days[m] == d;
    if m < s {
      RowWithinPeak(rows, days, m, x);
    } else {
      PositionOrder(days, m, s);
      assert rows[x] in group;
      DayRowsIncreasing(rows, days[s]);
      BeforeFirstInGroup(group, th, rows[x]);
    }
  }

  /** Within one day, rows before the first one reaching the threshold stay
      below it. */
  lemma BeforeFirstInGroup(group: seq<FT.Row>, th: real, y: FT.Row)
    requires HoursIncreasing(group) && FirstReachingIndex(group, th) < |group|
    requires y in group && y.hour < group[FirstReachingIndex(group, th)].hour
    ensures y.total as real < th
  {
    var q :| 0 <= q < |group| && group[q] == y;
  }

  /** A reported window is a proper half-open range of hours: it starts at
      the first hour of the whole table that reaches the threshold, and the
      hour before its end reaches it too. */
  lemma WindowShape(rows: seq<FT.Row>)
    requires HoursIncreasing(rows)
    requires WindowOf(rows).Ok? && WindowOf(rows).value.start.Some?
    ensures var b := WindowOf(rows).value;
            var th := Threshold(rows);
            && b.end.Some? && b.start.value < b.end.value
            && (exists i :: 0 <= i < |rows| && rows[i].hour == b.start.value && rows[i].total as real >= th)
            && (exists i :: 0 <= i < |rows| && rows[i].hour == b.end.value - 1 && rows[i].total as real >= th)
            && (forall i :: 0 <= i < |rows| && rows[i].hour < b.start.value ==> rows[i].total as real < th)
  {
    var th := Threshold(rows);
    var days := Days(rows);
    var active := Active(DayPeaks(rows, days), th);
    assert WindowOf(rows) == WindowFrom(rows, th, days, active);
    var span := ActiveSpan(days, active);
    assert span.Ok? && span.value.Some?;
    SpanStartsAtFirst(days, active);
    var (s, t) := span.value.value;
    ShapeFromDays(rows, th, days, s, t);
  }

  /** The shape of the window spanning the active days `days[s]` to
      `days[t]`, the first of them being the first active day. */
  lemma ShapeFromDays(rows: seq<FT.Row>, th: real, days: seq<int>, s: nat, t: nat)
    requires HoursIncreasing(rows) && days == Days(rows)
    requires s == FirstAt(Active(DayPeaks(rows, days), th), 0, true) && s <= t < |days|
    requires Active(DayPeaks(rows, days), th)[t]
    ensures var first := FirstHourAtLeast(DayRows(rows, days[s]), th);
            var last := LastHourAtLeast(DayRows(rows, days[t]), th);
            && first.Some? && last.Some? && first.value <= last.value
            && (exists i :: 0 <= i < |rows| && rows[i].hour == first.value && rows[i].total as real >= th)
            && (exists i :: 0 <= i < |rows| && rows[i].hour == last.value && rows[i].total as real >= th)
            && (forall i :: 0 <= i < |rows| && rows[i].hour < first.value ==> rows[i].total as real < th)
  {
    ActiveDayReaches(rows, days, th, s);
    ActiveDayReaches(rows, days, th, t);
    assert days[s] <= days[t] by {
      assert StrictlyIncreasing(days);
      if s < t {
        assert days[s] < days[t];
      }
    }
    FirstNotAfterLast(rows, th, days[s], days[t]);
    ReachedHourInRows(rows, th, days[s]);
    ReachedHourInRows(rows, th, days[t]);
    var first := FirstHourAtLeast(DayRows(rows, days[s]), th);
    forall i | 0 <= i < |rows| && rows[i].hour < first.value
      ensures rows[i].total as real < th
    {
      NothingBeforeStart(rows, th, days, s, i);
    }
  }

  /** The first hour of one day reaching the threshold is not after the
      last such hour of the same or a later day. */
  lemma FirstNotAfterLast(rows: seq<FT.Row>, th: real, d1: int, d2: int)
    requires HoursIncreasing(rows) && d1 <= d2
    requires FirstHourAtLeast(DayRows(rows, d1), th).Some?
    requires LastHourAtLeast(DayRows(rows, d2), th).Some?
    ensures FirstHourAtLeast(DayRows(rows, d1), th).value <= LastHourAtLeast(DayRows(rows, d2), th).value
  {
    var g1 := DayRows(rows, d1);
    var g2 := DayRows(rows, d2);
    var k1 := FirstReachingIndex(g1, th);
    var k2 := LastReachingIndex(g2, th);
    assert g1[k1] in g1 && g2[k2] in g2;
    if d1 == d2 {
      DayRowsIncreasing(rows, d1);
      assert k1 <= k2;
    } else if g1[k1].hour > g2[k2].hour {
      DayMonotone(g2[k2].hour, g1[k1].hour);
    }
  }

  /** The first and the last hour of a day reaching the threshold are hours
      of the table whose totals reach it. */
  lemma ReachedHourInRows(rows: seq<FT.Row>, th: real, d: int)
    requires HoursIncreasing(rows)
    ensures var f := FirstHourAtLeast(DayRows(rows, d), th);
            f.Some? ==> exists i :: 0 <= i < |rows| && rows[i].hour == f.value && rows[i].total as real >= th
    ensures var l := LastHourAtLeast(DayRows(rows, d), th);
            l.Some? ==> exists i :: 0 <= i < |rows| && rows[i].hour == l.value && rows[i].total as real >= th
  {
    var g := DayRows(rows, d);
    var k1 := FirstReachingIndex(g, th);
    var k2 := LastReachingIndex(g, th);
    if k1 < |g| {
      assert g[k1] in rows;
      var i :| 0 <= i < |rows| && rows[i] == g[k1];
    }
    if k2 >= 0 {
      assert g[k2] in rows;
      var i :| 0 <= i < |rows| && rows[i] == g[k2];
    }
  }
}
