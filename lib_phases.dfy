/** The `TweetsInPhases` class of lib/twitter_data/tweets_in_phases.py.

    A firestorm is split into phases at change points of its hourly table.
    The change-point search itself (`ruptures`' Pelt on five rate columns)
    is not modelled: its answer is a parameter, constrained to what Pelt
    returns for a table of `n` rows. Breakpoints and phase bounds are hour
    ordinals; a phase holds the tweets whose `hour` lies in a half-open
    range of hours. */
module LibPhases {
  import opened Filters
  import DateTimes
  import LT = LibTweets
  import opened Ordering

  /** What Pelt returns for a signal of `n` rows: strictly increasing
      positions in `1..n`, the last one always `n`. */
  predicate IsChangePoints(result: seq<int>, n: int) {
    && |result| > 0
    && result[|result| - 1] == n
    && (forall i :: 0 <= i < |result| ==> 1 <= result[i] <= n)
    && StrictlyIncreasing(result)
  }

  /** A frame as the lib `Tweets` constructor leaves it. */
  ghost predicate Built(f: LT.LibFrame) {
    LT.IsSparseTable(f.tweets, LT.DefaultSpecs, f.langLevels, f.hourwise)
  }

  /** `get_breakpoints`: each change point `x` names the index entry at
      position `x - 1`; the last one is therefore the last hour. */
  function BreakpointHours(index: seq<int>, result: seq<int>): (r: seq<int>)
    requires IsChangePoints(result, |index|)
    ensures |r| == |result|
    ensures StrictlyIncreasing(index) ==> StrictlyIncreasing(r) && r[|r| - 1] == index[|index| - 1]
    ensures forall i :: 0 <= i < |r| ==> r[i] in index
  {
    seq(|result|, i requires 0 <= i < |result| => index[result[i] - 1])
  }

  /** `tweets["hour"].min()`. */
  function MinHour(ts: seq<Tweet>): (h: int)
    requires |ts| > 0
    ensures exists t :: t in ts && t.hour == h
    ensures forall t :: t in ts ==> h <= t.hour
  {
    var hours := LT.SortedHours(ts);
    assert ts[0].hour in hours;
    assert hours[0] in hours;
    forall t | t in ts ensures hours[0] <= t.hour {
      assert t.hour in hours;
      var i :| 0 <= i < |hours| && hours[i] == t.hour;
    }
    hours[0]
  }

  /** `tweets["hour"].max()`. */
  function MaxHour(ts: seq<Tweet>): (h: int)
    requires |ts| > 0
    ensures exists t :: t in ts && t.hour == h
    ensures forall t :: t in ts ==> t.hour <= h
  {
    var hours := LT.SortedHours(ts);
    assert ts[0].hour in hours;
    assert hours[|hours| - 1] in hours;
    forall t | t in ts ensures t.hour <= hours[|hours| - 1] {
      assert t.hour in hours;
      var i :| 0 <= i < |hours| && hours[i] == t.hour;
    }
    hours[|hours| - 1]
  }

  /** Scaling hour ordinals to microseconds keeps their order. */
  lemma HourScale(a: int, b: int)
    ensures a * DateTimes.MicrosPerHour <= b * DateTimes.MicrosPerHour <==> a <= b
    ensures a * DateTimes.MicrosPerHour < b * DateTimes.MicrosPerHour <==> a < b
  {
    assert b * DateTimes.MicrosPerHour - a * DateTimes.MicrosPerHour == (b - a) * DateTimes.MicrosPerHour;
  }

  /** `select_tweets_in_time_range(lo, hi, "hour")` with both bounds hour
      timestamps: the tweets whose hour lies in `[lo, hi)`, in order. */
  function Phase(ts: seq<Tweet>, lo: int, hi: int): (r: seq<Tweet>)
    ensures forall t :: t in r <==> t in ts && lo <= t.hour < hi
    ensures IsSubsequence(r, ts)
  {
    var r := LT.SelectTimeRange(ts, LT.HourVar, lo * DateTimes.MicrosPerHour, hi * DateTimes.MicrosPerHour);
    assert forall t :: t in r <==> t in ts && lo <= t.hour < hi by {
      forall t: Tweet | t in r || t in ts
        ensures t in r <==> t in ts && lo <= t.hour < hi
      {
        HourScale(lo, t.hour);
        HourScale(t.hour, hi);
      }
    }
    r
  }

  /** The phase bounds: the first hour, the inner breakpoints, the last
      hour. */
  function Wrapped(first: int, inner: seq<int>, last: int): (w: seq<int>)
    ensures |w| == |inner| + 2 && w[0] == first && w[|w| - 1] == last
    ensures forall i :: 0 <= i < |inner| ==> w[i + 1] == inner[i]
  {
    [first] + inner + [last]
  }

  /** With Pelt's positions, the bounds never go down: the inner
      breakpoints are distinct hours of the index, each before the last. */
  lemma WrappedOrdered(index: seq<int>, result: seq<int>)
    requires StrictlyIncreasing(index)
    requires IsChangePoints(result, |index|)
    ensures var bps := BreakpointHours(index, result);
            NonDecreasing(Wrapped(index[0], bps[..|bps| - 1], index[|index| - 1]))
  {
    var bps := BreakpointHours(index, result);
    var inner := bps[..|bps| - 1];
    var w := Wrapped(index[0], inner, index[|index| - 1]);
    forall i | 0 <= i < |inner|
      ensures index[0] <= inner[i] < index[|index| - 1]
    {
      assert result[i] < result[|result| - 1];
      if result[i] - 1 > 0 {
        assert index[0] < index[result[i] - 1];
      }
    }
    forall i, j | 0 <= i < j < |w| ensures w[i] <= w[j] {
      if 0 < i && j < |w| - 1 {
        assert w[i] == inner[i - 1] && w[j] == inner[j - 1];
      }
    }
  }

  /** Phases over non-decreasing bounds never share a tweet. */
  lemma PhasesDisjoint(ts: seq<Tweet>, w: seq<int>, i: int, j: int)
    requires NonDecreasing(w)
    requires 0 <= i < j < |w| - 1
    ensures var early := Phase(ts, w[i], w[i + 1]);
            var late := Phase(ts, w[j], w[j + 1]);
            forall t :: t in early ==> t !in late
  {
    assert w[i + 1] <= w[j];
  }

  /** An hour between the first and the last bound falls in some segment. */
  lemma {:induction false} SegmentOf(w: seq<int>, x: int) returns (i: int)
    requires |w| >= 2 && NonDecreasing(w)
    requires w[0] <= x < w[|w| - 1]
    ensures 0 <= i < |w| - 1 && w[i] <= x < w[i + 1]
  {
    if x < w[|w| - 2] {
      i := SegmentOf(w[..|w| - 1], x);
    } else {
      i := |w| - 2;
    }
  }

  /** A tweet is in some phase exactly when its hour lies between the first
      and the last bound. */
  lemma PhasesCover(ts: seq<Tweet>, w: seq<int>)
    requires |w| >= 2 && NonDecreasing(w)
    ensures forall t :: (exists i :: 0 <= i < |w| - 1 && t in Phase(ts, w[i], w[i + 1]))
                        <==> t in ts && w[0] <= t.hour < w[|w| - 1]
  {
    forall t | t in ts && w[0] <= t.hour < w[|w| - 1]
      ensures exists i :: 0 <= i < |w| - 1 && t in Phase(ts, w[i], w[i + 1])
    {
      var i := SegmentOf(w, t.hour);
      assert t in Phase(ts, w[i], w[i + 1]);
    }
    forall t, i | 0 <= i < |w| - 1 && t in Phase(ts, w[i], w[i + 1])
      ensures w[0] <= t.hour < w[|w| - 1]
    {
      assert w[0] <= w[i] && w[i + 1] <= w[|w| - 1];
    }
  }

  /** The sizes of the first `k` phases: together they hold as many tweets
      as the range from the first to the `k`-th bound. */
  function PhaseSizes(ts: seq<Tweet>, w: seq<int>, k: nat): (r: nat)
    requires k < |w|
    ensures NonDecreasing(w) && k > 0 ==> r == |Phase(ts, w[0], w[k])|
  {
    if k == 0 then 0
    else if k == 1 then |Phase(ts, w[0], w[1])|
    else
      AdjacentWhenOrdered(ts, w, k);
      PhaseSizes(ts, w, k - 1) + |Phase(ts, w[k - 1], w[k])|
  }

  /** With ordered bounds, the range up to the `k-1`-th bound and the `k`-th
      phase make up the range up to the `k`-th bound. */
  lemma AdjacentWhenOrdered(ts: seq<Tweet>, w: seq<int>, k: nat)
    requires 1 < k < |w|
    ensures NonDecreasing(w) ==> |Phase(ts, w[0], w[k - 1])| + |Phase(ts, w[k - 1], w[k])| == |Phase(ts, w[0], w[k])|
  {
    if NonDecreasing(w) {
      PhaseAdjacent(ts, w[0], w[k - 1], w[k]);
    }
  }

  /** Adjacent hour ranges split the range they make up. */
  lemma PhaseAdjacent(ts: seq<Tweet>, a: int, b: int, c: int)
    requires a <= b <= c
    ensures |Phase(ts, a, b)| + |Phase(ts, b, c)| == |Phase(ts, a, c)|
  {
    HourScale(a, b);
    HourScale(b, c);
    LT.SelectAdjacent(ts, LT.HourVar, a * DateTimes.MicrosPerHour, b * DateTimes.MicrosPerHour,
                      c * DateTimes.MicrosPerHour);
  }

  /** A tweet of the last hour lies in no phase: every range stops before
      the last bound, which is that hour. */
  lemma LastHourInNoPhase(ts: seq<Tweet>, w: seq<int>, t: Tweet)
    requires |w| >= 2 && NonDecreasing(w)
    requires t in ts && t.hour == w[|w| - 1]
    ensures forall i :: 0 <= i < |w| - 1 ==> t !in Phase(ts, w[i], w[i + 1])
  {
    forall i | 0 <= i < |w| - 1 ensures t !in Phase(ts, w[i], w[i + 1]) {
      assert w[i + 1] <= w[|w| - 1];
    }
  }

  /** The bounds with the last hour included: the final range ends one hour
      after the last hour. */
  function WrappedThroughLast(first: int, inner: seq<int>, last: int): (w: seq<int>)
    ensures |w| == |inner| + 2 && w[0] == first && w[|w| - 1] == last + 1
    ensures forall i :: 0 <= i < |inner| ==> w[i + 1] == inner[i]
  {
    Wrapped(first, inner, last + 1)
  }

  /** With the last range closed on the right, every tweet is in exactly one
      phase and the phase sizes add up to the frame's length. */
  lemma PhasesThroughLastPartition(ts: seq<Tweet>, index: seq<int>, result: seq<int>)
    requires |ts| > 0 && index == LT.SortedHours(ts)
    requires IsChangePoints(result, |index|)
    ensures var bps := BreakpointHours(index, result);
            var w := WrappedThroughLast(MinHour(ts), bps[..|bps| - 1], MaxHour(ts));
            && (forall t :: t in ts ==> exists i :: 0 <= i < |w| - 1 && t in Phase(ts, w[i], w[i + 1]))
            && PhaseSizes(ts, w, |w| - 1) == |ts|
  {
    var bps := BreakpointHours(index, result);
    var inner := bps[..|bps| - 1];
    var w := WrappedThroughLast(MinHour(ts), inner, MaxHour(ts));
    WrappedOrdered(index, result);
    IndexEnds(ts);
    ThroughLastOrdered(MinHour(ts), inner, MaxHour(ts));
    assert PhaseSizes(ts, w, |w| - 1) == |Phase(ts, w[0], w[|w| - 1])|;
    PhasesCover(ts, w);
    forall t | t in ts
      ensures MinHour(ts) * DateTimes.MicrosPerHour <= LT.TimeMicros(t, LT.HourVar) < (MaxHour(ts) + 1) * DateTimes.MicrosPerHour
    {
      HourScale(MinHour(ts), t.hour);
      HourScale(t.hour, MaxHour(ts) + 1);
    }
    LT.SelectEverything(ts, LT.HourVar, MinHour(ts) * DateTimes.MicrosPerHour,
                        (MaxHour(ts) + 1) * DateTimes.MicrosPerHour);
  }

  /** Closing the last range one hour later keeps the bounds in order. */
  lemma ThroughLastOrdered(first: int, inner: seq<int>, last: int)
    requires NonDecreasing(Wrapped(first, inner, last))
    ensures NonDecreasing(WrappedThroughLast(first, inner, last))
  {
    var w0 := Wrapped(first, inner, last);
    var w := WrappedThroughLast(first, inner, last);
    forall i, j | 0 <= i < j < |w| ensures w[i] <= w[j] {
      if j < |w| - 1 {
        assert w[i] == w0[i] && w[j] == w0[j];
      } else {
        assert w[i] <= w0[|w0| - 1] by {
          if i < |w0| - 1 {
            assert w[i] == w0[i];
          }
        }
      }
    }
  }

  /** The ends of the hourly index are the first and the last hour. */
  lemma IndexEnds(ts: seq<Tweet>)
    requires |ts| > 0
    ensures |LT.SortedHours(ts)| > 0
    ensures MinHour(ts) == LT.SortedHours(ts)[0]
    ensures MaxHour(ts) == LT.SortedHours(ts)[|LT.SortedHours(ts)| - 1]
  {
  }

  /** The list comprehension of `_split_tweets_at_breakpoints`: one built
      frame per pair of consecutive bounds. Every phase can be built because
      the language levels that let the whole frame build carry over. */
  method BuildPhases(ts: seq<Tweet>, langLevels: seq<string>, w: seq<int>) returns (r: seq<LT.LibFrame>)
    requires "de" in langLevels && "en" in langLevels
    ensures |r| == if |w| == 0 then 0 else |w| - 1
    ensures forall i :: 0 <= i < |r| ==>
              && r[i].tweets == Phase(ts, w[i], w[i + 1])
              && r[i].langLevels == langLevels
              && Built(r[i])
  {
    r := [];
    if |w| == 0 {
      return;
    }
    for i := 0 to |w| - 1
      invariant |r| == i
      invariant forall c :: 0 <= c < i ==>
                  && r[c].tweets == Phase(ts, w[c], w[c + 1])
                  && r[c].langLevels == langLevels
                  && Built(r[c])
    {
      var sub := Phase(ts, w[i], w[i + 1]);
      LT.DefaultTableRaisesOnlyOnLevels(sub, langLevels);
      var p := LT.NewTweets(sub, langLevels);
      r := r + [p.value];
    }
  }

  /** The change points of a built frame's table index its observed hours,
      and a built frame with change points has tweets. */
  lemma BuiltFrameIndex(frame: LT.LibFrame, changePoints: seq<int>)
    requires Built(frame)
    requires IsChangePoints(changePoints, |frame.hourwise|)
    ensures IsChangePoints(changePoints, |LT.SortedHours(frame.tweets)|)
    ensures |frame.tweets| > 0
  {
    LT.SparseIndexIsObservedHours(frame.tweets, LT.DefaultSpecs, frame.langLevels, frame.hourwise);
    assert LT.RowHours(frame.hourwise) == LT.SortedHours(frame.tweets);
    assert |LT.SortedHours(frame.tweets)| > 0;
  }

  /** A `TweetsInPhases` object: the frame it extends, the breakpoints it
      keeps and its phases. */
  class TweetsInPhases {
    var frame: LT.LibFrame
    var breakpoints: seq<int>
    var phases: seq<LT.LibFrame>

    /** The phase bounds the object splits at. */
    ghost function Bounds(): seq<int>
      reads this`frame, this`breakpoints
      requires |frame.tweets| > 0
    {
      Wrapped(MinHour(frame.tweets), breakpoints, MaxHour(frame.tweets))
    }

    /** `r` are the phases of the frame at the current bounds: built frames
        over the tweets between consecutive bounds, with the frame's
        language levels. */
    ghost predicate SplitInto(r: seq<LT.LibFrame>)
      reads this`frame, this`breakpoints
      requires |frame.tweets| > 0
    {
      var w := Bounds();
      && NonDecreasing(w)
      && |r| == |w| - 1
      && forall i :: 0 <= i < |r| ==>
           && r[i].tweets == Phase(frame.tweets, w[i], w[i + 1])
           && r[i].langLevels == frame.langLevels
           && Built(r[i])
    }

    ghost predicate Valid()
      reads this
    {
      Built(frame) && |frame.tweets| > 0 && SplitInto(phases)
    }

    /** `TweetsInPhases(tweets)` on a built frame and Pelt's answer: the
        split pops the last breakpoint off the very list the `breakpoints`
        property returns, so the object keeps only the inner ones. */
    constructor (frame: LT.LibFrame, changePoints: seq<int>)
      requires Built(frame)
      requires IsChangePoints(changePoints, |frame.hourwise|)
      ensures this.frame == frame
      ensures var bps := BreakpointHours(LT.SortedHours(frame.tweets), changePoints);
              breakpoints == bps[..|bps| - 1]
      ensures |phases| == |changePoints|
      ensures Valid()
    {
      BuiltFrameIndex(frame, changePoints);
      this.frame := frame;
      breakpoints := BreakpointHours(LT.SortedHours(frame.tweets), changePoints);
      phases := [];
      new;
      phases := SplitAtBreakpoints(changePoints);
    }

    /** `_split_tweets_at_breakpoints`: pops the last breakpoint, then selects
        the tweets between each pair of consecutive bounds. */
    method SplitAtBreakpoints(ghost changePoints: seq<int>) returns (r: seq<LT.LibFrame>)
      requires Built(frame) && |frame.tweets| > 0
      requires IsChangePoints(changePoints, |LT.SortedHours(frame.tweets)|)
      requires breakpoints == BreakpointHours(LT.SortedHours(frame.tweets), changePoints)
      modifies this`breakpoints
      ensures breakpoints == old(breakpoints)[..|old(breakpoints)| - 1]
      ensures |r| == |old(breakpoints)|
      ensures SplitInto(r)
    {
      IndexEnds(frame.tweets);
      WrappedOrdered(LT.SortedHours(frame.tweets), changePoints);
      breakpoints := breakpoints[..|breakpoints| - 1];
      var w := Wrapped(MinHour(frame.tweets), breakpoints, MaxHour(frame.tweets));
      assert NonDecreasing(w);
      LT.SparseTableComplete(frame.tweets, LT.DefaultSpecs, frame.langLevels, frame.hourwise);
      LT.DefaultTableRaisesOnlyOnLevels(frame.tweets, frame.langLevels);
      r := BuildPhases(frame.tweets, frame.langLevels, w);
    }

    /** `len(obj)`: the number of phases, one more than the breakpoints
        kept. */
    function Length(): (n: nat)
      reads this
      requires Valid()
      ensures n == |breakpoints| + 1
    {
      |phases|
    }
  }
}
