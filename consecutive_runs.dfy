/** The run grouping and the above-threshold selection of
    src/hypotheses_testing/descriptive_stats.py. */
module ConsecutiveRuns {
  import opened Wrappers
  import opened Ordering

  /** Each element is its predecessor plus one. */
  predicate Consecutive(g: seq<int>) {
    forall i :: 0 < i < |g| ==> g[i] == g[i - 1] + 1
  }

  /** The groups one after another. */
  function Concat(gs: seq<seq<int>>): seq<int> {
    if |gs| == 0 then [] else Concat(gs[..|gs| - 1]) + gs[|gs| - 1]
  }

  function Last(g: seq<int>): int
    requires |g| > 0
  {
    g[|g| - 1]
  }

  /** Non-empty consecutive groups, none of which continues into the next:
      the groups are maximal. */
  predicate AreRuns(gs: seq<seq<int>>) {
    && (forall k :: 0 <= k < |gs| ==> |gs[k]| > 0 && Consecutive(gs[k]))
    && (forall k :: 0 < k < |gs| ==> |gs[k - 1]| > 0 && |gs[k]| > 0 ==> Last(gs[k - 1]) + 1 != gs[k][0])
  }

  /** The groups of a result that holds no `None`. */
  function Groups(r: seq<Option<seq<int>>>): (gs: seq<seq<int>>)
    requires forall k :: 0 <= k < |r| ==> r[k].Some?
    ensures |gs| == |r| && forall k :: 0 <= k < |r| ==> gs[k] == r[k].value
  {
    seq(|r|, k requires 0 <= k < |r| => r[k].value)
  }

  /** The runs of a non-empty sequence, built element by element: an
      element one above the end of the current run extends it, any other
      element starts a new run. */
  function RunsOf(s: seq<int>): (gs: seq<seq<int>>)
    requires |s| > 0
    ensures |gs| > 0 && |gs[|gs| - 1]| > 0
  {
    if |s| == 1 then [[s[0]]]
    else
      var prev := RunsOf(s[..|s| - 1]);
      var cur := prev[|prev| - 1];
      var x := s[|s| - 1];
      if Last(cur) == x - 1 then prev[..|prev| - 1] + [cur + [x]] else prev + [[x]]
  }

  /** The runs are maximal runs of consecutive integers that together
      give back the sequence; the last run ends with the last element. */
  lemma {:induction false} RunsOfSplit(s: seq<int>)
    requires |s| > 0
    ensures var gs := RunsOf(s);
            AreRuns(gs) && Concat(gs) == s && Last(gs[|gs| - 1]) == s[|s| - 1]
  {
    if |s| > 1 {
      var init, x := s[..|s| - 1], s[|s| - 1];
      assert s == init + [x];
      RunsOfSplit(init);
      var prev := RunsOf(init);
      assert RunsOf(s) == if Last(prev[|prev| - 1]) == x - 1 then prev[..|prev| - 1] + [prev[|prev| - 1] + [x]] else prev + [[x]];
      RunsAppend(prev, init, x);
    } else {
      assert Concat([[s[0]]]) == Concat([]) + [s[0]];
    }
  }

  /** One more element after the runs of `init`: it extends the last run
      when it is one above that run's end, and starts a new run otherwise. */
  lemma RunsAppend(prev: seq<seq<int>>, init: seq<int>, x: int)
    requires |prev| > 0 && |init| > 0 && AreRuns(prev) && Concat(prev) == init
    requires Last(prev[|prev| - 1]) == init[|init| - 1]
    ensures var cur := prev[|prev| - 1];
            var gs := if Last(cur) == x - 1 then prev[..|prev| - 1] + [cur + [x]] else prev + [[x]];
            AreRuns(gs) && Concat(gs) == init + [x] && Last(gs[|gs| - 1]) == x
  {
    var cur := prev[|prev| - 1];
    var before := prev[..|prev| - 1];
    if Last(cur) == x - 1 {
      assert prev == before + [cur];
      ExtendRun(cur, x);
      AreRunsInit(prev);
      CloseRun(before, cur + [x]);
    } else {
      CloseRun(prev, [x]);
    }
  }

  /** The runs before the last one are runs, and the last continues none
      of them. */
  lemma AreRunsInit(gs: seq<seq<int>>)
    requires AreRuns(gs) && |gs| > 0
    ensures var before := gs[..|gs| - 1];
            && AreRuns(before) && Concat(gs) == Concat(before) + gs[|gs| - 1]
            && (|before| > 0 ==> Last(before[|before| - 1]) + 1 != gs[|gs| - 1][0])
  {
    var before := gs[..|gs| - 1];
    forall k | 0 <= k < |before| ensures before[k] == gs[k] { }
  }

  /** `_group_consecutive_numbers(input)`: the input cut into its maximal
      runs of consecutive integers, in order. An empty input leaves
      `new_list` at `None`, which is appended: the result is `[None]`. */
  method GroupConsecutiveNumbers(input: seq<int>) returns (r: seq<Option<seq<int>>>)
    ensures |input| == 0 ==> r == [None]
    ensures |input| > 0 ==> (forall k :: 0 <= k < |r| ==> r[k].Some?) && Groups(r) == RunsOf(input)
  {
    var consecutives: seq<seq<int>> := [];
    var newList: Option<seq<int>> := None;
    for i := 0 to |input|
      invariant newList.None? <==> i == 0
      invariant newList.None? ==> consecutives == []
      invariant newList.Some? ==> consecutives + [newList.value] == RunsOf(input[..i])
    {
      var entry := input[i];
      assert input[..i + 1][..i] == input[..i];
      if newList.None? {
        newList := Some([entry]);
      } else if newList.value[|newList.value| - 1] == entry - 1 {
        newList := Some(newList.value + [entry]);
      } else {
        consecutives := consecutives + [newList.value];
        newList := Some([entry]);
      }
    }
    assert input[..|input|] == input;
    if newList.None? {
      return [None];
    }
    var all := consecutives + [newList.value];
    r := seq(|all|, k requires 0 <= k < |all| => Some(all[k]));
    assert Groups(r) == all;
  }

  /** A run extended by the next integer is still a run. */
  lemma ExtendRun(g: seq<int>, entry: int)
    requires |g| > 0 && Consecutive(g) && Last(g) == entry - 1
    ensures Consecutive(g + [entry]) && Last(g + [entry]) == entry
  {
  }

  /** A finished run appended to the earlier ones. */
  lemma CloseRun(gs: seq<seq<int>>, g: seq<int>)
    requires AreRuns(gs) && |g| > 0 && Consecutive(g)
    requires |gs| > 0 ==> Last(gs[|gs| - 1]) + 1 != g[0]
    ensures AreRuns(gs + [g]) && Concat(gs + [g]) == Concat(gs) + g
  {
    var hs := gs + [g];
    assert hs[..|gs|] == gs;
    forall k | 0 <= k < |hs|
      ensures |hs[k]| > 0 && Consecutive(hs[k])
    {
      if k < |gs| {
        assert hs[k] == gs[k];
      }
    }
    forall k | 0 < k < |hs|
      ensures |hs[k - 1]| > 0 && |hs[k]| > 0 ==> Last(hs[k - 1]) + 1 != hs[k][0]
    {
      if k < |gs| {
        assert hs[k] == gs[k] && hs[k - 1] == gs[k - 1];
      }
    }
  }

  /** `[x for (x, y) in zip(ts.x, ts.y) if y >= 0.2]`: the positions whose
      value reaches 0.2, in order; `zip` stops at the shorter list. */
  function AboveThreshold(xs: seq<int>, ys: seq<real>): (r: seq<int>)
    ensures |r| <= |xs| && |r| <= |ys|
    ensures forall v :: v in r <==> exists i :: 0 <= i < |xs| && i < |ys| && xs[i] == v && ys[i] >= 0.2
  {
    if |xs| == 0 || |ys| == 0 then []
    else
      var rest := AboveThreshold(xs[1..], ys[1..]);
      assert forall i :: 1 <= i < |xs| && i < |ys| ==> xs[1..][i - 1] == xs[i] && ys[1..][i - 1] == ys[i];
      (if ys[0] >= 0.2 then [xs[0]] else []) + rest
  }

  /** Over ascending positions the selection is ascending too, so its
      groups are the stretches where the series stays at or above 0.2. */
  lemma {:induction false} AboveThresholdAscending(xs: seq<int>, ys: seq<real>)
    requires StrictlyIncreasing(xs)
    ensures StrictlyIncreasing(AboveThreshold(xs, ys))
  {
    if |xs| > 0 && |ys| > 0 {
      AboveThresholdAscending(xs[1..], ys[1..]);
      var rest := AboveThreshold(xs[1..], ys[1..]);
      forall v | v in rest ensures xs[0] < v {
        var i :| 0 <= i < |xs[1..]| && i < |ys[1..]| && xs[1..][i] == v && ys[1..][i] >= 0.2;
        assert xs[1..][i] == xs[i + 1];
      }
      var r := AboveThreshold(xs, ys);
      if ys[0] >= 0.2 {
        assert r == [xs[0]] + rest;
        forall i, j | 0 <= i < j < |r| ensures r[i] < r[j] {
          assert r[j] == rest[j - 1] && rest[j - 1] in rest;
          if i > 0 {
            assert r[i] == rest[i - 1] && rest[i - 1] < rest[j - 1];
          }
        }
      } else {
        assert r == rest;
      }
    }
  }
}
