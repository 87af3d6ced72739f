/** The older `Tweets` class of lib/twitter_data/tweets.py and the range
    selection of lib/preprocessing/preprocess_tweets_df.py.

    Unlike the dense table of `FirestormTweets`, the hourly table here is
    sparse: its index holds only the hours that occur. The `total_tweets`
    column is overwritten with the count divided by the busiest hour's count,
    and a share whose value is missing from `value_counts()` raises instead
    of falling back to zero. */
module LibTweets {
  import opened Wrappers
  import opened PyValues
  import opened Filters
  import DateTimes
  import FT = FirestormTweets
  import opened Ordering

  // ------------------------------------------------------------ ordering


  /** `tweets["hour"].unique()` in ascending order, the order in which
      `groupby("hour")` visits its groups. */
  function SortedHours(ts: seq<Tweet>): (r: seq<int>)
    ensures StrictlyIncreasing(r)
    ensures forall h :: h in r <==> exists t :: t in ts && t.hour == h
  {
    if |ts| == 0 then []
    else
      var init := ts[..|ts| - 1];
      assert forall t :: t in ts <==> t in init || t == ts[|ts| - 1] by {
        assert ts == init + [ts[|ts| - 1]];
      }
      Insert(SortedHours(init), ts[|ts| - 1].hour)
  }

  // ------------------------------------------------------------ rate table

  /** One entry of `to_calculate`. A column named `total_tweets` holds the
      group size whatever its variable and value say. */
  datatype Spec = Spec(name: string, variable: Option<Column>, value: Value)

  predicate IsTotal(s: Spec) {
    s.name == "total_tweets"
  }

  const DefaultSpecs: seq<Spec> := [
    Spec("total_tweets", None, Null),
    Spec("retweet_pct", Some(TweetType), Str("retweet without comment")),
    Spec("original_tweet_pct", Some(TweetType), Str("original tweet")),
    Spec("reply_pct", Some(TweetType), Str("reply")),
    Spec("quoted_pct", Some(TweetType), Str("retweet with comment")),
    Spec("laggards_pct", Some(UserType), Str("laggard")),
    Spec("active_pct", Some(UserType), Str("active")),
    Spec("hyper_active_pct", Some(UserType), Str("hyper-active")),
    Spec("de_pct", Some(Lang), Str("de")),
    Spec("en_pct", Some(Lang), Str("en"))
  ]

  /** Whether `value` is a label of `group[c].value_counts()`: a categorical
      column lists every level, even with count 0 (`langLevels` are the
      levels `astype("category")` gave the language column); any other
      column lists only the values present. */
  predicate InValueCounts(group: seq<Tweet>, c: Column, v: Value, langLevels: seq<string>) {
    if c == TweetType then v.Str? && v.s in FT.TweetTypeLevels
    else if c == UserType then v.Str? && v.s in FT.UserTypeLevels
    else if c == Lang then v.Str? && v.s in langLevels
    else |Apply(Equality(c, v), group)| > 0
  }

  /** The cell of spec `s` raises KeyError for this group: `group[None]` or
      a value missing from `value_counts()`. */
  predicate CellMissing(group: seq<Tweet>, s: Spec, langLevels: seq<string>) {
    !IsTotal(s) && (s.variable.None? || !InValueCounts(group, s.variable.value, s.value, langLevels))
  }

  /** Some hour's group has a cell that raises. */
  predicate HasMissingCell(ts: seq<Tweet>, specs: seq<Spec>, langLevels: seq<string>) {
    exists i, j :: 0 <= i < |SortedHours(ts)| && 0 <= j < |specs|
      && CellMissing(FT.Group(ts, FT.ByHour, SortedHours(ts)[i]), specs[j], langLevels)
  }

  /** The largest group size among the hours `hs`. */
  function MaxCount(ts: seq<Tweet>, hs: seq<int>): (m: nat)
    ensures forall i :: 0 <= i < |hs| ==> |FT.Group(ts, FT.ByHour, hs[i])| <= m
    ensures |hs| > 0 ==> exists i :: 0 <= i < |hs| && |FT.Group(ts, FT.ByHour, hs[i])| == m
  {
    if |hs| == 0 then 0
    else
      var rest := MaxCount(ts, hs[1..]);
      var here := |FT.Group(ts, FT.ByHour, hs[0])|;
      if here >= rest then here else rest
  }

  /** One row of the sparse table: its hour and one cell per spec. */
  datatype SparseRow = SparseRow(hour: int, cells: seq<real>)

  /** The share of `s.value` among the group, or for `total_tweets` the
      group size over the largest group size `busiest`. */
  function Cell(group: seq<Tweet>, s: Spec, busiest: nat): real
    requires |group| > 0 && busiest > 0
    requires IsTotal(s) || s.variable.Some?
  {
    if IsTotal(s) then FT.Ratio(|group|, busiest)
    else FT.Ratio(|Apply(Equality(s.variable.value, s.value), group)|, |group|)
  }

  /** `rows` is what `_rates_per_hour` returns for a table without a
      missing cell. */
  ghost predicate IsSparseTable(ts: seq<Tweet>, specs: seq<Spec>, langLevels: seq<string>, rows: seq<SparseRow>) {
    var hours := SortedHours(ts);
    && |rows| == |hours|
    && forall i :: 0 <= i < |rows| ==>
         var group := FT.Group(ts, FT.ByHour, hours[i]);
         && rows[i].hour == hours[i]
         && |group| > 0 && MaxCount(ts, hours) > 0
         && |rows[i].cells| == |specs|
         && forall j :: 0 <= j < |specs| ==>
              !CellMissing(group, specs[j], langLevels) && rows[i].cells[j] == Cell(group, specs[j], MaxCount(ts, hours))
  }

  /** Every hour of the index has tweets. */
  lemma HourGroupNonEmpty(ts: seq<Tweet>, h: int)
    requires h in SortedHours(ts)
    ensures |FT.Group(ts, FT.ByHour, h)| > 0
  {
    var t :| t in ts && t.hour == h;
    assert t in FT.Group(ts, FT.ByHour, h);
  }

  /** Some cell of the group raises. */
  predicate AnyMissing(group: seq<Tweet>, specs: seq<Spec>, langLevels: seq<string>) {
    exists j :: 0 <= j < |specs| && CellMissing(group, specs[j], langLevels)
  }

  /** The cells of one group before normalization: the group size in every
      `total_tweets` cell and the shares elsewhere. */
  function RawCells(group: seq<Tweet>, specs: seq<Spec>, langLevels: seq<string>): (cells: seq<real>)
    requires |group| > 0 && !AnyMissing(group, specs, langLevels)
    ensures |cells| == |specs|
  {
    seq(|specs|, j requires 0 <= j < |specs| =>
      if IsTotal(specs[j]) then |group| as real else Cell(group, specs[j], 1))
  }

  /** `_rates_per_hour(to_calculate)`: groups visited in ascending hour
      order, each cell written in turn; then the `total_tweets` cells are
      divided by their maximum. An empty frame gives an empty table. */
  method RatesPerHour(ts: seq<Tweet>, toCalculate: seq<Spec>, langLevels: seq<string>) returns (r: Result<seq<SparseRow>>)
    ensures var specs := if |toCalculate| == 0 then DefaultSpecs else toCalculate;
            && (r.Ok? ==> IsSparseTable(ts, specs, langLevels, r.value))
            && (r.Err? <==> HasMissingCell(ts, specs, langLevels))
            && (r.Err? ==> r.error == KeyError)
  {
    var specs := if |toCalculate| == 0 then DefaultSpecs else toCalculate;
    var rows, counts, missing := RawTable(ts, specs, langLevels);
    if missing {
      return Err(KeyError);
    }
    if |rows| > 0 {
      // `output_df['total_tweets'] / output_df['total_tweets'].max()`
      var busiest := Busiest(counts);
      MaxOfCounts(ts, specs, langLevels, rows, counts, busiest);
      var raw := rows;
      rows := seq(|raw|, i requires 0 <= i < |raw| => Normalized(raw[i], specs, busiest));
      NormalizedTable(ts, specs, langLevels, raw, counts, rows);
    }
    r := Ok(rows);
  }

  /** The group-by loop: one raw row per hour in ascending order, stopping
      at the first cell that raises. */
  method RawTable(ts: seq<Tweet>, specs: seq<Spec>, langLevels: seq<string>)
    returns (rows: seq<SparseRow>, counts: seq<nat>, missing: bool)
    ensures missing <==> HasMissingCell(ts, specs, langLevels)
    ensures !missing ==> |rows| == |counts| == |SortedHours(ts)|
    ensures !missing ==> forall c :: 0 <= c < |rows| ==> RawRow(ts, specs, langLevels, SortedHours(ts)[c], rows[c], counts[c])
  {
    var hours := SortedHours(ts);
    rows, counts := [], [];
    for i := 0 to |hours|
      invariant |rows| == i && |counts| == i
      invariant forall c :: 0 <= c < i ==> RawRow(ts, specs, langLevels, hours[c], rows[c], counts[c])
    {
      var group := FT.Group(ts, FT.ByHour, hours[i]);
      HourGroupNonEmpty(ts, hours[i]);
      var row, stop := GroupCells(group, specs, langLevels, hours[i]);
      if stop {
        var j :| 0 <= j < |specs| && CellMissing(group, specs[j], langLevels);
        return rows, counts, true;
      }
      rows := rows + [row];
      counts := counts + [|group|];
    }
    missing := false;
    forall i, j | 0 <= i < |hours| && 0 <= j < |specs|
      ensures !CellMissing(FT.Group(ts, FT.ByHour, hours[i]), specs[j], langLevels)
    {
      assert RawRow(ts, specs, langLevels, hours[i], rows[i], counts[i]);
    }
  }

  /** `row` is the raw row of the group of hour `h`, of size `count`. */
  ghost predicate RawRow(ts: seq<Tweet>, specs: seq<Spec>, langLevels: seq<string>, h: int, row: SparseRow, count: nat) {
    var group := FT.Group(ts, FT.ByHour, h);
    && count == |group| > 0 && !AnyMissing(group, specs, langLevels)
    && row == SparseRow(h, RawCells(group, specs, langLevels))
  }

  /** The cells of one hour's group, or `missing` when one of them raises. */
  method GroupCells(group: seq<Tweet>, specs: seq<Spec>, langLevels: seq<string>, h: int) returns (row: SparseRow, missing: bool)
    requires |group| > 0
    ensures missing <==> AnyMissing(group, specs, langLevels)
    ensures !missing ==> row == SparseRow(h, RawCells(group, specs, langLevels))
  {
    var cells: seq<real> := [];
    for j := 0 to |specs|
      invariant |cells| == j
      invariant forall c :: 0 <= c < j ==> !CellMissing(group, specs[c], langLevels)
      invariant forall c :: 0 <= c < j ==>
        cells[c] == (if IsTotal(specs[c]) then |group| as real else Cell(group, specs[c], 1))
    {
      var s := specs[j];
      if IsTotal(s) {
        cells := cells + [|group| as real];
      } else if s.variable.None? || !InValueCounts(group, s.variable.value, s.value, langLevels) {
        return SparseRow(h, cells), true;
      } else {
        cells := cells + [FT.Ratio(|Apply(Equality(s.variable.value, s.value), group)|, |group|)];
      }
    }
    row, missing := SparseRow(h, cells), false;
  }

  /** `output_df['total_tweets'].max()` over the raw counts. */
  method Busiest(counts: seq<nat>) returns (m: nat)
    requires |counts| > 0
    ensures forall c :: 0 <= c < |counts| ==> counts[c] <= m
    ensures exists c :: 0 <= c < |counts| && counts[c] == m
  {
    m := counts[0];
    for i := 1 to |counts|
      invariant forall c :: 0 <= c < i ==> counts[c] <= m
      invariant exists c :: 0 <= c < i && counts[c] == m
    {
      if counts[i] > m {
        m := counts[i];
      }
    }
  }

  /** The largest count of the raw rows is the largest group size. */
  lemma MaxOfCounts(ts: seq<Tweet>, specs: seq<Spec>, langLevels: seq<string>, raw: seq<SparseRow>, counts: seq<nat>, busiest: nat)
    requires |raw| == |counts| == |SortedHours(ts)| > 0
    requires forall c :: 0 <= c < |raw| ==> RawRow(ts, specs, langLevels, SortedHours(ts)[c], raw[c], counts[c])
    requires forall c :: 0 <= c < |counts| ==> counts[c] <= busiest
    requires exists c :: 0 <= c < |counts| && counts[c] == busiest
    ensures busiest == MaxCount(ts, SortedHours(ts))
  {
    var hours := SortedHours(ts);
    var c :| 0 <= c < |counts| && counts[c] == busiest;
    assert RawRow(ts, specs, langLevels, hours[c], raw[c], counts[c]);
    var d :| 0 <= d < |hours| && |FT.Group(ts, FT.ByHour, hours[d])| == MaxCount(ts, hours);
    assert RawRow(ts, specs, langLevels, hours[d], raw[d], counts[d]);
  }

  /** Dividing the `total_tweets` cells of the raw rows by the largest group
      size gives the table. */
  lemma NormalizedTable(ts: seq<Tweet>, specs: seq<Spec>, langLevels: seq<string>, raw: seq<SparseRow>, counts: seq<nat>,
                        rows: seq<SparseRow>)
    requires |raw| == |counts| == |SortedHours(ts)| > 0
    requires forall c :: 0 <= c < |raw| ==> RawRow(ts, specs, langLevels, SortedHours(ts)[c], raw[c], counts[c])
    requires MaxCount(ts, SortedHours(ts)) > 0
    requires |rows| == |raw|
    requires forall i :: 0 <= i < |raw| ==> rows[i] == Normalized(raw[i], specs, MaxCount(ts, SortedHours(ts)))
    ensures IsSparseTable(ts, specs, langLevels, rows)
  {
    var hours := SortedHours(ts);
    forall i | 0 <= i < |rows|
      ensures rows[i].hour == hours[i] && |rows[i].cells| == |specs|
      ensures forall j :: 0 <= j < |specs| ==>
        !CellMissing(FT.Group(ts, FT.ByHour, hours[i]), specs[j], langLevels)
        && rows[i].cells[j] == Cell(FT.Group(ts, FT.ByHour, hours[i]), specs[j], MaxCount(ts, hours))
    {
      NormalizedRow(ts, specs, langLevels, hours[i], raw[i], counts[i], MaxCount(ts, hours));
    }
  }

  /** One raw row with its totals divided by `busiest`. */
  lemma NormalizedRow(ts: seq<Tweet>, specs: seq<Spec>, langLevels: seq<string>, h: int, raw: SparseRow, count: nat, busiest: nat)
    requires RawRow(ts, specs, langLevels, h, raw, count) && busiest > 0
    ensures var group := FT.Group(ts, FT.ByHour, h);
            var row := Normalized(raw, specs, busiest);
            && row.hour == h
            && forall j :: 0 <= j < |specs| ==>
                 !CellMissing(group, specs[j], langLevels) && row.cells[j] == Cell(group, specs[j], busiest)
  {
  }

  /** A row with its `total_tweets` cells divided by `busiest`. */
  function Normalized(row: SparseRow, specs: seq<Spec>, busiest: nat): (r: SparseRow)
    requires busiest > 0
    ensures r.hour == row.hour && |r.cells| == |row.cells|
  {
    SparseRow(row.hour, seq(|row.cells|, j requires 0 <= j < |row.cells| =>
      if j < |specs| && IsTotal(specs[j]) then row.cells[j] / busiest as real else row.cells[j]))
  }

  // ------------------------------------------------------------ table properties

  /** The hours a table is indexed by, top to bottom. */
  function RowHours(rows: seq<SparseRow>): seq<int> {
    seq(|rows|, i requires 0 <= i < |rows| => rows[i].hour)
  }

  /** The index is exactly the observed hours, ascending, and no hour of it
      is empty. */
  lemma SparseIndexIsObservedHours(ts: seq<Tweet>, specs: seq<Spec>, langLevels: seq<string>, rows: seq<SparseRow>)
    requires IsSparseTable(ts, specs, langLevels, rows)
    ensures forall h :: h in RowHours(rows) <==> exists t :: t in ts && t.hour == h
    ensures StrictlyIncreasing(RowHours(rows))
    ensures forall i :: 0 <= i < |rows| ==> |FT.Group(ts, FT.ByHour, rows[i].hour)| > 0
  {
    assert RowHours(rows) == SortedHours(ts);
  }

  /** Every cell lies in [0, 1], and a `total_tweets` column holds 1 at a
      busiest hour. */
  lemma SparseCellsAreFractions(ts: seq<Tweet>, specs: seq<Spec>, langLevels: seq<string>, rows: seq<SparseRow>)
    requires IsSparseTable(ts, specs, langLevels, rows)
    ensures forall i, j :: 0 <= i < |rows| && 0 <= j < |specs| ==> 0.0 <= rows[i].cells[j] <= 1.0
    ensures forall j :: 0 <= j < |specs| && IsTotal(specs[j]) && |rows| > 0 ==>
              exists i :: 0 <= i < |rows| && rows[i].cells[j] == 1.0
  {
    var hours := SortedHours(ts);
    forall i, j | 0 <= i < |rows| && 0 <= j < |specs|
      ensures 0.0 <= rows[i].cells[j] <= 1.0
    {
      if IsTotal(specs[j]) {
        assert |FT.Group(ts, FT.ByHour, hours[i])| <= MaxCount(ts, hours);
      }
    }
    if |rows| > 0 {
      var k :| 0 <= k < |hours| && |FT.Group(ts, FT.ByHour, hours[k])| == MaxCount(ts, hours);
      assert forall j :: 0 <= j < |specs| && IsTotal(specs[j]) ==> rows[k].cells[j] == 1.0;
    }
  }

  /** A table that was built had no missing cell. */
  lemma SparseTableComplete(ts: seq<Tweet>, specs: seq<Spec>, langLevels: seq<string>, rows: seq<SparseRow>)
    requires IsSparseTable(ts, specs, langLevels, rows)
    ensures !HasMissingCell(ts, specs, langLevels)
  {
    var hours := SortedHours(ts);
    forall i, j | 0 <= i < |hours| && 0 <= j < |specs|
      ensures !CellMissing(FT.Group(ts, FT.ByHour, hours[i]), specs[j], langLevels)
    {
      assert rows[i].hour == hours[i];
    }
  }

  /** With the default columns every rate is over a categorical column, so
      whether the table raises does not depend on the rows at all, only on
      whether the frame is empty and on the language levels. */
  lemma DefaultTableRaisesOnlyOnLevels(ts: seq<Tweet>, langLevels: seq<string>)
    ensures HasMissingCell(ts, DefaultSpecs, langLevels) <==> |ts| > 0 && !("de" in langLevels && "en" in langLevels)
  {
    var hours := SortedHours(ts);
    if |ts| > 0 {
      assert ts[0].hour in hours;
      var group := FT.Group(ts, FT.ByHour, hours[0]);
      if "de" !in langLevels {
        assert CellMissing(group, DefaultSpecs[8], langLevels);
      } else if "en" !in langLevels {
        assert CellMissing(group, DefaultSpecs[9], langLevels);
      }
    }
    forall i, j | 0 <= i < |hours| && 0 <= j < |DefaultSpecs| && "de" in langLevels && "en" in langLevels
      ensures !CellMissing(FT.Group(ts, FT.ByHour, hours[i]), DefaultSpecs[j], langLevels)
    {
    }
  }

  // ------------------------------------------------------------ range selection

  /** The time column a selection compares: `created_at`, or `hour` read as
      the timestamp of the start of its hour. */
  datatype TimeVariable = CreatedAtVar | HourVar

  function TimeMicros(t: Tweet, v: TimeVariable): int {
    if v == CreatedAtVar then t.createdAt else t.hour * DateTimes.MicrosPerHour
  }

  /** `select_time_range(tweets, start_point, end_point, time_variable)`:
      the rows with `start_point <= t < end_point`, in order. */
  function SelectTimeRange(rows: seq<Tweet>, v: TimeVariable, lo: int, hi: int): (r: seq<Tweet>)
    ensures forall t :: t in r <==> t in rows && lo <= TimeMicros(t, v) < hi
    ensures IsSubsequence(r, rows)
  {
    if |rows| == 0 then []
    else
      var rest := SelectTimeRange(rows[1..], v, lo, hi);
      assert rows == [rows[0]] + rows[1..];
      if lo <= TimeMicros(rows[0], v) < hi then [rows[0]] + rest else rest
  }

  /** An empty or inverted range selects nothing. */
  lemma {:induction false} SelectInvertedEmpty(rows: seq<Tweet>, v: TimeVariable, lo: int, hi: int)
    requires lo >= hi
    ensures SelectTimeRange(rows, v, lo, hi) == []
  {
    if |rows| > 0 {
      SelectInvertedEmpty(rows[1..], v, lo, hi);
    }
  }

  /** A range that holds every row selects the whole frame. */
  lemma {:induction false} SelectEverything(rows: seq<Tweet>, v: TimeVariable, lo: int, hi: int)
    requires forall t :: t in rows ==> lo <= TimeMicros(t, v) < hi
    ensures SelectTimeRange(rows, v, lo, hi) == rows
  {
    if |rows| > 0 {
      assert rows[0] in rows;
      SelectEverything(rows[1..], v, lo, hi);
      assert rows == [rows[0]] + rows[1..];
    }
  }

  /** Adjacent ranges `[a, b)` and `[b, c)` split `[a, c)`: no row is in
      both and their sizes add up. */
  lemma {:induction false} SelectAdjacent(rows: seq<Tweet>, v: TimeVariable, a: int, b: int, c: int)
    requires a <= b <= c
    ensures |SelectTimeRange(rows, v, a, b)| + |SelectTimeRange(rows, v, b, c)| == |SelectTimeRange(rows, v, a, c)|
    ensures forall t :: !(t in SelectTimeRange(rows, v, a, b) && t in SelectTimeRange(rows, v, b, c))
  {
    if |rows| > 0 {
      SelectAdjacent(rows[1..], v, a, b, c);
    }
  }

  /** Whether `select_time_range` rebuilds the caller's own class or a
      plain `Tweets`. */
  datatype Kind = PlainTweets | TweetsInPhases

  /** A selection: the class it is built as, its rows, and how many
      warnings were printed. */
  datatype Selection = Selection(kind: Kind, tweets: seq<Tweet>, warnings: nat)

  /** `Tweets.select_time_range`: tz information on a bound is dropped with
      a warning (the wall clock is kept), and the result is built with the
      caller's class. */
  function SelectTimeRangeOf(kind: Kind, ts: seq<Tweet>, start: DateTimes.DateTime, end: DateTimes.DateTime,
                             v: TimeVariable): (r: Selection)
    requires DateTimes.Valid(start) && DateTimes.Valid(end)
    ensures r.kind == kind
    ensures r.warnings == (if start.tz.Some? then 1 else 0) + (if end.tz.Some? then 1 else 0)
    ensures forall t :: t in r.tweets <==>
              t in ts && DateTimes.Micros(start) <= TimeMicros(t, v) < DateTimes.Micros(end)
  {
    var lo := DateTimes.Micros(start.(tz := None));
    var hi := DateTimes.Micros(end.(tz := None));
    Selection(kind, SelectTimeRange(ts, v, lo, hi), (if start.tz.Some? then 1 else 0) + (if end.tz.Some? then 1 else 0))
  }

  /** `Tweets.select_tweets_in_time_range`: the same rule without dropping
      the zone, so a zone-aware bound against the naive column raises
      TypeError; the result is always a plain `Tweets`. */
  function SelectTweetsInTimeRange(ts: seq<Tweet>, start: DateTimes.DateTime, end: DateTimes.DateTime,
                                   v: TimeVariable): (r: Result<Selection>)
    requires DateTimes.Valid(start) && DateTimes.Valid(end)
    ensures r.Err? <==> start.tz.Some? || end.tz.Some?
    ensures r.Err? ==> r.error == TypeError
    ensures r.Ok? ==> r.value.kind == PlainTweets && r.value.warnings == 0
    ensures r.Ok? ==> r.value.tweets == SelectTimeRangeOf(PlainTweets, ts, start, end, v).tweets
  {
    if start.tz.Some? || end.tz.Some? then Err(TypeError)
    else Ok(Selection(PlainTweets, SelectTimeRange(ts, v, DateTimes.Micros(start), DateTimes.Micros(end)), 0))
  }

  // ------------------------------------------------------------ the class

  /** A lib `Tweets` object: its rows, the levels of its language column and
      the hourly table computed when it is built. */
  datatype LibFrame = LibFrame(tweets: seq<Tweet>, langLevels: seq<string>, hourwise: seq<SparseRow>)

  /** `Tweets(tweets)`: the table is computed eagerly, so building a frame
      raises when the table does. */
  method NewTweets(ts: seq<Tweet>, langLevels: seq<string>) returns (r: Result<LibFrame>)
    ensures r.Ok? ==> r.value.tweets == ts && r.value.langLevels == langLevels
    ensures r.Ok? ==> IsSparseTable(ts, DefaultSpecs, langLevels, r.value.hourwise)
    ensures r.Err? <==> HasMissingCell(ts, DefaultSpecs, langLevels)
  {
    var table := RatesPerHour(ts, [], langLevels);
    if table.Err? {
      return Err(table.error);
    }
    r := Ok(LibFrame(ts, langLevels, table.value));
  }

  /** A selection out of a frame that could be built can itself be built:
      the categorical levels carry over to the subset. */
  lemma SubsetTableBuilds(ts: seq<Tweet>, sub: seq<Tweet>, langLevels: seq<string>)
    requires !HasMissingCell(ts, DefaultSpecs, langLevels)
    requires |ts| > 0
    ensures !HasMissingCell(sub, DefaultSpecs, langLevels)
  {
    DefaultTableRaisesOnlyOnLevels(ts, langLevels);
    DefaultTableRaisesOnlyOnLevels(sub, langLevels);
  }

  // ------------------------------------------------------------ preprocessing

  /** `_preprocess_inputs` on one raw row: `hour` is `round_to_hour` of
      `created_at`, which rounds half up to the nearest hour and raises
      OverflowError past the last representable hour; tweet and user type
      are cast to their levels. The lib frame has no six-hour column: the
      row's `sixHourSlot` field holds its hour and nothing in lib reads it. */
  function PreprocessRow(raw: FT.RawTweet): (r: Result<Tweet>)
    requires DateTimes.Valid(raw.createdAt)
    ensures r.Err? <==> DateTimes.RoundToNearestHour(raw.createdAt).Err?
    ensures r.Err? ==> r.error == OverflowError
    ensures r.Ok? ==> r.value.createdAt == DateTimes.Micros(raw.createdAt)
    ensures r.Ok? ==> r.value.createdAt - 30 * DateTimes.MicrosPerMinute < r.value.hour * DateTimes.MicrosPerHour
                      <= r.value.createdAt + 30 * DateTimes.MicrosPerMinute
    ensures r.Ok? ==> r.value.lang == raw.lang && r.value.authorId == raw.authorId
                      && r.value.isOffensive == raw.isOffensive
                      && r.value.tweetType == FT.Categorize(raw.tweetType, FT.TweetTypeLevels)
                      && r.value.userType == FT.Categorize(raw.userType, FT.UserTypeLevels)
  {
    var rounded :- DateTimes.RoundToNearestHour(raw.createdAt);
    var h := DateTimes.HourOrdinal(rounded);
    Ok(Tweet(DateTimes.Micros(raw.createdAt), h, h, raw.lang,
             FT.Categorize(raw.tweetType, FT.TweetTypeLevels),
             FT.Categorize(raw.userType, FT.UserTypeLevels),
             raw.isOffensive, raw.authorId))
  }

  /** Whether `apply(round_to_hour)` gets through every row. */
  predicate AllRound(raws: seq<FT.RawTweet>)
    requires FT.AllValid(raws)
  {
    forall i :: 0 <= i < |raws| ==> PreprocessRow(raws[i]).Ok?
  }

  /** The rows `_preprocess_inputs` produces when no row overflows. */
  function PreprocessRows(raws: seq<FT.RawTweet>): (r: seq<Tweet>)
    requires FT.AllValid(raws) && AllRound(raws)
    ensures |r| == |raws|
    ensures forall i :: 0 <= i < |raws| ==> Ok(r[i]) == PreprocessRow(raws[i])
  {
    seq(|raws|, i requires 0 <= i < |raws| => PreprocessRow(raws[i]).value)
  }

  /** The categories `astype("category")` gives the `lang` column: its
      distinct values. */
  function LangLevels(ts: seq<Tweet>): (r: seq<string>)
    ensures forall l :: l in r <==> exists t :: t in ts && t.lang == l
    ensures forall i, j :: 0 <= i < j < |r| ==> r[i] != r[j]
  {
    if |ts| == 0 then []
    else
      var rest := LangLevels(ts[1..]);
      assert forall t :: t in ts <==> t == ts[0] || t in ts[1..] by {
        assert ts == [ts[0]] + ts[1..];
      }
      if ts[0].lang in rest then rest else [ts[0].lang] + rest
  }

  /** `Tweets(raw_frame)`: the rows are preprocessed and their languages
      become the levels. When a row overflows, the swallowed exception
      leaves the frame without an `hour` column and grouping by it raises
      KeyError. */
  method FromRaw(raws: seq<FT.RawTweet>) returns (r: Result<LibFrame>)
    requires FT.AllValid(raws)
    ensures !AllRound(raws) ==> r == Err(KeyError)
    ensures AllRound(raws) ==>
              var ts := PreprocessRows(raws);
              && (r.Ok? <==> !HasMissingCell(ts, DefaultSpecs, LangLevels(ts)))
              && (r.Ok? ==> r.value.tweets == ts && r.value.langLevels == LangLevels(ts))
              && (r.Ok? ==> IsSparseTable(ts, DefaultSpecs, LangLevels(ts), r.value.hourwise))
  {
    if !AllRound(raws) {
      return Err(KeyError);
    }
    var ts := PreprocessRows(raws);
    r := NewTweets(ts, LangLevels(ts));
  }

  /** A non-empty raw frame builds exactly when it holds a German and an
      English tweet: the language levels are what the frame holds, and the
      `de_pct` and `en_pct` columns need both. */
  lemma FromRawNeedsGermanAndEnglish(ts: seq<Tweet>)
    requires |ts| > 0
    ensures !HasMissingCell(ts, DefaultSpecs, LangLevels(ts)) <==>
              (exists t :: t in ts && t.lang == "de") && (exists t :: t in ts && t.lang == "en")
  {
    DefaultTableRaisesOnlyOnLevels(ts, LangLevels(ts));
  }
}
