/** The `Tweets` class of src/twitter_data/tweets.py: a filter pipeline with a
    log of row counts, the dense hourly rate table, its two cached variants
    and the firestorm metadata.

    Grouping keys are hour ordinals (see `Filters`): hour `h` lies on day
    `h / 24` and midnights are the multiples of 24. */
module FirestormTweets {
  import opened Wrappers
  import opened PyValues
  import opened Filters
  import DateTimes

  /** One entry of `to_calculate`: the output column, the variable and the
      value whose share is computed. */
  datatype RateSpec = RateSpec(name: string, variable: Column, value: Value)

  /** The columns computed when `to_calculate` is empty or missing. */
  const DefaultSpecs: seq<RateSpec> := [
    RateSpec("retweet_pct", TweetType, Str("retweet without comment")),
    RateSpec("original_tweet_pct", TweetType, Str("original tweet")),
    RateSpec("reply_pct", TweetType, Str("reply")),
    RateSpec("quoted_pct", TweetType, Str("retweet with comment")),
    RateSpec("laggards_pct", UserType, Str("laggard")),
    RateSpec("active_pct", UserType, Str("active")),
    RateSpec("hyper_active_pct", UserType, Str("hyper-active")),
    RateSpec("de_pct", Lang, Str("de")),
    RateSpec("en_pct", Lang, Str("en")),
    RateSpec("offensive_pct", IsOffensive, Bool(true)),
    RateSpec("not_offensive_pct", IsOffensive, Bool(false))
  ]

  // ------------------------------------------------------------ preprocessing

  /** A row as it arrives: `created_at` already a datetime and the
      categorical columns still free text. */
  datatype RawTweet = RawTweet(
    createdAt: DateTimes.DateTime,
    lang: string,
    tweetType: string,
    userType: string,
    isOffensive: Option<bool>,
    authorId: string)

  const TweetTypeLevels: seq<string> := ["retweet with comment", "retweet without comment", "reply", "original tweet"]
  const UserTypeLevels: seq<string> := ["laggard", "hyper-active", "active"]

  /** `astype(CategoricalDtype(levels))`: a value outside the levels becomes
      missing. */
  function Categorize(s: string, levels: seq<string>): (r: Option<string>)
    ensures r.Some? <==> s in levels
    ensures r.Some? ==> r.value == s
  {
    if s in levels then Some(s) else None
  }

  /** `_preprocess_inputs` on one row: the `hour` column is `round_to_hour`
      of `created_at`, `six_hour_slot` is `round_to_hour_slots` of it with
      slots of six hours, and tweet and user type are cast to their levels. */
  function Preprocess(raw: RawTweet): (t: Tweet)
    requires DateTimes.Valid(raw.createdAt)
    ensures t.createdAt == DateTimes.Micros(raw.createdAt)
    ensures t.hour * DateTimes.MicrosPerHour <= t.createdAt < (t.hour + 1) * DateTimes.MicrosPerHour
    ensures t.sixHourSlot % 6 == 0 && t.sixHourSlot <= t.hour < t.sixHourSlot + 6
    ensures t.sixHourSlot / 24 == t.hour / 24
    ensures t.lang == raw.lang && t.isOffensive == raw.isOffensive && t.authorId == raw.authorId
    ensures t.tweetType == Categorize(raw.tweetType, TweetTypeLevels)
    ensures t.userType == Categorize(raw.userType, UserTypeLevels)
  {
    var hour := DateTimes.RoundToHour(raw.createdAt);
    var slot := DateTimes.RoundToHourSlots(raw.createdAt, 6).value;
    var h := DateTimes.HourOrdinal(hour);
    assert DateTimes.Micros(hour) == h * DateTimes.MicrosPerHour;
    SlotOrdinal(DateTimes.DayNumber(raw.createdAt.date) - 1, raw.createdAt.hour, slot.hour);
    Tweet(DateTimes.Micros(raw.createdAt), h, DateTimes.HourOrdinal(slot),
          raw.lang, Categorize(raw.tweetType, TweetTypeLevels),
          Categorize(raw.userType, UserTypeLevels), raw.isOffensive, raw.authorId)
  }

  /** The six-hour slot of an hour, counted in hours since the epoch: a
      multiple of six at most six hours back, on the same day. */
  lemma SlotOrdinal(day: int, hour: int, slotHour: int)
    requires 0 <= slotHour <= hour < 24 && hour < slotHour + 6 && slotHour % 6 == 0
    ensures var s := day * 24 + slotHour;
            var h := day * 24 + hour;
            s % 6 == 0 && s <= h < s + 6 && s / 24 == h / 24
  {
    var q := slotHour / 6;
    DateTimes.DivModUnique(day * 24 + slotHour, 6, day * 4 + q, 0);
    DateTimes.DivModUnique(day * 24 + slotHour, 24, day, slotHour);
    DateTimes.DivModUnique(day * 24 + hour, 24, day, hour);
  }

  predicate AllValid(input: seq<RawTweet>) {
    forall i :: 0 <= i < |input| ==> DateTimes.Valid(input[i].createdAt)
  }

  /** `_preprocess_inputs` on the whole frame, row for row. */
  function PreprocessAll(input: seq<RawTweet>): (r: seq<Tweet>)
    requires AllValid(input)
    ensures |r| == |input| && forall i :: 0 <= i < |input| ==> r[i] == Preprocess(input[i])
  {
    seq(|input|, i requires 0 <= i < |input| => Preprocess(input[i]))
  }

  /** The grouping variable: `hour` or `six_hour_slot`. */
  datatype Grouping = ByHour | BySixHourSlot

  function KeyColumn(g: Grouping): Column {
    if g == ByHour then Hour else SixHourSlot
  }

  function Key(t: Tweet, g: Grouping): int {
    if g == ByHour then t.hour else t.sixHourSlot
  }

  /** One row of the table: its hour (the index), one share per rate
      column, `total_tweets` and `total_tweets_pct`. */
  datatype Row = Row(hour: int, rates: seq<real>, total: nat, totalPct: real)

  // ------------------------------------------------------------ specification

  /** The tweets of one group of `groupby(grouping_var)`, in order. */
  function Group(ts: seq<Tweet>, g: Grouping, h: int): (r: seq<Tweet>)
    ensures forall t :: t in r <==> t in ts && Key(t, g) == h
    decreases |ts|
  {
    if |ts| == 0 then []
    else
      assert forall t :: t in ts <==> t == ts[0] || t in ts[1..];
      (if Key(ts[0], g) == h then [ts[0]] else []) + Group(ts[1..], g, h)
  }

  /** A group is the rows the equality mask on the grouping column keeps. */
  lemma {:induction false} GroupIsMask(ts: seq<Tweet>, g: Grouping, h: int)
    ensures Group(ts, g, h) == Apply(Equality(KeyColumn(g), Int(h)), ts)
    decreases |ts|
  {
    if |ts| > 0 {
      GroupIsMask(ts[1..], g, h);
    }
  }

  /** `a / b` for counts. */
  function Ratio(a: nat, b: nat): (r: real)
    requires b > 0
    ensures 0.0 <= r
    ensures a <= b ==> r <= 1.0
    ensures a == b ==> r == 1.0
    ensures a == 0 ==> r == 0.0
  {
    a as real / b as real
  }

  /** A ratio times its denominator gives back the numerator, and the
      complement counts the rest. */
  lemma RatioScales(a: nat, b: nat)
    requires b > 0
    ensures Ratio(a, b) * b as real == a as real
    ensures (1.0 - Ratio(a, b)) * b as real == (b - a) as real
  {
  }

  /** A part strictly between none and all gives a ratio strictly between
      0 and 1. */
  lemma RatioBetween(a: nat, b: nat)
    requires 0 < a < b
    ensures 0.0 < Ratio(a, b) < 1.0
  {
  }

  /** `group[var].value_counts()[value] / len(group)`, or 0 when the value
      does not occur (the KeyError branch), or 0 for an empty hour. */
  function Rate(ts: seq<Tweet>, g: Grouping, h: int, s: RateSpec): (r: real)
    ensures 0.0 <= r <= 1.0
  {
    var group := Group(ts, g, h);
    if |group| == 0 then 0.0
    else Ratio(|Apply(Equality(s.variable, s.value), group)|, |group|)
  }

  function Rates(ts: seq<Tweet>, g: Grouping, specs: seq<RateSpec>, h: int): (r: seq<real>)
    ensures |r| == |specs|
  {
    seq(|specs|, j requires 0 <= j < |specs| => Rate(ts, g, h, specs[j]))
  }

  function Zeros(n: nat): (r: seq<real>)
    ensures |r| == n && forall j :: 0 <= j < n ==> r[j] == 0.0
  {
    seq(n, _ => 0.0)
  }

  function MinKey(ts: seq<Tweet>, g: Grouping): (m: int)
    requires |ts| > 0
    ensures forall t :: t in ts ==> m <= Key(t, g)
    ensures exists t :: t in ts && Key(t, g) == m
  {
    if |ts| == 1 then Key(ts[0], g)
    else
      var m := MinKey(ts[1..], g);
      assert forall t :: t in ts[1..] ==> t in ts;
      if Key(ts[0], g) < m then Key(ts[0], g) else m
  }

  function MaxKey(ts: seq<Tweet>, g: Grouping): (m: int)
    requires |ts| > 0
    ensures forall t :: t in ts ==> Key(t, g) <= m
    ensures exists t :: t in ts && Key(t, g) == m
  {
    if |ts| == 1 then Key(ts[0], g)
    else
      var m := MaxKey(ts[1..], g);
      assert forall t :: t in ts[1..] ==> t in ts;
      if Key(ts[0], g) > m then Key(ts[0], g) else m
  }

  /** `x.floor("24H")` for an hour ordinal: midnight of its day. */
  function FloorDay(h: int): int { (h / 24) * 24 }

  /** The last index label: `max.ceil("24H") - 1h` is 23:00 of the last day;
      when the maximum is itself a midnight `ceil` keeps it, the range stops
      at 23:00 the day before and writing the maximum's group with `.at`
      appends its row, so the table then ends at that midnight. */
  function LastHour(maxKey: int): int {
    if maxKey % 24 == 0 then maxKey else FloorDay(maxKey) + 23
  }

  /** First and last index label of the table for non-empty tweets. */
  function IndexStart(ts: seq<Tweet>, g: Grouping): int
    requires |ts| > 0
  {
    FloorDay(MinKey(ts, g))
  }

  function IndexEnd(ts: seq<Tweet>, g: Grouping): int
    requires |ts| > 0
  {
    LastHour(MaxKey(ts, g))
  }

  /** Every grouping value lies inside the index. */
  lemma IndexCoversKeys(ts: seq<Tweet>, g: Grouping)
    requires |ts| > 0
    ensures IndexStart(ts, g) <= MinKey(ts, g) && MaxKey(ts, g) <= IndexEnd(ts, g)
    ensures forall t :: t in ts ==> IndexStart(ts, g) <= Key(t, g) <= IndexEnd(ts, g)
  {
  }

  /** The index: one row per hour from midnight of the first grouping
      value's day to the last label, ascending. */
  predicate Indexed(ts: seq<Tweet>, g: Grouping, rows: seq<Row>)
    requires |ts| > 0
  {
    && |rows| == IndexEnd(ts, g) - IndexStart(ts, g) + 1
    && forall i :: 0 <= i < |rows| ==> rows[i].hour == IndexStart(ts, g) + i
  }

  /** Each row holds its group's size and the share of every rate column. */
  predicate Counted(ts: seq<Tweet>, g: Grouping, specs: seq<RateSpec>, rows: seq<Row>) {
    forall i :: 0 <= i < |rows| ==> RowCounts(ts, g, specs, rows[i])
  }

  /** One row holds its group's size and the share of every rate column. */
  predicate RowCounts(ts: seq<Tweet>, g: Grouping, specs: seq<RateSpec>, row: Row) {
    row.total == |Group(ts, g, row.hour)| && row.rates == Rates(ts, g, specs, row.hour)
  }

  /** Row `k` is a busiest row and it scales `total_tweets_pct`. */
  predicate NormalizedBy(rows: seq<Row>, k: int) {
    && 0 <= k < |rows| && rows[k].total > 0
    && forall i :: 0 <= i < |rows| ==>
         rows[i].total <= rows[k].total && rows[i].totalPct == Ratio(rows[i].total, rows[k].total)
  }

  /** `rows` is the table `metrics_per_time_intervall` returns. */
  ghost predicate IsRateTable(ts: seq<Tweet>, g: Grouping, specs: seq<RateSpec>, rows: seq<Row>) {
    && |ts| > 0
    && Indexed(ts, g, rows)
    && Counted(ts, g, specs, rows)
    && exists k :: NormalizedBy(rows, k)
  }

  /** The table is determined by the tweets: two tables for the same input
      are equal. */
  lemma RateTableUnique(ts: seq<Tweet>, g: Grouping, specs: seq<RateSpec>, a: seq<Row>, b: seq<Row>)
    requires IsRateTable(ts, g, specs, a) && IsRateTable(ts, g, specs, b)
    ensures a == b
  {
    var ka :| NormalizedBy(a, ka);
    var kb :| NormalizedBy(b, kb);
    assert |a| == |b|;
    forall i | 0 <= i < |a|
      ensures a[i].hour == b[i].hour && a[i].total == b[i].total && a[i].rates == b[i].rates
    {
    }
    var top := a[ka].total;
    assert top == b[kb].total by {
      assert a[kb].total <= top && b[ka].total <= b[kb].total;
    }
    forall i | 0 <= i < |a|
      ensures a[i] == b[i]
    {
      assert a[i].totalPct == Ratio(a[i].total, top);
      assert b[i].totalPct == Ratio(b[i].total, top);
    }
  }

  // ---------------------------------------------------------- properties

  /** Every tweet's grouping value is one of the table's hours. */
  lemma TableCoversTweets(ts: seq<Tweet>, g: Grouping, rows: seq<Row>, t: Tweet)
    requires |ts| > 0 && Indexed(ts, g, rows) && t in ts
    ensures exists i :: 0 <= i < |rows| && rows[i].hour == Key(t, g)
  {
    var i := Key(t, g) - IndexStart(ts, g);
    assert rows[i].hour == Key(t, g);
  }

  /** The table starts at a midnight and ends at 23:00, except that it ends
      at the maximum itself when that is a midnight. */
  lemma TableSpansWholeDays(ts: seq<Tweet>, g: Grouping, rows: seq<Row>)
    requires |ts| > 0 && Indexed(ts, g, rows)
    ensures rows[0].hour % 24 == 0
    ensures rows[|rows| - 1].hour % 24 == 23 || rows[|rows| - 1].hour == MaxKey(ts, g)
  {
    IndexCoversKeys(ts, g);
    DayBounds(MinKey(ts, g), MaxKey(ts, g));
    assert rows[0].hour == IndexStart(ts, g);
    assert rows[|rows| - 1].hour == IndexEnd(ts, g);
  }

  /** From the midnight of the first hour's day to the last label: a
      non-empty range from a midnight to 23:00 or to the last hour itself. */
  lemma DayBounds(lo: int, hi: int)
    requires lo <= hi
    ensures FloorDay(lo) <= LastHour(hi)
    ensures FloorDay(lo) % 24 == 0
    ensures LastHour(hi) % 24 == 23 || LastHour(hi) == hi
  {
    FloorDayMidnight(lo);
    FloorDayMidnight(hi);
  }

  /** Midnight of a day is a multiple of 24 hours, and 23:00 of it is 23
      modulo 24. */
  lemma FloorDayMidnight(h: int)
    ensures FloorDay(h) % 24 == 0 && (FloorDay(h) + 23) % 24 == 23
  {
    DateTimes.DivModUnique(FloorDay(h), 24, h / 24, 0);
    DateTimes.DivModUnique(FloorDay(h) + 23, 24, h / 24, 23);
  }

  /** Hours without tweets keep `total_tweets == 0` and every share 0. */
  lemma EmptyHoursAreZero(ts: seq<Tweet>, g: Grouping, specs: seq<RateSpec>, rows: seq<Row>, i: int)
    requires IsRateTable(ts, g, specs, rows) && 0 <= i < |rows|
    requires forall t :: t in ts ==> Key(t, g) != rows[i].hour
    ensures rows[i].total == 0 && rows[i].totalPct == 0.0
    ensures forall j :: 0 <= j < |specs| ==> rows[i].rates[j] == 0.0
  {
    var k :| NormalizedBy(rows, k);
    GroupEmptyOutsideKeys(ts, g, rows[i].hour);
  }

  /** Shares and `total_tweets_pct` lie in [0, 1], and the busiest hour has
      `total_tweets_pct == 1`. */
  lemma SharesAreFractions(ts: seq<Tweet>, g: Grouping, specs: seq<RateSpec>, rows: seq<Row>)
    requires IsRateTable(ts, g, specs, rows)
    ensures forall i, j :: 0 <= i < |rows| && 0 <= j < |specs| ==> 0.0 <= rows[i].rates[j] <= 1.0
    ensures forall i :: 0 <= i < |rows| ==> 0.0 <= rows[i].totalPct <= 1.0
    ensures exists k :: 0 <= k < |rows| && rows[k].totalPct == 1.0
              && forall i :: 0 <= i < |rows| ==> rows[i].total <= rows[k].total
  {
    var k :| NormalizedBy(rows, k);
    assert rows[k].totalPct == 1.0;
  }

  /** The rows are in strictly ascending hour order, each hour once. */
  lemma TableSorted(ts: seq<Tweet>, g: Grouping, rows: seq<Row>)
    requires |ts| > 0 && Indexed(ts, g, rows)
    ensures forall i, j :: 0 <= i < j < |rows| ==> rows[i].hour < rows[j].hour
  {
  }

  /** Grouped by six-hour slot the index is still hourly, so only the slot
      hours can hold tweets. */
  lemma SixHourRowsOffSlotEmpty(ts: seq<Tweet>, specs: seq<RateSpec>, rows: seq<Row>, i: int)
    requires IsRateTable(ts, BySixHourSlot, specs, rows) && 0 <= i < |rows|
    requires forall t :: t in ts ==> t.sixHourSlot % 6 == 0
    requires rows[i].hour % 6 != 0
    ensures rows[i].total == 0
  {
    EmptyHoursAreZero(ts, BySixHourSlot, specs, rows, i);
  }

  /** The grouping values that occur. */
  function KeySet(ts: seq<Tweet>, g: Grouping): (keys: set<int>)
    ensures forall h :: h in keys <==> exists t :: t in ts && Key(t, g) == h
  {
    set t | t in ts :: Key(t, g)
  }

  /** The table preset to zeros over the whole index: already right for every
      hour without tweets. */
  method ZeroTable(ts: seq<Tweet>, g: Grouping, specs: seq<RateSpec>) returns (table: array<Row>)
    requires |ts| > 0
    ensures fresh(table)
    ensures Indexed(ts, g, table[..])
    ensures CountedOutside(ts, g, specs, table[..], KeySet(ts, g))
  {
    var first, last := IndexStart(ts, g), IndexEnd(ts, g);
    table := new Row[last - first + 1](i => Row(first + i, Zeros(|specs|), 0, 0.0));
    forall h | h !in KeySet(ts, g)
      ensures RowCounts(ts, g, specs, Row(h, Zeros(|specs|), 0, 0.0))
    {
      GroupEmptyOutsideKeys(ts, g, h);
    }
  }

  /** The dense table with every row's counts and shares and
      `total_tweets_pct` still 0: preset to zeros, then each non-empty
      group's row written at its label. */
  method CountTable(ts: seq<Tweet>, g: Grouping, specs: seq<RateSpec>) returns (table: array<Row>)
    requires |ts| > 0
    ensures fresh(table)
    ensures Indexed(ts, g, table[..]) && Counted(ts, g, specs, table[..])
  {
    table := ZeroTable(ts, g, specs);
    var first := IndexStart(ts, g);
    var keys := KeySet(ts, g);
    var pending := keys;
    ghost var rows := table[..];
    while pending != {}
      invariant rows == table[..]
      invariant pending <= keys
      invariant Indexed(ts, g, rows) && CountedOutside(ts, g, specs, rows, pending)
      decreases pending
    {
      var name :| name in pending;
      var row := GroupRow(ts, g, specs, name);
      WriteGroupRow(ts, g, specs, rows, pending, row);
      table[name - first] := row;
      rows := rows[name - first := row];
      pending := pending - {name};
    }
    assert CountedOutside(ts, g, specs, rows, {});
  }

  /** Every row whose hour is not among `pending` holds its group's counts. */
  predicate CountedOutside(ts: seq<Tweet>, g: Grouping, specs: seq<RateSpec>, rows: seq<Row>, pending: set<int>) {
    forall i :: 0 <= i < |rows| && rows[i].hour !in pending ==> RowCounts(ts, g, specs, rows[i])
  }

  /** Writing the row of one pending group at its place keeps the index and
      leaves one group less to fill. */
  lemma WriteGroupRow(ts: seq<Tweet>, g: Grouping, specs: seq<RateSpec>, rows: seq<Row>, pending: set<int>, row: Row)
    requires |ts| > 0 && Indexed(ts, g, rows)
    requires CountedOutside(ts, g, specs, rows, pending)
    requires row.hour in KeySet(ts, g) && RowCounts(ts, g, specs, row)
    ensures 0 <= row.hour - IndexStart(ts, g) < |rows|
    ensures var after := rows[row.hour - IndexStart(ts, g) := row];
            && Indexed(ts, g, after)
            && CountedOutside(ts, g, specs, after, pending - {row.hour})
  {
    IndexCoversKeys(ts, g);
  }

  /** The row of the smallest grouping value holds at least one tweet. */
  lemma SomeRowNonEmpty(ts: seq<Tweet>, g: Grouping, specs: seq<RateSpec>, rows: seq<Row>)
    requires |ts| > 0 && Indexed(ts, g, rows) && Counted(ts, g, specs, rows)
    ensures exists i :: 0 <= i < |rows| && rows[i].total > 0
  {
    var i := MinKey(ts, g) - IndexStart(ts, g);
    var t :| t in ts && Key(t, g) == MinKey(ts, g);
    assert RowCounts(ts, g, specs, rows[i]);
    assert t in Group(ts, g, rows[i].hour);
  }

  /** Rewriting only `total_tweets_pct` keeps the index, counts and shares. */
  lemma RescaleKeepsCounts(ts: seq<Tweet>, g: Grouping, specs: seq<RateSpec>, a: seq<Row>, b: seq<Row>)
    requires |ts| > 0 && Indexed(ts, g, a) && Counted(ts, g, specs, a) && |a| == |b|
    requires forall c :: 0 <= c < |a| ==> b[c] == a[c].(totalPct := b[c].totalPct)
    ensures Indexed(ts, g, b) && Counted(ts, g, specs, b)
  {
    assert forall c :: 0 <= c < |a| ==> RowCounts(ts, g, specs, a[c]);
    assert forall c :: 0 <= c < |a| ==> b[c].hour == a[c].hour && b[c].total == a[c].total && b[c].rates == a[c].rates;
  }

  /** `total_tweets_pct = total_tweets / total_tweets.max()`, written row by
      row; `k` is a busiest row. Nothing else in the table changes. */
  method NormalizeTotals(table: array<Row>) returns (k: nat)
    requires exists i :: 0 <= i < table.Length && table[i].total > 0
    modifies table
    ensures NormalizedBy(table[..], k)
    ensures forall c :: 0 <= c < table.Length ==> table[c] == old(table[c]).(totalPct := table[c].totalPct)
  {
    var n := table.Length;
    k := 0;
    for i := 1 to n
      invariant 0 <= k < n
      invariant forall c :: 0 <= c < i ==> table[c].total <= table[k].total
    {
      if table[i].total > table[k].total {
        k := i;
      }
    }
    var busiest := table[k].total;
    assert busiest > 0 by {
      var i0 :| 0 <= i0 < n && table[i0].total > 0;
    }
    for i := 0 to n
      invariant forall c :: 0 <= c < n ==> table[c] == old(table[c]).(totalPct := table[c].totalPct)
      invariant forall c :: 0 <= c < i ==> table[c].totalPct == Ratio(table[c].total, busiest)
    {
      table[i] := table[i].(totalPct := Ratio(table[i].total, busiest));
    }
  }

  /** The row of one non-empty group: its size and, for each rate column,
      the share of the group holding the value. */
  method GroupRow(ts: seq<Tweet>, g: Grouping, specs: seq<RateSpec>, name: int) returns (row: Row)
    requires exists t :: t in ts && Key(t, g) == name
    ensures row.hour == name && row.totalPct == 0.0 && row.total > 0
    ensures RowCounts(ts, g, specs, row)
  {
    var group := Group(ts, g, name);
    var total := |group|;
    assert total > 0 by {
      var t :| t in ts && Key(t, g) == name;
      assert t in group;
    }
    var shares := [];
    for j := 0 to |specs|
      invariant |shares| == j
      invariant forall c :: 0 <= c < j ==> shares[c] == Rate(ts, g, name, specs[c])
    {
      shares := shares + [Ratio(|Apply(Equality(specs[j].variable, specs[j].value), group)|, total)];
    }
    row := Row(name, shares, total, 0.0);
  }

  /** An hour no tweet falls into has an empty group and zero shares. */
  lemma GroupEmptyOutsideKeys(ts: seq<Tweet>, g: Grouping, h: int)
    requires forall t :: t in ts ==> Key(t, g) != h
    ensures |Group(ts, g, h)| == 0
    ensures forall s :: Rate(ts, g, h, s) == 0.0
  {
    ApplyKeepsNone(Equality(KeyColumn(g), Int(h)), ts);
  }

  /** `filter_log`: the row count before any filter, then after each one. */
  function FilterLog(filters: seq<Filter>, input: seq<Tweet>): (log: seq<nat>)
    requires forall i :: 0 <= i < |filters| ==> WellFormed(filters[i])
    ensures |log| == |filters| + 1 && log[0] == |input|
    ensures forall k :: 0 < k < |log| ==> log[k] <= log[k - 1]
  {
    assert forall k :: 0 < k <= |filters| ==> filters[..k][..k - 1] == filters[..k - 1];
    seq(|filters| + 1, k requires 0 <= k <= |filters| => |ApplyAll(filters[..k], input)|)
  }

  /** One more filter: the frame it leaves and its row count at the end of
      the log. */
  lemma FilterLogNext(filters: seq<Filter>, input: seq<Tweet>, i: nat)
    requires forall i :: 0 <= i < |filters| ==> WellFormed(filters[i])
    requires i < |filters|
    ensures ApplyAll(filters[..i + 1], input) == Apply(filters[i], ApplyAll(filters[..i], input))
    ensures FilterLog(filters[..i + 1], input) == FilterLog(filters[..i], input) + [|ApplyAll(filters[..i + 1], input)|]
  {
    assert filters[..i + 1][..i] == filters[..i];
    var a := FilterLog(filters[..i + 1], input);
    var b := FilterLog(filters[..i], input) + [|ApplyAll(filters[..i + 1], input)|];
    forall k | 0 <= k < |a|
      ensures a[k] == b[k]
    {
      if k <= i {
        assert filters[..i + 1][..k] == filters[..i][..k];
      } else {
        assert filters[..i + 1][..k] == filters[..i + 1];
      }
    }
    assert a == b;
  }

  /** The log has one entry more than there are filters, starts with the
      unfiltered count, ends with the count that remains, and never grows. */
  lemma FilterLogShape(filters: seq<Filter>, input: seq<Tweet>)
    requires forall i :: 0 <= i < |filters| ==> WellFormed(filters[i])
    ensures |FilterLog(filters, input)| == |filters| + 1
    ensures FilterLog(filters, input)[0] == |input|
    ensures FilterLog(filters, input)[|filters|] == |ApplyAll(filters, input)|
    ensures forall k :: 0 < k <= |filters| ==> FilterLog(filters, input)[k] <= FilterLog(filters, input)[k - 1]
  {
    assert filters[..0] == [];
    assert filters[..|filters|] == filters;
    forall k | 0 < k <= |filters|
      ensures FilterLog(filters, input)[k] <= FilterLog(filters, input)[k - 1]
    {
      assert filters[..k][..k - 1] == filters[..k - 1];
    }
  }

  /** What `metadata()` returns. */
  datatype Meta = Meta(length: nat, filteringLengthsLog: seq<nat>, pctFiltered: real,
                       averageAggressiveness: real, offensiveCount: nat, notOffensiveCount: nat)

  /** Tweets labelled with `is_offensive == b`. */
  function CountLabel(ts: seq<Tweet>, b: bool): nat {
    |Apply(Equality(IsOffensive, Bool(b)), ts)|
  }

  // ------------------------------------------------------------ the class

  class Tweets {
    var tweets: seq<Tweet>
    var filterLog: seq<nat>
    var hourwise: Option<seq<Row>>
    var sixHourwise: Option<seq<Row>>

    /** The log is the counts of a filter pipeline ending in the current
        tweets, and a cached table is the table of the current tweets. */
    ghost predicate Valid()
      reads this
    {
      && LogConsistent()
      && (hourwise.Some? ==> IsRateTable(tweets, ByHour, DefaultSpecs, hourwise.value))
      && (sixHourwise.Some? ==> IsRateTable(tweets, BySixHourSlot, DefaultSpecs, sixHourwise.value))
    }

    predicate LogConsistent()
      reads this
    {
      && |filterLog| > 0 && filterLog[|filterLog| - 1] == |tweets|
      && forall k :: 0 < k < |filterLog| ==> filterLog[k] <= filterLog[k - 1]
    }

    /** `Tweets(tweets, filters)`: the rows are preprocessed, then each
        filter is applied to the previous output and the count after each
        step is logged. */
    constructor (raw: seq<RawTweet>, filters: seq<Filter>)
      requires AllValid(raw)
      requires forall i :: 0 <= i < |filters| ==> WellFormed(filters[i])
      ensures tweets == ApplyAll(filters, PreprocessAll(raw))
      ensures filterLog == FilterLog(filters, PreprocessAll(raw))
      ensures hourwise.None? && sixHourwise.None?
      ensures Valid()
    {
      var input := PreprocessAll(raw);
      FilterLogShape(filters, input);
      var kept := input;
      var log := [|input|];
      var i := 0;
      assert filters[..0] == [];
      while i < |filters|
        invariant 0 <= i <= |filters|
        invariant kept == ApplyAll(filters[..i], input)
        invariant log == FilterLog(filters[..i], input)
      {
        FilterLogNext(filters, input, i);
        kept := Apply(filters[i], kept);
        log := log + [|kept|];
        i := i + 1;
      }
      assert filters[..|filters|] == filters;
      tweets := kept;
      filterLog := log;
      hourwise := None;
      sixHourwise := None;
    }

    /** `metrics_per_time_intervall(grouping_var, to_calculate)`: the dense
        table, filled group by group into a table preset to zeros. An empty
        frame has no first timestamp and `date_range` raises ValueError. */
    method MetricsPerTimeInterval(g: Grouping, toCalculate: seq<RateSpec>) returns (r: Result<seq<Row>>)
      ensures var specs := if |toCalculate| == 0 then DefaultSpecs else toCalculate;
              r.Ok? ==> IsRateTable(tweets, g, specs, r.value)
      ensures r.Err? <==> |tweets| == 0
      ensures r.Err? ==> r.error == ValueError
    {
      var specs := if |toCalculate| == 0 then DefaultSpecs else toCalculate;
      var ts := tweets;
      if |ts| == 0 {
        return Err(ValueError);
      }
      var table := CountTable(ts, g, specs);
      SomeRowNonEmpty(ts, g, specs, table[..]);
      ghost var counted := table[..];
      var k := NormalizeTotals(table);
      RescaleKeepsCounts(ts, g, specs, counted, table[..]);
      r := Ok(table[..]);
    }

    /** `hourwise_metrics`: the hourly table with the default columns,
        computed on first use and cached. A failed computation caches
        nothing. */
    method HourwiseMetrics() returns (r: Result<seq<Row>>)
      requires Valid()
      modifies this`hourwise
      ensures Valid()
      ensures r.Ok? ==> IsRateTable(tweets, ByHour, DefaultSpecs, r.value) && hourwise == Some(r.value)
      ensures r.Err? <==> |tweets| == 0
      ensures r.Err? ==> hourwise == old(hourwise)
      ensures old(hourwise).Some? ==> r == Ok(old(hourwise).value)
    {
      if hourwise.Some? {
        return Ok(hourwise.value);
      }
      r := MetricsPerTimeInterval(ByHour, []);
      if r.Ok? {
        hourwise := Some(r.value);
      }
    }

    /** `six_hourwise_metrics`: the same for six-hour slots. */
    method SixHourwiseMetrics() returns (r: Result<seq<Row>>)
      requires Valid()
      modifies this`sixHourwise
      ensures Valid()
      ensures r.Ok? ==> IsRateTable(tweets, BySixHourSlot, DefaultSpecs, r.value) && sixHourwise == Some(r.value)
      ensures r.Err? <==> |tweets| == 0
      ensures r.Err? ==> sixHourwise == old(sixHourwise)
      ensures old(sixHourwise).Some? ==> r == Ok(old(sixHourwise).value)
    {
      if sixHourwise.Some? {
        return Ok(sixHourwise.value);
      }
      r := MetricsPerTimeInterval(BySixHourSlot, []);
      if r.Ok? {
        sixHourwise := Some(r.value);
      }
    }

    /** `metadata()`: the dict literal's values are computed in order, so an
        empty unfiltered frame divides by zero before the label counts are
        read, and a label that never occurs is a missing key. The
        percentages are the fractions before `float_to_pct`. */
    function Metadata(): (r: Result<Meta>)
      reads this
      requires LogConsistent()
      ensures filterLog[0] == 0 ==> r == Err(ZeroDivisionError)
      ensures filterLog[0] > 0 && (CountLabel(tweets, true) == 0 || CountLabel(tweets, false) == 0) ==>
                r == Err(KeyError)
      ensures r.Ok? <==> filterLog[0] > 0 && CountLabel(tweets, true) > 0 && CountLabel(tweets, false) > 0
      ensures r.Ok? ==> r.value.length == |tweets| && r.value.filteringLengthsLog == filterLog
      ensures r.Ok? ==> r.value.pctFiltered == 1.0 - Ratio(|tweets|, filterLog[0])
      ensures r.Ok? ==> 0.0 <= r.value.pctFiltered <= 1.0 && 0.0 < r.value.averageAggressiveness < 1.0
      ensures r.Ok? ==> r.value.offensiveCount == CountLabel(tweets, true)
                        && r.value.notOffensiveCount == CountLabel(tweets, false)
      ensures r.Ok? ==> r.value.averageAggressiveness
                        == Ratio(r.value.offensiveCount, r.value.offensiveCount + r.value.notOffensiveCount)
    {
      var first := filterLog[0];
      var last := filterLog[|filterLog| - 1];
      var yes := CountLabel(tweets, true);
      var no := CountLabel(tweets, false);
      if first == 0 then Err(ZeroDivisionError)
      else if yes == 0 || no == 0 then Err(KeyError)
      else
        assert last <= first by { LogNonIncreasing(filterLog, |filterLog| - 1); }
        assert 0 < yes < yes + no;
        RatioBetween(yes, yes + no);
        Ok(Meta(|tweets|, filterLog, 1.0 - Ratio(last, first), Ratio(yes, yes + no), yes, no))
    }
  }

  /** Every entry of a non-increasing log is at most the first. */
  lemma {:induction false} LogNonIncreasing(log: seq<nat>, k: nat)
    requires k < |log|
    requires forall j :: 0 < j < |log| ==> log[j] <= log[j - 1]
    ensures log[k] <= log[0]
  {
    if k > 0 {
      LogNonIncreasing(log, k - 1);
    }
  }

}
