/** Tweet rows and the row filters of src/twitter_data/filters.py.

    A tweet row holds the columns the firestorm engine reads. Times are
    integers on one wall clock: `createdAt` in microseconds, `hour` and
    `sixHourSlot` as hour ordinals (hours since 0001-01-01 00:00), so that
    hour `h` lies on day `h / 24`. A filter is a row predicate; applying it
    keeps the matching rows in their original order, as a boolean mask on a
    DataFrame does. */
module Filters {
  import opened Wrappers
  import opened PyValues
  import DateTimes

  /** One preprocessed row. `tweetType` and `userType` are categorical
      columns with fixed levels, so a value outside the levels is missing. */
  datatype Tweet = Tweet(
    createdAt: int,
    hour: int,
    sixHourSlot: int,
    lang: string,
    tweetType: Option<string>,
    userType: Option<string>,
    isOffensive: Option<bool>,
    authorId: string)

  /** The columns a filter or a rate column can name. */
  datatype Column = CreatedAt | Hour | SixHourSlot | Lang | TweetType | UserType | IsOffensive | AuthorId

  /** The integer-valued (time) columns. */
  predicate IsTimeColumn(c: Column) {
    c == CreatedAt || c == Hour || c == SixHourSlot
  }

  /** The cell of row `t` in column `c`; a missing category and an
      unlabelled `is_offensive` are `None`. */
  function Cell(t: Tweet, c: Column): Value {
    match c
    case CreatedAt => Int(t.createdAt)
    case Hour => Int(t.hour)
    case SixHourSlot => Int(t.sixHourSlot)
    case Lang => Str(t.lang)
    case TweetType => (match t.tweetType case Some(s) => Str(s) case None => Null)
    case UserType => (match t.userType case Some(s) => Str(s) case None => Null)
    case IsOffensive => (match t.isOffensive case Some(b) => Bool(b) case None => Null)
    case AuthorId => Str(t.authorId)
  }

  /** The value of a time column. */
  function TimeOf(t: Tweet, c: Column): int
    requires IsTimeColumn(c)
  {
    if c == CreatedAt then t.createdAt else if c == Hour then t.hour else t.sixHourSlot
  }

  /** Element-wise `series == value`: a missing cell never compares equal,
      and comparing with `None` is false for every row. */
  predicate CellEquals(t: Tweet, c: Column, v: Value) {
    !v.Null? && Cell(t, c) == v
  }

  /** `equality_filter_factory(attribute, expected)` and
      `between_filter_factory(attribute, lower, upper)` (on a time column). */
  datatype Filter =
    | Equality(attribute: Column, expected: Value)
    | Between(timeAttribute: Column, lower: int, upper: int)

  predicate WellFormed(f: Filter) {
    f.Between? ==> IsTimeColumn(f.timeAttribute)
  }

  /** Whether the filter's mask is true on row `t`: the between filter is the
      half-open range `lower <= x < upper`. */
  predicate Keeps(f: Filter, t: Tweet)
    requires WellFormed(f)
  {
    match f
    case Equality(c, v) => CellEquals(t, c, v)
    case Between(c, lo, hi) => lo <= TimeOf(t, c) < hi
  }

  /** `s` is `full` with some rows left out and the rest in their order. */
  predicate IsSubsequence(s: seq<Tweet>, full: seq<Tweet>)
    decreases |full|
  {
    if |s| == 0 then true
    else if |full| == 0 then false
    else if s[0] == full[0] then IsSubsequence(s[1..], full[1..])
    else IsSubsequence(s, full[1..])
  }

  /** `tweets[mask]`: the rows the filter keeps, in their original order. */
  function Apply(f: Filter, rows: seq<Tweet>): (r: seq<Tweet>)
    requires WellFormed(f)
    ensures |r| <= |rows|
    ensures forall t :: t in r <==> t in rows && Keeps(f, t)
    ensures IsSubsequence(r, rows)
  {
    if |rows| == 0 then []
    else
      var rest := Apply(f, rows[1..]);
      assert rows == [rows[0]] + rows[1..];
      if Keeps(f, rows[0]) then [rows[0]] + rest else rest
  }

  /** Every copy of a kept row survives and every copy of a dropped row
      goes. */
  lemma {:induction false} ApplyCounts(f: Filter, rows: seq<Tweet>, t: Tweet)
    requires WellFormed(f)
    ensures multiset(Apply(f, rows))[t] == if Keeps(f, t) then multiset(rows)[t] else 0
  {
    if |rows| > 0 {
      ApplyCounts(f, rows[1..], t);
      assert rows == [rows[0]] + rows[1..];
    }
  }

  /** A filter keeps every row of a selection it made: applying it twice is
      applying it once. */
  lemma FilterIdempotent(f: Filter, rows: seq<Tweet>)
    requires WellFormed(f)
    ensures Apply(f, Apply(f, rows)) == Apply(f, rows)
  {
    ApplyKeepsAll(f, Apply(f, rows));
  }

  lemma {:induction false} ApplyKeepsAll(f: Filter, rows: seq<Tweet>)
    requires WellFormed(f)
    requires forall t :: t in rows ==> Keeps(f, t)
    ensures Apply(f, rows) == rows
  {
    if |rows| > 0 {
      ApplyKeepsAll(f, rows[1..]);
      assert rows == [rows[0]] + rows[1..];
    }
  }

  /** A filter that keeps no row of a frame leaves it empty. */
  lemma {:induction false} ApplyKeepsNone(f: Filter, rows: seq<Tweet>)
    requires WellFormed(f)
    requires forall t :: t in rows ==> !Keeps(f, t)
    ensures Apply(f, rows) == []
  {
    if |rows| > 0 {
      ApplyKeepsNone(f, rows[1..]);
    }
  }

  /** A between filter whose lower bound is not below its upper bound keeps
      nothing. */
  lemma {:induction false} BetweenEmpty(c: Column, lower: int, upper: int, rows: seq<Tweet>)
    requires IsTimeColumn(c) && lower >= upper
    ensures Apply(Between(c, lower, upper), rows) == []
  {
    if |rows| > 0 {
      BetweenEmpty(c, lower, upper, rows[1..]);
    }
  }

  /** Two filters applied one after the other give the same rows in either
      order. */
  lemma {:induction false} FiltersCommute(f: Filter, g: Filter, rows: seq<Tweet>)
    requires WellFormed(f) && WellFormed(g)
    ensures Apply(g, Apply(f, rows)) == Apply(f, Apply(g, rows))
  {
    if |rows| > 0 {
      FiltersCommute(f, g, rows[1..]);
    }
  }

  /** Filters applied one after another, each to the previous output. */
  function ApplyAll(filters: seq<Filter>, rows: seq<Tweet>): (r: seq<Tweet>)
    requires forall i :: 0 <= i < |filters| ==> WellFormed(filters[i])
    ensures |r| <= |rows|
    ensures forall t :: t in r <==> t in rows && forall i :: 0 <= i < |filters| ==> Keeps(filters[i], t)
  {
    if |filters| == 0 then rows
    else Apply(filters[|filters| - 1], ApplyAll(filters[..|filters| - 1], rows))
  }

  /** A time bound read from a query dict as microseconds: the key must be
      there and hold a datetime. */
  function TimeBound(query: seq<Entry>, key: string): (r: Result<int>)
    ensures r.Ok? <==> key in Keys(query) && Get(query, key).value.Date?
                       && DateTimes.Valid(Get(query, key).value.dt)
    ensures r.Ok? ==> r.value == DateTimes.Micros(Get(query, key).value.dt)
  {
    match Get(query, key)
    case None => Err(KeyError)
    case Some(v) =>
      if v.Date? && DateTimes.Valid(v.dt) then Ok(DateTimes.Micros(v.dt)) else Err(TypeError)
  }

  /** `default_filters_factory(query_dict)`: tweets created in
      `[true_start_date, true_end_date)`, then German tweets. */
  function DefaultFilters(query: seq<Entry>): (r: Result<seq<Filter>>)
    ensures r.Ok? <==> TimeBound(query, "true_start_date").Ok? && TimeBound(query, "true_end_date").Ok?
    ensures r.Ok? ==> r.value == [Between(CreatedAt, TimeBound(query, "true_start_date").value,
                                          TimeBound(query, "true_end_date").value),
                                  Equality(Lang, Str("de"))]
    ensures "true_start_date" !in Keys(query) ==> r == Err(KeyError)
  {
    var lo :- TimeBound(query, "true_start_date");
    var hi :- TimeBound(query, "true_end_date");
    Ok([Between(CreatedAt, lo, hi), Equality(Lang, Str("de"))])
  }

  /** After the default filters exactly the German tweets created in
      `[lo, hi)` remain, in order, whichever of the two runs first. */
  lemma DefaultFiltersSelect(lo: int, hi: int, rows: seq<Tweet>)
    ensures var fs := [Between(CreatedAt, lo, hi), Equality(Lang, Str("de"))];
            && ApplyAll(fs, rows) == Apply(fs[0], Apply(fs[1], rows))
            && (forall t :: t in ApplyAll(fs, rows) <==> t in rows && lo <= t.createdAt < hi && t.lang == "de")
  {
    var fs := [Between(CreatedAt, lo, hi), Equality(Lang, Str("de"))];
    ApplyAllPair(fs[0], fs[1], rows);
    FiltersCommute(fs[0], fs[1], rows);
    GermanInRange(lo, hi, rows);
  }

  /** Two filters in a row are the second applied to the first's output. */
  lemma ApplyAllPair(f: Filter, g: Filter, rows: seq<Tweet>)
    requires WellFormed(f) && WellFormed(g)
    ensures ApplyAll([f, g], rows) == Apply(g, Apply(f, rows))
  {
    var fs := [f, g];
    assert fs[..1] == [f];
    assert [f][..0] == [];
    assert ApplyAll([f], rows) == Apply(f, rows);
    assert ApplyAll(fs, rows) == Apply(g, ApplyAll([f], rows));
  }

  /** Membership after the language filter and then the time range. */
  lemma GermanInRange(lo: int, hi: int, rows: seq<Tweet>)
    ensures forall t :: t in Apply(Between(CreatedAt, lo, hi), Apply(Equality(Lang, Str("de")), rows))
                        <==> t in rows && lo <= t.createdAt < hi && t.lang == "de"
  {
    forall t {
      KeepsLang(t, "de");
    }
  }

  /** The equality filter on `lang` keeps exactly the rows in that language. */
  lemma KeepsLang(t: Tweet, lang: string)
    ensures Keeps(Equality(Lang, Str(lang)), t) <==> t.lang == lang
  {
    assert Cell(t, Lang) == Str(t.lang);
  }
}
