/** The pure helpers of src/hypotheses_testing/helpers.py: the epoch of a
    tweet relative to its firestorm, the regression formula, and the column
    bookkeeping of `dummify_categorical`. */
module HypothesesHelpers {
  import opened Wrappers
  import opened PyValues
  import PyStrings
  import DateTimes

  datatype Epoch = BeforePeak | Peak | AfterPeak

  /** `determine_time_epoch(entry_date, start_date, end_date)` on instants. */
  function TimeEpoch(entry: int, start: int, end: int): (e: Epoch)
    ensures e == BeforePeak <==> entry < start
    ensures e == AfterPeak <==> start <= entry && end <= entry
    ensures e == Peak <==> start <= entry < end
  {
    if entry < start then BeforePeak
    else if entry >= end then AfterPeak
    else Peak
  }

  /** An empty or inverted window has no peak. */
  lemma InvertedWindowHasNoPeak(entry: int, start: int, end: int)
    requires end <= start
    ensures TimeEpoch(entry, start, end) != Peak
  {
  }

  /** The instant of a datetime for comparisons: aware datetimes compare in
      UTC, naive ones on their wall clock. */
  function Instant(t: DateTimes.DateTime): int
    requires DateTimes.Valid(t)
  {
    match t.tz
    case None => DateTimes.Micros(t)
    case Some(z) => DateTimes.Micros(t) - z.offsetMinutes * DateTimes.MicrosPerMinute
  }

  /** `a < b` for two values: datetimes of the same kind compare, anything
      else (a naive and an aware datetime, `None`, a string) raises
      TypeError. */
  function LessThan(a: DateTimes.DateTime, b: Value): (r: Result<bool>)
    requires DateTimes.Valid(a)
    ensures r.Ok? <==> b.Date? && DateTimes.Valid(b.dt) && a.tz.Some? == b.dt.tz.Some?
    ensures r.Ok? ==> r.value == (Instant(a) < Instant(b.dt))
  {
    if b.Date? && DateTimes.Valid(b.dt) && a.tz.Some? == b.dt.tz.Some? then Ok(Instant(a) < Instant(b.dt))
    else Err(TypeError)
  }

  /** `determine_time_epoch_from_queries_dict(entry_date, name, queries)`:
      the window is the firestorm's `true_start_date` and `true_end_date`;
      the end is only compared with when the entry is not before the start. */
  function TimeEpochFromQueries(entry: DateTimes.DateTime, name: string, queries: Value): (r: Result<Epoch>)
    requires DateTimes.Valid(entry)
    ensures r.Ok? ==> Subscript(queries, name).Ok?
                      && var fs := Subscript(queries, name).value;
                      Subscript(fs, "true_start_date").Ok? && Subscript(fs, "true_end_date").Ok?
                      && var start := Subscript(fs, "true_start_date").value;
                      var end := Subscript(fs, "true_end_date").value;
                      && start.Date? && DateTimes.Valid(start.dt)
                      && (r.value != BeforePeak ==> end.Date? && DateTimes.Valid(end.dt)
                                                    && r.value == TimeEpoch(Instant(entry), Instant(start.dt), Instant(end.dt)))
                      && (r.value == BeforePeak <==> Instant(entry) < Instant(start.dt))
    ensures Subscript(queries, name).Err? ==> r.Err?
  {
    var fs :- Subscript(queries, name);
    var start :- Subscript(fs, "true_start_date");
    var end :- Subscript(fs, "true_end_date");
    var before :- LessThan(entry, start);
    if before then Ok(BeforePeak)
    else
      var beforeEnd :- LessThan(entry, end);
      if !beforeEnd then Ok(AfterPeak) else Ok(Peak)
  }

  /** The list without any copy of `x`, the rest in order. */
  function Without(xs: seq<string>, x: string): (r: seq<string>)
    ensures x !in r
    ensures forall y :: y != x ==> multiset(r)[y] == multiset(xs)[y]
    ensures forall y :: y in r <==> y in xs && y != x
  {
    if |xs| == 0 then []
    else
      var rest := Without(xs[1..], x);
      assert xs == [xs[0]] + xs[1..];
      if xs[0] == x then rest else [xs[0]] + rest
  }

  /** `formula_generator(y_var, column_names)`: `y ~ a + b + ...` over the
      columns other than `y`, in their order. */
  function FormulaGenerator(y: string, columnNames: seq<string>): (r: string)
    ensures PyStrings.StartsWith(r, y + " ~ ")
  {
    var rhs := PyStrings.Join(" + ", Without(columnNames, y));
    assert (y + " ~ " + rhs)[..|y + " ~ "|] == y + " ~ ";
    y + " ~ " + rhs
  }

  /** Removing a value that is not there changes nothing. */
  lemma {:induction false} WithoutAbsent(xs: seq<string>, x: string)
    requires x !in xs
    ensures Without(xs, x) == xs
  {
    if |xs| > 0 {
      WithoutAbsent(xs[1..], x);
    }
  }

  /** Removing a value from two lists laid end to end removes it from each. */
  lemma {:induction false} WithoutConcat(a: seq<string>, b: seq<string>, x: string)
    ensures Without(a + b, x) == Without(a, x) + Without(b, x)
  {
    if |a| > 0 {
      assert (a + b)[1..] == a[1..] + b;
      WithoutConcat(a[1..], b, x);
    } else {
      assert a + b == b;
    }
  }

  /** Without the dependent variable among the columns, the right-hand
      side is every column, in order. */
  lemma FormulaOverAllColumns(y: string, columnNames: seq<string>)
    requires y !in columnNames
    ensures FormulaGenerator(y, columnNames) == y + " ~ " + PyStrings.Join(" + ", columnNames)
  {
    WithoutAbsent(columnNames, y);
  }

  /** A copy of the dependent variable anywhere among the columns leaves
      the formula as it was. */
  lemma FormulaIgnoresY(y: string, a: seq<string>, b: seq<string>)
    ensures FormulaGenerator(y, a + [y] + b) == FormulaGenerator(y, a + b)
  {
    WithoutConcat(a + [y], b, y);
    WithoutConcat(a, [y], y);
    WithoutConcat(a, b, y);
    assert [y][1..] == [];
    assert Without([y], y) == [];
    assert Without(a + [y] + b, y) == Without(a, y) + Without(b, y);
  }

  /** `str.replace(" ", "_")` then `str.replace("-", "_")` on a dummy's
      column name. */
  function DummyName(v: string): (r: string)
    ensures |r| == |v| && ' ' !in r && '-' !in r
    ensures forall i :: 0 <= i < |v| ==> r[i] == if v[i] == ' ' || v[i] == '-' then '_' else v[i]
  {
    seq(|v|, i requires 0 <= i < |v| => if v[i] == ' ' || v[i] == '-' then '_' else v[i])
  }

  /** The columns of `pd.get_dummies(column)` for its categories, renamed,
      and without the base category's column when one is named: dropping a
      label that is not a column raises KeyError. */
  function DummyColumns(categories: seq<string>, valueToDrop: Option<string>): (r: Result<seq<string>>)
    ensures var names := seq(|categories|, i requires 0 <= i < |categories| => DummyName(categories[i]));
            r.Err? <==> valueToDrop.Some? && |valueToDrop.value| > 0 && valueToDrop.value !in names
    ensures r.Ok? ==> forall c :: c in r.value <==>
                        (exists i :: 0 <= i < |categories| && DummyName(categories[i]) == c)
                        && !(valueToDrop.Some? && |valueToDrop.value| > 0 && c == valueToDrop.value)
  {
    var names := seq(|categories|, i requires 0 <= i < |categories| => DummyName(categories[i]));
    assert forall c :: c in names <==> exists i :: 0 <= i < |categories| && DummyName(categories[i]) == c by {
      forall c | c in names ensures exists i :: 0 <= i < |categories| && DummyName(categories[i]) == c {
        var i :| 0 <= i < |names| && names[i] == c;
      }
      forall c | exists i :: 0 <= i < |categories| && DummyName(categories[i]) == c ensures c in names {
        var i :| 0 <= i < |categories| && DummyName(categories[i]) == c;
        assert names[i] == c;
      }
    }
    if valueToDrop.Some? && |valueToDrop.value| > 0 then
      if valueToDrop.value in names then Ok(Without(names, valueToDrop.value)) else Err(KeyError)
    else Ok(names)
  }

  /** The columns of `dummify_categorical(df, variable, value_to_drop)`: the
      frame's columns and the kept dummies, then every column named like
      the variable dropped. Selecting a missing variable raises KeyError. */
  function DummifyColumns(columns: seq<string>, variable: string, categories: seq<string>,
                          valueToDrop: Option<string>): (r: Result<seq<string>>)
    ensures r.Err? <==> variable !in columns || DummyColumns(categories, valueToDrop).Err?
    ensures r.Ok? ==> variable !in r.value
    ensures r.Ok? ==> forall c :: c in columns && c != variable ==> c in r.value
    ensures r.Ok? ==> forall c :: c in DummyColumns(categories, valueToDrop).value && c != variable ==> c in r.value
    ensures r.Ok? ==> forall c :: c in r.value ==> c in columns || c in DummyColumns(categories, valueToDrop).value
  {
    if variable !in columns then Err(KeyError)
    else
      var dummies :- DummyColumns(categories, valueToDrop);
      Ok(Without(columns + dummies, variable))
  }
}
