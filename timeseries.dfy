/** The `Timeseries` class of src/ts_analysis/timeseries.py and of its copy
    src/twitter_data/timeseries.py, and the CSV loader of the former.

    Values are reals. Python's `float()` on a CSV cell and the trend
    extraction of `seasonal_decompose` are outside the model: they are
    parameters, each answering `None` where the original raises. */
module Series {
  import opened Wrappers

  /** The largest entry of a non-empty series: `max(self._y)`. */
  function Max(ys: seq<real>): (m: real)
    requires |ys| > 0
    ensures forall i :: 0 <= i < |ys| ==> ys[i] <= m
    ensures exists i :: 0 <= i < |ys| && ys[i] == m
  {
    if |ys| == 1 then ys[0]
    else
      var rest := Max(ys[1..]);
      assert forall i :: 1 <= i < |ys| ==> ys[i] == ys[1..][i - 1];
      if ys[0] >= rest then ys[0] else rest
  }

  /** Every entry divided by `m`. */
  function Scaled(ys: seq<real>, m: real): (r: seq<real>)
    requires m != 0.0
    ensures |r| == |ys| && forall i :: 0 <= i < |ys| ==> r[i] == ys[i] / m
  {
    seq(|ys|, i requires 0 <= i < |ys| => ys[i] / m)
  }

  /** The series `normalize` produces: the error `max` or the division
      raises, or every entry divided by the maximum. */
  function Normalized(ys: seq<real>): (r: Result<seq<real>>)
    ensures |ys| == 0 ==> r == Err(ValueError)
    ensures |ys| > 0 && Max(ys) == 0.0 ==> r == Err(ZeroDivisionError)
    ensures r.Ok? ==> |ys| > 0 && Max(ys) != 0.0 && r.value == Scaled(ys, Max(ys))
  {
    if |ys| == 0 then Err(ValueError)
    else if Max(ys) == 0.0 then Err(ZeroDivisionError)
    else Ok(Scaled(ys, Max(ys)))
  }

  /** With a positive maximum the normalised series has maximum 1, the
      busiest entries become exactly 1 and no entry exceeds 1. */
  lemma NormalizedMaxIsOne(ys: seq<real>)
    requires |ys| > 0 && Max(ys) > 0.0
    ensures Normalized(ys).Ok?
    ensures var n := Normalized(ys).value;
            && |n| == |ys| && Max(n) == 1.0
            && forall i :: 0 <= i < |ys| ==> (n[i] == 1.0 <==> ys[i] == Max(ys))
  {
    var m := Max(ys);
    var n := Scaled(ys, m);
    forall i | 0 <= i < |ys|
      ensures n[i] <= 1.0
      ensures n[i] == 1.0 <==> ys[i] == m
    {
      DivAtMostOne(ys[i], m);
    }
    var j :| 0 <= j < |ys| && ys[j] == m;
    var k :| 0 <= k < |n| && n[k] == Max(n);
    assert n[j] <= Max(n);
  }

  lemma DivAtMostOne(a: real, m: real)
    requires m > 0.0 && a <= m
    ensures a / m <= 1.0
    ensures a / m == 1.0 <==> a == m
  {
    if a / m == 1.0 {
      assert a == (a / m) * m;
    }
  }

  /** Normalising a normalised series with a positive maximum changes
      nothing. */
  lemma NormalizeIdempotent(ys: seq<real>)
    requires |ys| > 0 && Max(ys) > 0.0
    ensures Normalized(ys).Ok? && Normalized(Normalized(ys).value) == Normalized(ys)
  {
    NormalizedMaxIsOne(ys);
    var n := Normalized(ys).value;
    assert Scaled(n, 1.0) == n;
  }

  /** The `x` axis the constructor sets when none is passed. */
  function Positions(n: nat): (r: seq<int>)
    ensures |r| == n && forall i :: 0 <= i < n ==> r[i] == i
  {
    seq(n, i => i)
  }

  class Timeseries {
    var y: seq<real>
    /** `_x`: set only when no `x` (or an empty one) is passed. */
    var x: Option<seq<int>>

    /** `Timeseries(y, x)`: `y` converted entry by entry; `not x` holds for
        a missing and for an empty `x`, and only then is `_x` set. */
    constructor (values: seq<real>, xs: Option<seq<int>>)
      ensures y == values
      ensures xs.None? || |xs.value| == 0 ==> x == Some(Positions(|values|))
      ensures xs.Some? && |xs.value| > 0 ==> x.None?
    {
      y := values;
      if xs.None? || |xs.value| == 0 {
        x := Some(Positions(|values|));
      } else {
        x := None;
      }
    }

    /** `len(ts)`: the number of values. */
    function Length(): (n: nat)
      reads this
      ensures n == |y|
    {
      |y|
    }

    /** The `x` property: an object whose `_x` was never set raises
        AttributeError. */
    function X(): (r: Result<seq<int>>)
      reads this
      ensures r.Ok? <==> x.Some?
      ensures r.Err? ==> r.error == AttributeError
    {
      match x
      case Some(v) => Ok(v)
      case None => Err(AttributeError)
    }

    /** `normalize()`: `y` is replaced by the normalised series; when `max`
        or the division raises, `y` is left as it was. */
    method Normalize() returns (r: Result<()>)
      modifies this
      ensures x == old(x)
      ensures Normalized(old(y)).Ok? ==> r.Ok? && y == Normalized(old(y)).value
      ensures Normalized(old(y)).Err? ==> r == Err(Normalized(old(y)).error) && y == old(y)
    {
      if |y| == 0 {
        return Err(ValueError);
      }
      var m := Max(y);
      if m == 0.0 {
        return Err(ZeroDivisionError);
      }
      y := Scaled(y, m);
      r := Ok(());
    }
  }

  // ------------------------------------------------------------ the loader

  /** One entry of the loader's output: the firestorm's name and its
      values. */
  datatype Named = Named(name: string, values: seq<real>)

  /** `float()` on every cell, failing on the first cell it rejects. */
  function Floats(cells: seq<string>, toFloat: string -> Option<real>): (r: Result<seq<real>>)
    ensures r.Ok? ==> |r.value| == |cells|
                      && forall i :: 0 <= i < |cells| ==> toFloat(cells[i]) == Some(r.value[i])
    ensures r.Err? <==> exists i :: 0 <= i < |cells| && toFloat(cells[i]).None?
  {
    if |cells| == 0 then Ok([])
    else
      match toFloat(cells[0])
      case None => Err(ValueError)
      case Some(v) =>
        var rest := Floats(cells[1..], toFloat);
        assert forall i :: 1 <= i < |cells| ==> cells[1..][i - 1] == cells[i];
        if rest.Err? then rest else Ok([v] + rest.value)
  }

  /** What one CSV row contributes: `None` for a row whose trend cannot be
      extracted (it is skipped), else the named series, normalised when
      asked. */
  function RowEntry(row: seq<string>, normalize: bool, onlyTrend: bool,
                    toFloat: string -> Option<real>, trend: seq<real> -> Option<seq<real>>): Result<Option<Named>>
  {
    if |row| == 0 then Err(IndexError)
    else
      var ys :- Floats(row[1..], toFloat);
      if onlyTrend && trend(ys).None? then Ok(None)
      else
        var series := if onlyTrend then trend(ys).value else ys;
        if normalize then
          var n :- Normalized(series);
          Ok(Some(Named(row[0], n)))
        else Ok(Some(Named(row[0], series)))
  }

  /** The loader's result on the rows read so far: the first failing row
      aborts the whole load. */
  function Loaded(rows: seq<seq<string>>, normalize: bool, onlyTrend: bool,
                  toFloat: string -> Option<real>, trend: seq<real> -> Option<seq<real>>): Result<seq<Named>>
  {
    if |rows| == 0 then Ok([])
    else
      var before :- Loaded(rows[..|rows| - 1], normalize, onlyTrend, toFloat, trend);
      var entry :- RowEntry(rows[|rows| - 1], normalize, onlyTrend, toFloat, trend);
      Ok(before + (if entry.Some? then [entry.value] else []))
  }

  /** `load_ts_from_csv(file_name, normalize, only_trend)` on the file's rows:
      each row builds a `Timeseries` from its cells after the first, which
      is the name; rows are kept in file order. */
  method LoadFromCsv(rows: seq<seq<string>>, normalize: bool, onlyTrend: bool,
                     toFloat: string -> Option<real>, trend: seq<real> -> Option<seq<real>>)
    returns (r: Result<seq<Named>>)
    ensures r == Loaded(rows, normalize, onlyTrend, toFloat, trend)
  {
    var data: seq<Named> := [];
    for i := 0 to |rows|
      invariant Loaded(rows[..i], normalize, onlyTrend, toFloat, trend) == Ok(data)
    {
      LoadedNext(rows, i, normalize, onlyTrend, toFloat, trend);
      var row := rows[i];
      if |row| == 0 {
        LoadedFailsEarly(rows, i + 1, normalize, onlyTrend, toFloat, trend);
        return Err(IndexError);
      }
      var ys := Floats(row[1..], toFloat);
      if ys.Err? {
        LoadedFailsEarly(rows, i + 1, normalize, onlyTrend, toFloat, trend);
        return Err(ys.error);
      }
      var ts := new Timeseries(ys.value, None);
      if onlyTrend {
        var tr := trend(ts.y);
        if tr.None? {
          assert RowEntry(row, normalize, onlyTrend, toFloat, trend) == Ok(None);
          assert data + [] == data;
          continue;
        }
        ts := new Timeseries(tr.value, None);
      }
      if normalize {
        var n := ts.Normalize();
        if n.Err? {
          LoadedFailsEarly(rows, i + 1, normalize, onlyTrend, toFloat, trend);
          return Err(n.error);
        }
      }
      assert RowEntry(row, normalize, onlyTrend, toFloat, trend) == Ok(Some(Named(row[0], ts.y)));
      data := data + [Named(row[0], ts.y)];
    }
    assert rows[..|rows|] == rows;
    r := Ok(data);
  }

  /** One more row after a load without failure so far. */
  lemma LoadedNext(rows: seq<seq<string>>, i: nat, normalize: bool, onlyTrend: bool,
                   toFloat: string -> Option<real>, trend: seq<real> -> Option<seq<real>>)
    requires i < |rows| && Loaded(rows[..i], normalize, onlyTrend, toFloat, trend).Ok?
    ensures var before := Loaded(rows[..i], normalize, onlyTrend, toFloat, trend).value;
      Loaded(rows[..i + 1], normalize, onlyTrend, toFloat, trend) ==
        match RowEntry(rows[i], normalize, onlyTrend, toFloat, trend)
        case Err(e) => Err(e)
        case Ok(entry) => Ok(before + (if entry.Some? then [entry.value] else []))
  {
    var longer := rows[..i + 1];
    assert longer[..|longer| - 1] == rows[..i] && longer[|longer| - 1] == rows[i];
  }

  /** A failing prefix decides the load: later rows are never read. */
  lemma {:induction false} LoadedFailsEarly(rows: seq<seq<string>>, k: nat, normalize: bool, onlyTrend: bool,
                                            toFloat: string -> Option<real>, trend: seq<real> -> Option<seq<real>>)
    requires k <= |rows| && Loaded(rows[..k], normalize, onlyTrend, toFloat, trend).Err?
    ensures Loaded(rows, normalize, onlyTrend, toFloat, trend) == Loaded(rows[..k], normalize, onlyTrend, toFloat, trend)
    decreases |rows| - k
  {
    if k < |rows| {
      var longer := rows[..k + 1];
      assert longer[..|longer| - 1] == rows[..k];
      LoadedFailsEarly(rows, k + 1, normalize, onlyTrend, toFloat, trend);
    } else {
      assert rows[..k] == rows;
    }
  }

  /** Without failures every row with a trend yields one entry, and the
      entries follow the rows' order: the names are the rows' first cells. */
  lemma {:induction false} LoadedNames(rows: seq<seq<string>>, toFloat: string -> Option<real>)
    requires Loaded(rows, false, false, toFloat, s => Some(s)).Ok?
    ensures var data := Loaded(rows, false, false, toFloat, s => Some(s)).value;
            && |data| == |rows|
            && forall i :: 0 <= i < |rows| ==> |rows[i]| > 0 && data[i].name == rows[i][0]
                                               && |data[i].values| == |rows[i]| - 1
  {
    if |rows| > 0 {
      var init := rows[..|rows| - 1];
      LoadedNames(init, toFloat);
      assert forall i :: 0 <= i < |init| ==> init[i] == rows[i];
    }
  }
}
