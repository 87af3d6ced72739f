/** The per-firestorm overview: the metadata row written for each
    firestorm, its hourly tweet quantities and offensiveness, and the
    statistics on how many tweets the filtering steps cut, read back from the
    overview file. */
module Overview {
  import opened Wrappers
  import opened PyValues
  import opened PyStrings
  import DateTimes

  // ------------------------------------------------- the metadata row

  /** Every datetime in the dict is a real one (Python builds no other). */
  predicate DatesValid(e: seq<Entry>) {
    forall i :: 0 <= i < |e| && e[i].val.Date? ==> DateTimes.Valid(e[i].val.dt)
  }

  /** A datetime replaced by its ISO text; any other value kept. */
  function IsoOf(v: Value): (r: Value)
    requires v.Date? ==> DateTimes.Valid(v.dt)
    ensures !r.Date?
    ensures !v.Date? ==> r == v
  {
    if v.Date? then Str(DateTimes.IsoFormat(v.dt)) else v
  }

  /** The dict after the loop that overwrites each datetime value with its
      ISO text, in place. */
  function Isoformatted(e: seq<Entry>): (r: seq<Entry>)
    requires DatesValid(e)
    ensures Keys(r) == Keys(e)
    ensures forall i :: 0 <= i < |r| ==> !r[i].val.Date?
  {
    seq(|e|, i requires 0 <= i < |e| => Entry(e[i].key, IsoOf(e[i].val)))
  }

  lemma {:induction false} PutDatesValid(e: seq<Entry>, k: string, v: Value)
    requires DatesValid(e) && (v.Date? ==> DateTimes.Valid(v.dt))
    ensures DatesValid(Put(e, k, v))
  {
    if |e| > 0 && e[0].key != k {
      PutDatesValid(e[1..], k, v);
      assert Put(e, k, v) == [e[0]] + Put(e[1..], k, v);
    }
  }

  lemma {:induction false} UpdateDatesValid(a: seq<Entry>, b: seq<Entry>)
    requires DatesValid(a) && DatesValid(b)
    ensures DatesValid(Update(a, b))
    decreases |b|
  {
    if |b| > 0 {
      PutDatesValid(a, b[0].key, b[0].val);
      UpdateDatesValid(Put(a, b[0].key, b[0].val), b[1..]);
    }
  }

  /** `get_firestorms_metadata` with `firestorm.metadata()` given as
      `metadata`: the query dict merged over the metadata, then every
      datetime value overwritten with its ISO text. */
  method FirestormsMetadata(metadata: seq<Entry>, queryDict: seq<Entry>) returns (out: seq<Entry>)
    requires DatesValid(metadata) && DatesValid(queryDict)
    ensures DatesValid(Update(metadata, queryDict)) && out == Isoformatted(Update(metadata, queryDict))
  {
    out := Update(metadata, queryDict);
    UpdateDatesValid(metadata, queryDict);
    ghost var merged := out;
    for i := 0 to |out|
      invariant |out| == |merged|
      invariant out[..i] == Isoformatted(merged)[..i]
      invariant out[i..] == merged[i..]
    {
      IsoformatStep(merged, out, i);
      if out[i].val.Date? {
        out := out[i := Entry(out[i].key, Str(DateTimes.IsoFormat(out[i].val.dt)))];
      }
    }
    assert out == out[..|out|];
  }

  /** One pass of the loop in `FirestormsMetadata`: entry `i` takes its ISO
      value, the entries before it are done and those after it untouched. */
  lemma IsoformatStep(merged: seq<Entry>, out: seq<Entry>, i: nat)
    requires DatesValid(merged) && |out| == |merged| && i < |out|
    requires out[..i] == Isoformatted(merged)[..i] && out[i..] == merged[i..]
    ensures var next := if out[i].val.Date?
                        then out[i := Entry(out[i].key, Str(DateTimes.IsoFormat(out[i].val.dt)))]
                        else out;
            next[..i + 1] == Isoformatted(merged)[..i + 1] && next[i + 1..] == merged[i + 1..]
  {
    var iso := Isoformatted(merged);
    assert out[i] == merged[i];
    var next := if out[i].val.Date?
                then out[i := Entry(out[i].key, Str(DateTimes.IsoFormat(out[i].val.dt)))]
                else out;
    assert next[i] == iso[i];
    assert next[..i + 1] == out[..i] + [next[i]];
    assert iso[..i + 1] == iso[..i] + [iso[i]];
    assert next[i + 1..] == out[i + 1..];
  }

  lemma {:induction false} GetIsoformatted(e: seq<Entry>, k: string)
    requires DatesValid(e)
    ensures Get(Isoformatted(e), k) == if k in Keys(e) then Some(IsoOf(Get(e, k).value)) else None
  {
    if |e| > 0 && e[0].key != k {
      assert DatesValid(e[1..]);
      GetIsoformatted(e[1..], k);
      assert Isoformatted(e)[1..] == Isoformatted(e[1..]);
      assert Keys(e) == [e[0].key] + Keys(e[1..]);
    }
  }

  /** The row holds every key of the metadata and of the query dict; the
      query dict's value wins on a shared key; a datetime comes out as its
      ISO text and every other value as it was. */
  lemma MetadataGet(metadata: seq<Entry>, queryDict: seq<Entry>, k: string)
    requires DatesValid(metadata) && DatesValid(queryDict) && UniqueKeys(queryDict)
    ensures DatesValid(Update(metadata, queryDict))
    ensures Get(Isoformatted(Update(metadata, queryDict)), k) ==
      if k in Keys(queryDict) then Some(IsoOf(Get(queryDict, k).value))
      else if k in Keys(metadata) then Some(IsoOf(Get(metadata, k).value))
      else None
  {
    UpdateDatesValid(metadata, queryDict);
    UpdateGet(metadata, queryDict, k);
    GetIsoformatted(Update(metadata, queryDict), k);
  }

  // ------------------------------------------------- hourly projections

  /** `astype("int64")` on a float: truncation toward zero. */
  function Trunc(x: real): (n: int)
    ensures x >= 0.0 ==> n as real <= x < n as real + 1.0
    ensures x < 0.0 ==> n as real - 1.0 < x <= n as real
  {
    if x >= 0.0 then x.Floor else -((-x).Floor)
  }

  /** `tweet_quantity_per_hour`: one integer per hourly row of the
      `total_tweets` column, in time order. */
  function TweetQuantityPerHour(totals: seq<real>): (r: seq<int>)
    ensures |r| == |totals|
    ensures forall i :: 0 <= i < |r| ==> r[i] == Trunc(totals[i])
  {
    seq(|totals|, i requires 0 <= i < |totals| => Trunc(totals[i]))
  }

  /** Whole tweet counts come through as they are. */
  lemma QuantitiesOfCounts(counts: seq<nat>)
    ensures TweetQuantityPerHour(seq(|counts|, i requires 0 <= i < |counts| => counts[i] as real)) == counts
  {
  }

  /** Python's `round(y)`: to the nearest integer, halves to the even one. */
  function RoundHalfEven(y: real): (n: int)
    ensures y - 0.5 <= n as real <= y + 0.5
  {
    var f := y.Floor;
    var d := y - f as real;
    if d < 0.5 then f
    else if d > 0.5 then f + 1
    else if f % 2 == 0 then f else f + 1
  }

  /** `round(x, 4)` on the exact value. */
  function Round4(x: real): (r: real)
    ensures x - 0.00005 <= r <= x + 0.00005
  {
    RoundHalfEven(x * 10000.0) as real / 10000.0
  }

  /** `offensiveness_per_hour`: one rounded percentage per hourly row. */
  function OffensivenessPerHour(pcts: seq<real>): (r: seq<real>)
    ensures |r| == |pcts|
    ensures forall i :: 0 <= i < |r| ==> pcts[i] - 0.00005 <= r[i] <= pcts[i] + 0.00005
  {
    seq(|pcts|, i requires 0 <= i < |pcts| => Round4(pcts[i]))
  }

  // ------------------------------------------------- filter cuts

  /** `int(entry)` for every piece, the first bad one raising. */
  function ParseAll(parts: seq<string>): (r: Result<seq<int>>)
    ensures r.Ok? ==> |r.value| == |parts|
    ensures r.Err? ==> r.error == ValueError
  {
    if |parts| == 0 then Ok([])
    else
      var x :- ParseInt(parts[0]);
      var rest :- ParseAll(parts[1..]);
      Ok([x] + rest)
  }

  /** The filter log read back from its cell: the brackets removed, split at
      the commas, every piece read as an integer. */
  function ParseLog(cell: string): (r: Result<seq<int>>)
    ensures r.Ok? ==> |r.value| >= 1
    ensures r.Err? ==> r.error == ValueError
  {
    ParseAll(SplitOn(RemoveAll(RemoveAll(cell, '['), ']'), ','))
  }

  /** The elements of `str(xs)` for a non-empty list of integers: each one's
      digits, separated by a comma and a space. */
  function ReprItems(xs: seq<int>): string
    requires |xs| > 0
  {
    if |xs| == 1 then IntToString(xs[0]) else IntToString(xs[0]) + ", " + ReprItems(xs[1..])
  }

  /** `str(xs)` for a list of integers. */
  function Repr(xs: seq<int>): (r: string)
    ensures |r| >= 2 && r[0] == '[' && r[|r| - 1] == ']'
    ensures |r| == 2 <==> |xs| == 0
  {
    if |xs| == 0 then "[]" else "[" + ReprItems(xs) + "]"
  }

  predicate NumberChar(c: char) {
    IsDigit(c) || c == '-'
  }

  lemma IntStringChars(i: int)
    ensures forall k :: 0 <= k < |IntToString(i)| ==> NumberChar(IntToString(i)[k])
    ensures |IntToString(i)| > 0 && !IsSpace(IntToString(i)[0])
  {
  }

  lemma {:induction false} ReprItemsChars(xs: seq<int>)
    requires |xs| > 0
    ensures forall k :: 0 <= k < |ReprItems(xs)| ==> NumberChar(ReprItems(xs)[k]) || ReprItems(xs)[k] in ", "
  {
    IntStringChars(xs[0]);
    if |xs| > 1 {
      ReprItemsChars(xs[1..]);
      var a := IntToString(xs[0]);
      var b := ReprItems(xs[1..]);
      forall k | 0 <= k < |a + ", " + b|
        ensures NumberChar((a + ", " + b)[k]) || (a + ", " + b)[k] in ", "
      {
        if k >= |a| + 2 {
          assert (a + ", " + b)[k] == b[k - |a| - 2];
        }
      }
    }
  }

  /** Reading the items back, with white space in front of the first. */
  lemma {:induction false} ReprItemsRoundTrip(xs: seq<int>, pad: string)
    requires |xs| > 0
    requires forall k :: 0 <= k < |pad| ==> IsSpace(pad[k])
    ensures ParseAll(SplitOn(pad + ReprItems(xs), ',')) == Ok(xs)
  {
    if |xs| == 1 {
      LastItemRoundTrip(xs, pad);
    } else {
      ReprItemsRoundTrip(xs[1..], " ");
      NextItemRoundTrip(xs, pad);
    }
  }

  /** The last item alone is one part. */
  lemma LastItemRoundTrip(xs: seq<int>, pad: string)
    requires |xs| == 1
    requires forall k :: 0 <= k < |pad| ==> IsSpace(pad[k])
    ensures ParseAll(SplitOn(pad + ReprItems(xs), ',')) == Ok(xs)
  {
    var a := pad + IntToString(xs[0]);
    ItemRoundTrip(xs[0], pad);
    assert pad + ReprItems(xs) == a;
    SplitOnFree(a, ',');
    ParseCons(a, [], xs[0], []);
    assert [xs[0]] + [] == xs;
  }

  /** An item in front of the others: the comma after it splits it off. */
  lemma NextItemRoundTrip(xs: seq<int>, pad: string)
    requires |xs| > 1
    requires forall k :: 0 <= k < |pad| ==> IsSpace(pad[k])
    requires ParseAll(SplitOn(" " + ReprItems(xs[1..]), ',')) == Ok(xs[1..])
    ensures ParseAll(SplitOn(pad + ReprItems(xs), ',')) == Ok(xs)
  {
    var a := pad + IntToString(xs[0]);
    ItemRoundTrip(xs[0], pad);
    var rest := " " + ReprItems(xs[1..]);
    ReprItemsCons(xs, pad);
    SplitPart(a, rest, xs);
  }

  /** A comma-free part that parses, a comma, then parts that parse. */
  lemma SplitPart(a: string, rest: string, xs: seq<int>)
    requires |xs| > 0 && ',' !in a && ParseInt(a) == Ok(xs[0])
    requires ParseAll(SplitOn(rest, ',')) == Ok(xs[1..])
    ensures ParseAll(SplitOn(a + [','] + rest, ',')) == Ok(xs)
  {
    SplitOnAppend(a, rest, ',');
    ParseCons(a, SplitOn(rest, ','), xs[0], xs[1..]);
    assert [xs[0]] + xs[1..] == xs;
  }

  /** `str` of a longer list: the first item, a comma, then a space and the
      rest. */
  lemma ReprItemsCons(xs: seq<int>, pad: string)
    requires |xs| > 1
    ensures pad + ReprItems(xs) == (pad + IntToString(xs[0])) + [','] + (" " + ReprItems(xs[1..]))
  {
    var x, r := IntToString(xs[0]), ReprItems(xs[1..]);
    assert ReprItems(xs) == x + ", " + r;
    assert ", " == [','] + " ";
    Regroup(pad, x, ',', " ", r);
  }

  lemma Regroup<T>(p: seq<T>, x: seq<T>, c: T, sp: seq<T>, r: seq<T>)
    ensures p + (x + ([c] + sp) + r) == (p + x) + [c] + (sp + r)
  {
  }

  /** One item with white space in front holds no comma and parses back. */
  lemma ItemRoundTrip(x: int, pad: string)
    requires forall k :: 0 <= k < |pad| ==> IsSpace(pad[k])
    ensures ',' !in pad + IntToString(x)
    ensures ParseInt(pad + IntToString(x)) == Ok(x)
  {
    var a := pad + IntToString(x);
    IntStringChars(x);
    IntRoundTrip(x, pad);
    forall k | 0 <= k < |a| ensures a[k] != ',' {
      if k >= |pad| {
        assert a[k] == IntToString(x)[k - |pad|];
      }
    }
  }

  /** Parsing a good part in front of good parts. */
  lemma ParseCons(a: string, parts: seq<string>, x: int, rest: seq<int>)
    requires ParseInt(a) == Ok(x) && ParseAll(parts) == Ok(rest)
    ensures ParseAll([a] + parts) == Ok([x] + rest)
  {
    assert ([a] + parts)[0] == a && ([a] + parts)[1..] == parts;
  }

  /** Parsing `str(xs)` gives back `xs` for every non-empty list. */
  lemma ParseLogRoundTrip(xs: seq<int>)
    requires |xs| > 0
    ensures ParseLog(Repr(xs)) == Ok(xs)
  {
    var body := ReprItems(xs);
    ReprItemsChars(xs);
    assert '[' !in body && ']' !in body by {
      forall k | 0 <= k < |body| ensures body[k] != '[' && body[k] != ']' {
        assert NumberChar(body[k]) || body[k] in ", ";
      }
    }
    assert Repr(xs) == "[" + body + "]";
    RemoveAllConcat("[" + body, "]", '[');
    RemoveAllConcat("[", body, '[');
    RemoveAllAbsent(body, '[');
    assert RemoveAll("[", '[') == "" && RemoveAll("]", '[') == "]";
    assert RemoveAll(Repr(xs), '[') == body + "]";
    RemoveAllConcat(body, "]", ']');
    RemoveAllAbsent(body, ']');
    assert RemoveAll("]", ']') == "";
    assert RemoveAll(RemoveAll(Repr(xs), '['), ']') == body;
    ReprItemsRoundTrip(xs, "");
    assert "" + body == body;
  }

  /** The log of an empty list raises on `int('')`. */
  lemma EmptyLogRaises()
    ensures ParseLog(Repr([])) == Err(ValueError)
  {
    assert RemoveAll(RemoveAll("[]", '['), ']') == "";
  }

  /** The two cut ratios of one firestorm: the share the first filtering
      step removed and the share the second step removed of what remained. */
  function Cuts(log: seq<int>): (r: Result<(real, real)>)
    ensures r.Ok? <==> |log| >= 3 && log[0] != 0 && log[1] != 0
    ensures |log| < 2 ==> r == Err(IndexError)
    ensures r.Ok? ==> r.value == (1.0 - log[1] as real / log[0] as real, 1.0 - log[2] as real / log[1] as real)
  {
    if |log| < 2 then Err(IndexError)
    else if log[0] == 0 then Err(ZeroDivisionError)
    else if |log| < 3 then Err(IndexError)
    else if log[1] == 0 then Err(ZeroDivisionError)
    else Ok((1.0 - log[1] as real / log[0] as real, 1.0 - log[2] as real / log[1] as real))
  }

  /** Filtering never adds tweets, so for a positive log both cuts are
      shares between 0 and 1. */
  lemma CutsAreShares(log: seq<int>)
    requires |log| >= 3 && log[0] > 0 && log[1] > 0 && log[2] >= 0
    requires log[0] >= log[1] >= log[2]
    ensures Cuts(log).Ok?
    ensures 0.0 <= Cuts(log).value.0 <= 1.0 && 0.0 <= Cuts(log).value.1 <= 1.0
  {
    var a, b, c := log[0] as real, log[1] as real, log[2] as real;
    assert b / a <= 1.0 by {
      assert b <= a;
    }
    assert c / b <= 1.0 by {
      assert c <= b;
    }
    assert 0.0 <= b / a && 0.0 <= c / b;
  }

  /** The cuts of every row, the first failing row raising. */
  function AllCuts(cells: seq<string>): (r: Result<(seq<real>, seq<real>)>)
    ensures r.Ok? ==> |r.value.0| == |cells| == |r.value.1|
    decreases |cells|
  {
    if |cells| == 0 then Ok(([], []))
    else
      var prev :- AllCuts(cells[..|cells| - 1]);
      var log :- ParseLog(cells[|cells| - 1]);
      var cut :- Cuts(log);
      Ok((prev.0 + [cut.0], prev.1 + [cut.1]))
  }

  function Sum(xs: seq<real>): real {
    if |xs| == 0 then 0.0 else Sum(xs[..|xs| - 1]) + xs[|xs| - 1]
  }

  /** `statistics.mean`; an empty sequence raises. */
  function Mean(xs: seq<real>): (r: Result<real>)
    ensures r.Err? <==> |xs| == 0
    ensures r.Ok? ==> r.value * |xs| as real == Sum(xs)
  {
    if |xs| == 0 then Err(StatisticsError) else Ok(Sum(xs) / |xs| as real)
  }

  /** The mean of shares is a share. */
  lemma {:induction false} SumBounds(xs: seq<real>)
    requires forall i :: 0 <= i < |xs| ==> 0.0 <= xs[i] <= 1.0
    ensures 0.0 <= Sum(xs) <= |xs| as real
    decreases |xs|
  {
    if |xs| > 0 {
      SumBounds(xs[..|xs| - 1]);
    }
  }

  /** What `calculate_filter_cuts` reports. */
  datatype CutReport = CutReport(cuts: seq<real>, cuts2: seq<real>, meanCut: real, meanCut2: real)

  /** `calculate_filter_cuts` with the overview file given as the
      `filtering_lengths_log` cell of each row: the loop collecting both
      cuts of every row, then their means. */
  method CalculateFilterCuts(cells: seq<string>) returns (r: Result<CutReport>)
    ensures AllCuts(cells).Err? ==> r == Err(AllCuts(cells).error)
    ensures |cells| == 0 ==> r == Err(StatisticsError)
    ensures AllCuts(cells).Ok? && |cells| > 0 ==>
      && r.Ok?
      && r.value.cuts == AllCuts(cells).value.0 && r.value.cuts2 == AllCuts(cells).value.1
      && Mean(r.value.cuts) == Ok(r.value.meanCut) && Mean(r.value.cuts2) == Ok(r.value.meanCut2)
  {
    var cuts: seq<real> := [];
    var cuts2: seq<real> := [];
    for i := 0 to |cells|
      invariant AllCuts(cells[..i]) == Ok((cuts, cuts2))
    {
      var longer := cells[..i + 1];
      assert longer[..|longer| - 1] == cells[..i] && longer[|longer| - 1] == cells[i];
      var log := ParseLog(cells[i]);
      if log.Err? {
        AllCutsFailsEarly(cells, i + 1);
        return Err(log.error);
      }
      var cut := Cuts(log.value);
      if cut.Err? {
        AllCutsFailsEarly(cells, i + 1);
        return Err(cut.error);
      }
      cuts := cuts + [cut.value.0];
      cuts2 := cuts2 + [cut.value.1];
    }
    assert cells[..|cells|] == cells;
    var m := Mean(cuts);
    var m2 := Mean(cuts2);
    if m.Err? || m2.Err? {
      return Err(StatisticsError);
    }
    return Ok(CutReport(cuts, cuts2, m.value, m2.value));
  }

  /** Once a row fails, the rows after it do not matter. */
  lemma {:induction false} AllCutsFailsEarly(cells: seq<string>, n: nat)
    requires 0 < n <= |cells| && AllCuts(cells[..n]).Err?
    ensures AllCuts(cells) == AllCuts(cells[..n])
    decreases |cells| - n
  {
    if n < |cells| {
      var longer := cells[..n + 1];
      assert longer[..|longer| - 1] == cells[..n];
      AllCutsFailsEarly(cells, n + 1);
    } else {
      assert cells[..n] == cells;
    }
  }

  /** For logs of positive, non-increasing lengths the reported means are
      shares as well. */
  lemma MeanCutsAreShares(xs: seq<real>)
    requires |xs| > 0 && forall i :: 0 <= i < |xs| ==> 0.0 <= xs[i] <= 1.0
    ensures 0.0 <= Mean(xs).value <= 1.0
  {
    SumBounds(xs);
  }
}
