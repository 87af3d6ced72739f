/** The pass that runs when the table of queried firestorms is loaded: a
    firestorm without its own true start or end date takes the start or end
    of the data collected for it. The table is a dict from firestorm names
    to configuration dicts, updated in place. */
module Queried {
  import opened Wrappers
  import opened PyValues

  /** Whether the configuration lacks a usable value under `key`: missing,
      or present but falsy (`None`). */
  predicate Unset(config: seq<Entry>, key: string) {
    key !in Keys(config) || !Truthy(Get(config, key).value)
  }

  /** One step of the pass: `config[target] = config[source]` when the
      target is unset. A missing source raises KeyError with the
      configuration as it was. */
  function Default(config: seq<Entry>, target: string, source: string): (r: Result<seq<Entry>>)
    ensures r.Err? <==> Unset(config, target) && source !in Keys(config)
    ensures r.Err? ==> r.error == KeyError
    ensures r.Ok? && Unset(config, target) ==> r.value == Put(config, target, Get(config, source).value)
    ensures r.Ok? && !Unset(config, target) ==> r.value == config
  {
    if Unset(config, target) then
      match Get(config, source)
      case None => Err(KeyError)
      case Some(v) => Ok(Put(config, target, v))
    else Ok(config)
  }

  /** The loop body for one firestorm: the start first, then the end, each
      written into the dict as soon as it is computed. Returns the dict as
      left behind and the exception raised, if any; a configuration that is
      not a dict makes the membership test or the item assignment raise
      TypeError. */
  function FillTrueDates(config: Value): (r: (Value, Option<Error>))
    ensures !config.Dict? ==> r.1 == Some(TypeError)
    ensures config.Dict? && r.1.Some? ==> r.1 == Some(KeyError)
    ensures r.1.None? ==> r.0.Dict? && "true_start_date" in Keys(r.0.entries) && "true_end_date" in Keys(r.0.entries)
  {
    match config
    case Dict(c) =>
      (match Default(c, "true_start_date", "data_start_date")
       case Err(e) => (config, Some(e))
       case Ok(c1) =>
         DefaultGet(c, "true_start_date", "data_start_date", "true_start_date");
         match Default(c1, "true_end_date", "data_end_date")
         case Err(e) => (Dict(c1), Some(e))
         case Ok(c2) =>
           DefaultGet(c1, "true_end_date", "data_end_date", "true_start_date");
           DefaultGet(c1, "true_end_date", "data_end_date", "true_end_date");
           (Dict(c2), None))
    case _ => (config, Some(TypeError))
  }

  /** What one step leaves under each key: the target its source's value
      when it was unset, every other key its old value. */
  lemma DefaultGet(c: seq<Entry>, target: string, source: string, k: string)
    requires target != source && Default(c, target, source).Ok?
    ensures var r := Default(c, target, source).value;
      && Get(r, target) == (if Unset(c, target) then Get(c, source) else Get(c, target))
      && (k != target ==> Get(r, k) == Get(c, k))
      && (k in Keys(r) <==> k in Keys(c) || k == target)
  {
    if Unset(c, target) && k != target {
      PutOther(c, target, Get(c, source).value, k);
    }
  }

  /** A configuration whose target, if unset, already holds its source's
      value is left as it is: the step has nothing left to do. */
  lemma DefaultStable(c: seq<Entry>, target: string, source: string)
    requires target != source && Default(c, target, source).Ok?
    requires Unset(c, target) ==> Get(c, target) == Get(c, source)
    ensures Default(c, target, source) == Ok(c)
  {
    if Unset(c, target) {
      PutSame(c, target, Get(c, source).value);
    }
  }

  /** With both data dates present the step succeeds: an unset true date
      takes its data date, a set one is kept, and every other key keeps its
      value. */
  lemma FillTrueDatesEffect(c: seq<Entry>, k: string)
    requires "data_start_date" in Keys(c) && "data_end_date" in Keys(c)
    ensures FillTrueDates(Dict(c)).1 == None
    ensures var d := FillTrueDates(Dict(c)).0;
      && d.Dict?
      && Get(d.entries, "true_start_date") ==
         (if Unset(c, "true_start_date") then Get(c, "data_start_date") else Get(c, "true_start_date"))
      && Get(d.entries, "true_end_date") ==
         (if Unset(c, "true_end_date") then Get(c, "data_end_date") else Get(c, "true_end_date"))
      && (k != "true_start_date" && k != "true_end_date" ==> Get(d.entries, k) == Get(c, k))
      && (k in Keys(d.entries) <==> k in Keys(c) || k == "true_start_date" || k == "true_end_date")
  {
    var c1 := Default(c, "true_start_date", "data_start_date").value;
    DefaultGet(c, "true_start_date", "data_start_date", "data_end_date");
    DefaultGet(c, "true_start_date", "data_start_date", "true_end_date");
    DefaultGet(c, "true_start_date", "data_start_date", k);
    DefaultGet(c1, "true_end_date", "data_end_date", "true_start_date");
    DefaultGet(c1, "true_end_date", "data_end_date", k);
  }

  /** After the step both true dates are set, provided the data dates are:
      no firestorm is left without a window. */
  lemma FillTrueDatesSetsBoth(c: seq<Entry>)
    requires Get(c, "data_start_date").Some? && Truthy(Get(c, "data_start_date").value)
    requires Get(c, "data_end_date").Some? && Truthy(Get(c, "data_end_date").value)
    ensures var d := FillTrueDates(Dict(c)).0;
      d.Dict? && !Unset(d.entries, "true_start_date") && !Unset(d.entries, "true_end_date")
  {
    FillTrueDatesEffect(c, "");
  }

  /** Running the step again changes nothing. */
  lemma FillTrueDatesIdempotent(config: Value)
    requires FillTrueDates(config).1 == None
    ensures FillTrueDates(FillTrueDates(config).0) == FillTrueDates(config)
  {
    var c := config.entries;
    var c1 := Default(c, "true_start_date", "data_start_date").value;
    var c2 := Default(c1, "true_end_date", "data_end_date").value;
    DefaultGet(c, "true_start_date", "data_start_date", "data_start_date");
    DefaultGet(c1, "true_end_date", "data_end_date", "data_start_date");
    DefaultGet(c1, "true_end_date", "data_end_date", "true_start_date");
    DefaultGet(c1, "true_end_date", "data_end_date", "data_end_date");
    DefaultStable(c2, "true_start_date", "data_start_date");
    DefaultStable(c2, "true_end_date", "data_end_date");
  }

  /** The table after the loop over the first firestorms, and the exception
      that stopped it. Firestorms after a failure are left as they were. */
  datatype PassResult = PassResult(table: seq<Entry>, failure: Option<Error>)

  /** The per-firestorm step of the pass. */
  type Step = Value -> (Value, Option<Error>)

  /** The loop over the table with the step it applies to each
      configuration; the module's pass applies `FillTrueDates`. */
  function Pass(step: Step, queries: seq<Entry>): (r: PassResult)
    ensures |r.table| == |queries|
    ensures forall i :: 0 <= i < |queries| ==> r.table[i].key == queries[i].key
    decreases |queries|
  {
    if |queries| == 0 then PassResult([], None)
    else
      var prev := Pass(step, queries[..|queries| - 1]);
      var last := queries[|queries| - 1];
      if prev.failure.Some? then PassResult(prev.table + [last], prev.failure)
      else
        var (v, err) := step(last.val);
        PassResult(prev.table + [Entry(last.key, v)], err)
  }

  /** Without a failure every firestorm's configuration went through the
      step, and the table keeps its names in their order. */
  lemma {:induction false} PassEachEntry(step: Step, queries: seq<Entry>)
    requires Pass(step, queries).failure == None
    ensures Keys(Pass(step, queries).table) == Keys(queries)
    ensures forall i :: 0 <= i < |queries| ==>
      step(queries[i].val) == (Pass(step, queries).table[i].val, None)
  {
    forall i | 0 <= i < |queries|
      ensures step(queries[i].val) == (Pass(step, queries).table[i].val, None)
    {
      PassEntry(step, queries, i);
    }
    var t := Pass(step, queries).table;
    assert forall i :: 0 <= i < |queries| ==> Keys(t)[i] == Keys(queries)[i];
  }

  /** The same for one firestorm. */
  lemma {:induction false} PassEntry(step: Step, queries: seq<Entry>, i: nat)
    requires Pass(step, queries).failure == None && i < |queries|
    ensures step(queries[i].val) == (Pass(step, queries).table[i].val, None)
    decreases |queries|
  {
    var init := queries[..|queries| - 1];
    var prev := Pass(step, init);
    var last := queries[|queries| - 1];
    var out := step(last.val);
    assert prev.failure == None;
    assert Pass(step, queries) == PassResult(prev.table + [Entry(last.key, out.0)], out.1);
    if i < |init| {
      PassEntry(step, init, i);
      assert init[i] == queries[i];
      assert Pass(step, queries).table[i] == prev.table[i];
    }
  }

  /** Running the pass twice leaves the table as one run did. */
  lemma PassIdempotent(queries: seq<Entry>)
    requires Pass(FillTrueDates, queries).failure == None
    ensures Pass(FillTrueDates, Pass(FillTrueDates, queries).table) == Pass(FillTrueDates, queries)
  {
    PassEachEntry(FillTrueDates, queries);
    var t := Pass(FillTrueDates, queries).table;
    forall i | 0 <= i < |t|
      ensures FillTrueDates(t[i].val) == (t[i].val, None)
    {
      FillTrueDatesIdempotent(queries[i].val);
    }
    PassFixed(FillTrueDates, t);
  }

  /** A table every configuration of which the step leaves alone is left
      alone by the pass. */
  lemma {:induction false} PassFixed(step: Step, t: seq<Entry>)
    requires forall i :: 0 <= i < |t| ==> step(t[i].val) == (t[i].val, None)
    ensures Pass(step, t) == PassResult(t, None)
    decreases |t|
  {
    if |t| > 0 {
      var init := t[..|t| - 1];
      PassFixed(step, init);
      assert init + [Entry(t[|t| - 1].key, t[|t| - 1].val)] == t;
    }
  }

  /** The module-level table of firestorms, updated in place by the pass. */
  class QueryTable {
    var queries: seq<Entry>

    constructor(queries: seq<Entry>)
      ensures this.queries == queries
    {
      this.queries := queries;
    }

    /** The loop `for key in QUERIES`: each firestorm's dict updated where
        it stands; an exception leaves the firestorms before it updated. */
    method DefaultTrueDates() returns (failure: Option<Error>)
      modifies this
      ensures Pass(FillTrueDates, old(queries)) == PassResult(queries, failure)
    {
      ghost var original := queries;
      var i := 0;
      while i < |queries|
        invariant 0 <= i <= |queries| == |original|
        invariant Pass(FillTrueDates, original[..i]) == PassResult(queries[..i], None)
        invariant queries[i..] == original[i..]
      {
        assert queries[i] == original[i] by { assert queries[i..][0] == original[i..][0]; }
        var (v, err) := FillTrueDates(queries[i].val);
        PassNext(FillTrueDates, original, i);
        ghost var before := queries;
        queries := queries[i := Entry(queries[i].key, v)];
        ReplaceAt(before, original, i, Entry(original[i].key, v));
        if err.Some? {
          PassFailsEarly(FillTrueDates, original, i + 1);
          return err;
        }
        i := i + 1;
      }
      assert original[..i] == original && queries[..i] == queries;
      return None;
    }
  }

  /** One more firestorm through the pass, after no failure so far. */
  lemma PassNext(step: Step, queries: seq<Entry>, i: nat)
    requires i < |queries| && Pass(step, queries[..i]).failure == None
    ensures var out := step(queries[i].val);
      Pass(step, queries[..i + 1]) == PassResult(Pass(step, queries[..i]).table + [Entry(queries[i].key, out.0)], out.1)
  {
    var longer := queries[..i + 1];
    assert longer[..|longer| - 1] == queries[..i] && longer[|longer| - 1] == queries[i];
  }

  /** Once a firestorm fails, the pass leaves the rest of the table alone. */
  lemma {:induction false} PassFailsEarly(step: Step, queries: seq<Entry>, n: nat)
    requires 0 < n <= |queries| && Pass(step, queries[..n]).failure.Some?
    ensures Pass(step, queries).failure == Pass(step, queries[..n]).failure
    ensures Pass(step, queries).table == Pass(step, queries[..n]).table + queries[n..]
    decreases |queries| - n
  {
    if n < |queries| {
      var longer := queries[..n + 1];
      assert longer[..|longer| - 1] == queries[..n];
      PassFailsEarly(step, queries, n + 1);
      assert Pass(step, queries[..n + 1]).table == Pass(step, queries[..n]).table + [queries[n]];
      assert queries[n..] == [queries[n]] + queries[n + 1..];
    } else {
      assert queries[..n] == queries;
    }
  }
}
