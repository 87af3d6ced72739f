/** The JSON-shaped Python values the modelled code passes around: tweets,
    API responses, query configurations and metadata dicts. A `dict` is an
    insertion-ordered sequence of entries with distinct string keys. */
module PyValues {
  import opened Wrappers
  import PyStrings
  import DateTimes

  datatype Value =
    | Null
    | Bool(b: bool)
    | Int(i: int)
    | Float(r: real)
    | Str(s: string)
    | List(items: seq<Value>)
    | Dict(entries: seq<Entry>)
    | Date(dt: DateTimes.DateTime)

  datatype Entry = Entry(key: string, val: Value)

  /** Python truthiness: `None`, `False`, zero, and empty containers are
      false; every datetime is true. */
  predicate Truthy(v: Value) {
    match v
    case Null => false
    case Bool(b) => b
    case Int(i) => i != 0
    case Float(r) => r != 0.0
    case Str(s) => |s| > 0
    case List(items) => |items| > 0
    case Dict(entries) => |entries| > 0
    case Date(_) => true
  }

  /** The keys of a dict, in insertion order. */
  function Keys(e: seq<Entry>): seq<string> {
    seq(|e|, i requires 0 <= i < |e| => e[i].key)
  }

  /** Every Python dict has distinct keys. */
  predicate UniqueKeys(e: seq<Entry>) {
    forall i, j :: 0 <= i < j < |e| ==> e[i].key != e[j].key
  }

  /** `d.get(k)`: the value stored under `k`, if any. */
  function Get(e: seq<Entry>, k: string): (r: Option<Value>)
    ensures r.Some? <==> k in Keys(e)
    ensures r.Some? ==> Entry(k, r.value) in e
  {
    if |e| == 0 then None
    else if e[0].key == k then
      assert Keys(e)[0] == k;
      Some(e[0].val)
    else
      assert Keys(e) == [e[0].key] + Keys(e[1..]);
      var r := Get(e[1..], k);
      assert r.Some? ==> Entry(k, r.value) in e[1..];
      r
  }

  /** `d[k] = v`: an existing key keeps its place and takes the new value; a
      new key is appended at the end. */
  function Put(e: seq<Entry>, k: string, v: Value): (r: seq<Entry>)
    ensures Get(r, k) == Some(v)
    ensures forall k2 :: k2 in Keys(r) <==> k2 in Keys(e) || k2 == k
    ensures k in Keys(e) ==> |r| == |e|
    ensures k !in Keys(e) ==> r == e + [Entry(k, v)]
  {
    if |e| == 0 then [Entry(k, v)]
    else if e[0].key == k then
      var r := [Entry(k, v)] + e[1..];
      assert Keys(r) == Keys(e);
      assert r[0] == Entry(k, v);
      r
    else
      var rest := Put(e[1..], k, v);
      KeysCons(e[0], e[1..]);
      KeysCons(e[0], rest);
      assert e == [e[0]] + e[1..];
      [e[0]] + rest
  }

  lemma KeysCons(x: Entry, rest: seq<Entry>)
    ensures Keys([x] + rest) == [x.key] + Keys(rest)
    ensures ([x] + rest)[0] == x && ([x] + rest)[1..] == rest
  {
  }

  /** `d[k] = v` leaves every other key's value as it was. */
  lemma {:induction false} PutOther(e: seq<Entry>, k: string, v: Value, k2: string)
    requires k2 != k
    ensures Get(Put(e, k, v), k2) == Get(e, k2)
  {
    if |e| > 0 && e[0].key != k {
      PutOther(e[1..], k, v, k2);
    }
  }

  /** `d[k] = v` with the value `d` already holds under `k` changes nothing. */
  lemma {:induction false} PutSame(e: seq<Entry>, k: string, v: Value)
    requires Get(e, k) == Some(v)
    ensures Put(e, k, v) == e
  {
    if |e| > 0 && e[0].key != k {
      PutSame(e[1..], k, v);
    }
  }

  /** Looking a key up in two dicts laid end to end finds it in the first
      if it is there. */
  lemma {:induction false} GetConcat(a: seq<Entry>, b: seq<Entry>, k: string)
    ensures Get(a + b, k) == if k in Keys(a) then Get(a, k) else Get(b, k)
  {
    if |a| > 0 {
      assert (a + b)[0] == a[0] && (a + b)[1..] == a[1..] + b;
      assert Keys(a) == [a[0].key] + Keys(a[1..]);
      GetConcat(a[1..], b, k);
    } else {
      assert a + b == b;
    }
  }

  /** `d[k] = v` keeps the keys distinct. */
  lemma {:induction false} PutUnique(e: seq<Entry>, k: string, v: Value)
    requires UniqueKeys(e)
    ensures UniqueKeys(Put(e, k, v))
  {
    if |e| > 0 && e[0].key != k {
      UniqueSplit(e);
      PutUnique(e[1..], k, v);
      UniqueCons(e[0], Put(e[1..], k, v));
    } else if |e| > 0 {
      UniqueSplit(e);
      UniqueCons(Entry(k, v), e[1..]);
    }
  }

  /** A dict with distinct keys: its first key is not among the rest, which
      have distinct keys too. */
  lemma UniqueSplit(e: seq<Entry>)
    requires |e| > 0 && UniqueKeys(e)
    ensures UniqueKeys(e[1..]) && e[0].key !in Keys(e[1..])
  {
    forall j | 0 <= j < |e| - 1
      ensures Keys(e[1..])[j] != e[0].key
    {
      assert e[1..][j] == e[j + 1];
    }
  }

  /** A new key in front of distinct keys keeps them distinct. */
  lemma UniqueCons(x: Entry, rest: seq<Entry>)
    requires UniqueKeys(rest) && x.key !in Keys(rest)
    ensures UniqueKeys([x] + rest)
  {
    var r := [x] + rest;
    forall i, j | 0 <= i < j < |r| ensures r[i].key != r[j].key {
      assert r[j] == rest[j - 1];
      if i == 0 {
        assert Keys(rest)[j - 1] == r[j].key;
      } else {
        assert r[i] == rest[i - 1];
      }
    }
  }

  /** `a.update(b)`: every entry of `b` put into `a`, in `b`'s order. */
  function Update(a: seq<Entry>, b: seq<Entry>): seq<Entry>
    decreases |b|
  {
    if |b| == 0 then a else Update(Put(a, b[0].key, b[0].val), b[1..])
  }

  /** `d[k] = v` stores no value other than `v` and those already stored. */
  lemma {:induction false} PutFrom(e: seq<Entry>, k: string, v: Value)
    ensures forall x :: x in Put(e, k, v) ==> x in e || x == Entry(k, v)
    decreases |e|
  {
    if |e| > 0 && e[0].key != k {
      PutFrom(e[1..], k, v);
      assert Put(e, k, v) == [e[0]] + Put(e[1..], k, v);
      assert forall x :: x in e[1..] ==> x in e;
    }
  }

  /** `a.update(b)` stores only entries of `a` and of `b`. */
  lemma {:induction false} UpdateFrom(a: seq<Entry>, b: seq<Entry>)
    ensures forall x :: x in Update(a, b) ==> x in a || x in b
    decreases |b|
  {
    if |b| > 0 {
      PutFrom(a, b[0].key, b[0].val);
      UpdateFrom(Put(a, b[0].key, b[0].val), b[1..]);
      assert forall x :: x in b[1..] ==> x in b;
    }
  }

  /** `a.update(b)` keeps the keys distinct. */
  lemma {:induction false} UpdateUnique(a: seq<Entry>, b: seq<Entry>)
    requires UniqueKeys(a)
    ensures UniqueKeys(Update(a, b))
    decreases |b|
  {
    if |b| > 0 {
      PutUnique(a, b[0].key, b[0].val);
      UpdateUnique(Put(a, b[0].key, b[0].val), b[1..]);
    }
  }

  /** After `a.update(b)` a key of `b` holds `b`'s value and every other key
      holds `a`'s: the keys are the union and `b` wins on collisions. */
  lemma {:induction false} UpdateGet(a: seq<Entry>, b: seq<Entry>, k: string)
    requires UniqueKeys(b)
    ensures Get(Update(a, b), k) == if k in Keys(b) then Get(b, k) else Get(a, k)
    decreases |b|
  {
    if |b| > 0 {
      assert Keys(b) == [b[0].key] + Keys(b[1..]);
      assert UniqueKeys(b[1..]);
      UpdateGet(Put(a, b[0].key, b[0].val), b[1..], k);
      if k == b[0].key {
        assert k !in Keys(b[1..]);
      } else {
        PutOther(a, b[0].key, b[0].val, k);
      }
    }
  }

  /** `lst[i] = x` on a list that agrees with `original` from `i` on: the
      prefix gains `x` and the rest is still `original`'s. */
  lemma ReplaceAt<T>(t: seq<T>, original: seq<T>, i: nat, x: T)
    requires i < |t| == |original| && t[i..] == original[i..]
    ensures t[i := x][..i + 1] == t[..i] + [x]
    ensures t[i := x][i + 1..] == original[i + 1..]
    ensures t[i := x] == t[i := x][..i + 1] + original[i + 1..]
  {
    assert t[i + 1..] == t[i..][1..];
  }

  /** `v[k]` for a string key: a dict gives the value or raises KeyError;
      subscripting `None` or a scalar raises TypeError. */
  function Subscript(v: Value, k: string): (r: Result<Value>)
    ensures r.Ok? <==> v.Dict? && k in Keys(v.entries)
    ensures r.Ok? ==> Some(r.value) == Get(v.entries, k)
    ensures v.Dict? && r.Err? ==> r.error == KeyError
    ensures !v.Dict? ==> r == Err(TypeError)
  {
    match v
    case Dict(e) => (match Get(e, k) case Some(x) => Ok(x) case None => Err(KeyError))
    case _ => Err(TypeError)
  }

  /** Python's `x in container`: key membership for a dict, element
      equality for a list, substring for a string; `None` and scalars are
      not iterable. */
  function In(x: Value, container: Value): (r: Result<bool>)
    ensures container.Dict? ==> r == Ok(x.Str? && x.s in Keys(container.entries))
    ensures container.List? ==> r == Ok(x in container.items)
    ensures container.Str? && !x.Str? ==> r == Err(TypeError)
    ensures !(container.Dict? || container.List? || container.Str?) ==> r == Err(TypeError)
  {
    match container
    case Dict(e) => Ok(x.Str? && x.s in Keys(e))
    case List(items) => Ok(x in items)
    case Str(s) => if x.Str? then Ok(PyStrings.IsSubstring(x.s, s)) else Err(TypeError)
    case _ => Err(TypeError)
  }
}
