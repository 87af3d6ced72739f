/** `calculate_user_groups`: the authors of a firestorm ranked by how many of
    its tweets they wrote, the top percent called hyper-active, the rest of
    the top tenth active and everybody else lurking. */
module UserGroups {
  import opened Wrappers
  import opened Ordering
  import opened PyValues
  import Classifiers

  /** The distinct authors, ascending: the keys `groupby("author_id")`
      visits. */
  function DistinctAuthors(authors: seq<int>): (r: seq<int>)
    ensures StrictlyIncreasing(r)
    ensures forall a :: a in r <==> a in authors
  {
    if |authors| == 0 then []
    else Insert(DistinctAuthors(authors[..|authors| - 1]), authors[|authors| - 1])
  }

  /** One row of the activity table: an author and the number of tweets
      they wrote. */
  datatype Activity = Activity(author: int, count: nat)

  /** `groupby("author_id").size()`: one row per distinct author, in
      ascending author order, counting that author's tweets. */
  function ActivityCounts(authors: seq<int>): (r: seq<Activity>)
    ensures |r| == |DistinctAuthors(authors)|
    ensures forall i :: 0 <= i < |r| ==>
      r[i].author == DistinctAuthors(authors)[i] && r[i].count == multiset(authors)[r[i].author]
  {
    var keys := DistinctAuthors(authors);
    seq(|keys|, i requires 0 <= i < |keys| => Activity(keys[i], multiset(authors)[keys[i]]))
  }

  predicate CountsDescending(s: seq<Activity>) {
    forall i, j :: 0 <= i < j < |s| ==> s[i].count >= s[j].count
  }

  predicate AuthorsDistinct(s: seq<Activity>) {
    forall i, j :: 0 <= i < j < |s| ==> s[i].author != s[j].author
  }

  /** `a` placed into a list ranked by descending count, after every row
      with at least its count. */
  function InsertByCount(s: seq<Activity>, a: Activity): (r: seq<Activity>)
    requires CountsDescending(s)
    ensures CountsDescending(r)
    ensures |r| == |s| + 1
    ensures forall x :: x in r <==> x in s || x == a
  {
    if |s| == 0 then [a]
    else if s[0].count < a.count then [a] + s
    else
      var rest := InsertByCount(s[1..], a);
      var r := [s[0]] + rest;
      forall i, j | 0 <= i < j < |r|
        ensures r[i].count >= r[j].count
      {
        if i == 0 {
          assert r[j] in rest;
        } else {
          assert r[i] == rest[i - 1] && r[j] == rest[j - 1];
        }
      }
      r
  }

  lemma {:induction false} InsertKeepsDistinct(s: seq<Activity>, a: Activity)
    requires CountsDescending(s) && AuthorsDistinct(s)
    requires forall x :: x in s ==> x.author != a.author
    ensures AuthorsDistinct(InsertByCount(s, a))
    decreases |s|
  {
    if |s| == 0 {
    } else if s[0].count < a.count {
      DistinctCons(a, s);
    } else {
      assert forall x :: x in s[1..] ==> x in s;
      InsertKeepsDistinct(s[1..], a);
      var rest := InsertByCount(s[1..], a);
      forall y | y in rest ensures y.author != s[0].author {
        if y != a {
          var k :| 0 <= k < |s[1..]| && s[1..][k] == y;
          assert s[k + 1] == y;
        }
      }
      DistinctCons(s[0], rest);
    }
  }

  /** A row whose author none of the others has keeps the authors
      distinct. */
  lemma DistinctCons(x: Activity, rest: seq<Activity>)
    requires AuthorsDistinct(rest) && forall y :: y in rest ==> y.author != x.author
    ensures AuthorsDistinct([x] + rest)
  {
    var r := [x] + rest;
    forall i, j | 0 <= i < j < |r|
      ensures r[i].author != r[j].author
    {
      assert r[j] == rest[j - 1];
      if i > 0 {
        assert r[i] == rest[i - 1];
      }
    }
  }

  /** `sort_values(by="count", ascending=False)`: the same rows, ranked by
      descending count. */
  function RankByCount(s: seq<Activity>): (r: seq<Activity>)
    ensures CountsDescending(r)
    ensures |r| == |s|
    ensures forall x :: x in r <==> x in s
  {
    if |s| == 0 then []
    else InsertByCount(RankByCount(s[..|s| - 1]), s[|s| - 1])
  }

  lemma {:induction false} RankKeepsDistinct(s: seq<Activity>)
    requires AuthorsDistinct(s)
    ensures AuthorsDistinct(RankByCount(s))
    decreases |s|
  {
    if |s| > 0 {
      var init := s[..|s| - 1];
      assert AuthorsDistinct(init);
      RankKeepsDistinct(init);
      forall x | x in RankByCount(init)
        ensures x.author != s[|s| - 1].author
      {
        var k :| 0 <= k < |init| && init[k] == x;
      }
      InsertKeepsDistinct(RankByCount(init), s[|s| - 1]);
    }
  }

  function AuthorsOf(s: seq<Activity>): (r: seq<int>)
    ensures |r| == |s|
    ensures forall i :: 0 <= i < |s| ==> r[i] == s[i].author
  {
    seq(|s|, i requires 0 <= i < |s| => s[i].author)
  }

  datatype Groups = Groups(hyper: seq<int>, active: seq<int>, lurking: seq<int>)

  /** The activity table ranked by descending count. */
  function Ranked(authors: seq<int>): (r: seq<Activity>)
    ensures |r| == |DistinctAuthors(authors)|
    ensures CountsDescending(r)
  {
    RankByCount(ActivityCounts(authors))
  }

  /** `calculate_user_groups` over the author of every tweet: the first
      `n // 100` ranked authors, the next ones up to `n // 10`, and the rest,
      where `n` is the number of distinct authors. */
  function CalculateUserGroups(authors: seq<int>): (g: Groups)
    ensures var n := |DistinctAuthors(authors)|;
      |g.hyper| == n / 100 && |g.active| == n / 10 - n / 100 && |g.lurking| == n - n / 10
  {
    var ranked := Ranked(authors);
    var n := |ranked|;
    Groups(AuthorsOf(ranked[..n / 100]), AuthorsOf(ranked[n / 100..n / 10]), AuthorsOf(ranked[n / 10..]))
  }

  /** Every ranked row is an author of the tweets with that author's count,
      and no author is ranked twice. */
  lemma RankedRows(authors: seq<int>)
    ensures AuthorsDistinct(Ranked(authors))
    ensures forall x :: x in Ranked(authors) <==> x.author in authors && x.count == multiset(authors)[x.author]
  {
    var counts := ActivityCounts(authors);
    var keys := DistinctAuthors(authors);
    assert AuthorsDistinct(counts);
    RankKeepsDistinct(counts);
    forall x: Activity | x.author in authors && x.count == multiset(authors)[x.author]
      ensures x in counts
    {
      var k :| 0 <= k < |keys| && keys[k] == x.author;
      assert counts[k] == x;
    }
  }

  /** An author is in the authors of a slice of the table exactly when some
      row of the slice is theirs. */
  lemma AuthorsOfSlice(s: seq<Activity>, lo: nat, hi: nat, a: int)
    requires lo <= hi <= |s|
    ensures a in AuthorsOf(s[lo..hi]) <==> exists k :: lo <= k < hi && s[k].author == a
  {
    if a in AuthorsOf(s[lo..hi]) {
      var j :| 0 <= j < hi - lo && AuthorsOf(s[lo..hi])[j] == a;
      assert s[lo + j].author == a;
    }
    if exists k :: lo <= k < hi && s[k].author == a {
      var k :| lo <= k < hi && s[k].author == a;
      assert AuthorsOf(s[lo..hi])[k - lo] == a;
    }
  }

  /** Two adjacent slices of a table without repeated authors share no
      author. */
  lemma AdjacentSlicesDisjoint(s: seq<Activity>, lo: nat, mid: nat, hi: nat, a: int)
    requires AuthorsDistinct(s) && lo <= mid <= hi <= |s|
    ensures !(a in AuthorsOf(s[lo..mid]) && a in AuthorsOf(s[mid..hi]))
  {
    AuthorsOfSlice(s, lo, mid, a);
    AuthorsOfSlice(s, mid, hi, a);
  }

  /** The authors of the ranked table are exactly the authors of the tweets. */
  lemma RankedAuthor(authors: seq<int>, a: int)
    ensures a in authors <==> exists k :: 0 <= k < |Ranked(authors)| && Ranked(authors)[k].author == a
  {
    var ranked := Ranked(authors);
    RankedRows(authors);
    if a in authors {
      var x := Activity(a, multiset(authors)[a]);
      assert x in ranked;
      var k :| 0 <= k < |ranked| && ranked[k] == x;
      assert ranked[k].author == a;
    }
    if exists k :: 0 <= k < |ranked| && ranked[k].author == a {
      var k :| 0 <= k < |ranked| && ranked[k].author == a;
      assert ranked[k] in ranked;
    }
  }

  /** The three groups split the authors: every author of a tweet is in
      exactly one of them, and nobody else is in any. */
  lemma GroupsPartitionAuthors(authors: seq<int>, a: int)
    ensures var g := CalculateUserGroups(authors);
      (a in authors <==> a in g.hyper || a in g.active || a in g.lurking)
      && !(a in g.hyper && a in g.active) && !(a in g.hyper && a in g.lurking)
      && !(a in g.active && a in g.lurking)
  {
    var ranked := Ranked(authors);
    var n := |ranked|;
    RankedRows(authors);
    RankedAuthor(authors, a);
    AuthorsOfSlice(ranked, 0, n / 100, a);
    AuthorsOfSlice(ranked, n / 100, n / 10, a);
    AuthorsOfSlice(ranked, n / 10, n, a);
    assert ranked[..n / 100] == ranked[0..n / 100];
    assert ranked[n / 10..] == ranked[n / 10..n];
    AdjacentSlicesDisjoint(ranked, 0, n / 100, n / 10, a);
    AdjacentSlicesDisjoint(ranked, n / 100, n / 10, n, a);
    AdjacentSlicesDisjoint(ranked, 0, n / 10, n, a);
  }

  /** In a table ranked by descending count, every row of a slice has at
      least the count of every row of a later slice. */
  lemma EarlierSliceCountsMore(s: seq<Activity>, lo: nat, mid: nat, hi: nat, x: int, y: int)
    requires CountsDescending(s) && lo <= mid <= hi <= |s|
    requires x in AuthorsOf(s[lo..mid]) && y in AuthorsOf(s[mid..hi])
    ensures exists i, j :: lo <= i < mid <= j < hi && s[i].author == x && s[j].author == y
                           && s[i].count >= s[j].count
  {
    AuthorsOfSlice(s, lo, mid, x);
    AuthorsOfSlice(s, mid, hi, y);
    var i :| lo <= i < mid && s[i].author == x;
    var j :| mid <= j < hi && s[j].author == y;
    assert s[i].count >= s[j].count;
  }

  /** Each ranked row counts its author's tweets. */
  lemma RankedCount(authors: seq<int>, k: nat)
    requires k < |Ranked(authors)|
    ensures Ranked(authors)[k].count == multiset(authors)[Ranked(authors)[k].author]
  {
    RankedRows(authors);
    assert Ranked(authors)[k] in Ranked(authors);
  }

  /** Ranked before means tweeted at least as much: every hyper-active
      author wrote at least as many tweets as every active one, and every
      active one at least as many as every lurking one. */
  lemma GroupsOrderedByActivity(authors: seq<int>, x: int, y: int)
    ensures var g := CalculateUserGroups(authors);
      (x in g.hyper && y in g.active ==> multiset(authors)[x] >= multiset(authors)[y])
      && (x in g.active && y in g.lurking ==> multiset(authors)[x] >= multiset(authors)[y])
  {
    var ranked := Ranked(authors);
    var n := |ranked|;
    var g := CalculateUserGroups(authors);
    assert ranked[..n / 100] == ranked[0..n / 100];
    assert ranked[n / 10..] == ranked[n / 10..n];
    if x in g.hyper && y in g.active {
      RankedSlicesOrdered(authors, 0, n / 100, n / 10, x, y);
    }
    if x in g.active && y in g.lurking {
      RankedSlicesOrdered(authors, n / 100, n / 10, n, x, y);
    }
  }

  /** An author in an earlier slice of the ranking wrote at least as many
      tweets as one in a later slice. */
  lemma RankedSlicesOrdered(authors: seq<int>, lo: nat, mid: nat, hi: nat, x: int, y: int)
    requires lo <= mid <= hi <= |Ranked(authors)|
    requires x in AuthorsOf(Ranked(authors)[lo..mid]) && y in AuthorsOf(Ranked(authors)[mid..hi])
    ensures multiset(authors)[x] >= multiset(authors)[y]
  {
    var ranked := Ranked(authors);
    EarlierSliceCountsMore(ranked, lo, mid, hi, x, y);
    var i, j :| lo <= i < mid <= j < hi && ranked[i].author == x && ranked[j].author == y
                && ranked[i].count >= ranked[j].count;
    RankedCount(authors, i);
    RankedCount(authors, j);
  }

  /** Small firestorms: under 100 authors nobody is hyper-active, under 10
      everybody lurks. */
  lemma SmallFirestormGroups(authors: seq<int>)
    ensures |DistinctAuthors(authors)| < 100 ==> CalculateUserGroups(authors).hyper == []
    ensures |DistinctAuthors(authors)| < 10 ==>
      CalculateUserGroups(authors).active == [] && |CalculateUserGroups(authors).lurking| == |DistinctAuthors(authors)|
  {
  }

  function IntList(ids: seq<int>): (r: Value)
    ensures r.List? && |r.items| == |ids|
    ensures forall i :: 0 <= i < |ids| ==> r.items[i] == Int(ids[i])
  {
    List(seq(|ids|, i requires 0 <= i < |ids| => Int(ids[i])))
  }

  /** The dict `calculate_user_groups` returns. */
  function GroupsDict(g: Groups): Value {
    Dict([Entry("hyper_active_users", IntList(g.hyper)),
          Entry("active_users", IntList(g.active)),
          Entry("lurking_users", IntList(g.lurking))])
  }

  lemma IntListIn(ids: seq<int>, a: int)
    ensures In(Int(a), IntList(ids)) == Ok(a in ids)
  {
    if a in ids {
      var k :| 0 <= k < |ids| && ids[k] == a;
      assert IntList(ids).items[k] == Int(a);
    }
  }

  /** Every author of the firestorm's tweets is classified by `user_type`
      against these groups, by the group the ranking put them in. */
  lemma UserTypeOfGroupedAuthor(authors: seq<int>, tweet: seq<Entry>, a: int)
    requires a in authors && Get(tweet, "author_id") == Some(Int(a))
    ensures var g := CalculateUserGroups(authors);
      var r := Classifiers.UserType(Dict(tweet), GroupsDict(g));
      && (a in g.hyper ==> r == Ok(Classifiers.HyperActive))
      && (a in g.active ==> r == Ok(Classifiers.Active))
      && (a in g.lurking ==> r == Ok(Classifiers.Laggard))
      && r.Ok?
  {
    var g := CalculateUserGroups(authors);
    var d := GroupsDict(g);
    GroupsPartitionAuthors(authors, a);
    IntListIn(g.hyper, a);
    IntListIn(g.active, a);
    IntListIn(g.lurking, a);
    assert Keys(d.entries) == ["hyper_active_users", "active_users", "lurking_users"];
    assert Subscript(d, "hyper_active_users") == Ok(IntList(g.hyper));
    assert Subscript(d, "active_users") == Ok(IntList(g.active));
    assert Subscript(d, "lurking_users") == Ok(IntList(g.lurking));
  }
}
