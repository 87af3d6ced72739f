/** Ascending sequences of distinct integers: the order `groupby` visits
    its keys in and the order of a sorted index. */
module Ordering {
  predicate StrictlyIncreasing(s: seq<int>) {
    forall i, j :: 0 <= i < j < |s| ==> s[i] < s[j]
  }

  /** In an ascending list a value not above another sits at a position
      not after it. */
  lemma PositionOrder(s: seq<int>, i: nat, j: nat)
    requires StrictlyIncreasing(s) && i < |s| && j < |s| && s[i] <= s[j]
    ensures i <= j
  {
  }

  /** `x` added to an ascending list of distinct values, keeping it so. */
  function Insert(s: seq<int>, x: int): (r: seq<int>)
    requires StrictlyIncreasing(s)
    ensures StrictlyIncreasing(r)
    ensures forall y :: y in r <==> y in s || y == x
  {
    if |s| == 0 then [x]
    else if x < s[0] then [x] + s
    else if x == s[0] then s
    else
      var rest := Insert(s[1..], x);
      assert forall y :: y in s[1..] ==> s[0] < y;
      var r := [s[0]] + rest;
      forall i, j | 0 <= i < j < |r|
        ensures r[i] < r[j]
      {
        if i == 0 {
          assert r[j] in rest;
        } else {
          assert r[i] == rest[i - 1] && r[j] == rest[j - 1];
        }
      }
      r
  }

  predicate NonDecreasing(s: seq<int>) {
    forall i, j :: 0 <= i < j < |s| ==> s[i] <= s[j]
  }
}
