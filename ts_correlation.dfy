/** The lag alignment and the significance marks of
    src/ts_analysis/ts_correlation.py. The Pearson coefficient itself is
    computed by a statistics library and is not part of this model. */
module TsCorrelation {
  import opened Wrappers

  function Abs(x: int): nat {
    if x < 0 then -x else x
  }

  /** The rows left after dropping `k` rows: `tail(k)` and `head(k)` of an
      `n`-row frame hold `min(k, n)` rows. */
  function Kept(n: nat, lag: int): nat {
    if Abs(lag) >= n then 0 else n - Abs(lag)
  }

  /** The two series `ts_pearson_correlation(A, B, lag)` hands to `pearsonr`.
      A non-negative lag drops the last `lag` values of A and the first `lag`
      values of B; a negative lag drops the first `-lag` of A and the last
      `-lag` of B. Series of different lengths raise ValueError. */
  function Aligned(a: seq<real>, b: seq<real>, lag: int): (r: Result<(seq<real>, seq<real>)>)
    ensures r.Err? <==> |a| != |b|
    ensures r.Err? ==> r.error == ValueError
    ensures r.Ok? ==> |r.value.0| == |r.value.1| == Kept(|a|, lag)
    ensures r.Ok? && lag >= 0 ==>
              forall i :: 0 <= i < Kept(|a|, lag) ==> r.value.0[i] == a[i] && r.value.1[i] == b[i + lag]
    ensures r.Ok? && lag < 0 ==>
              forall i :: 0 <= i < Kept(|a|, lag) ==> r.value.0[i] == a[i - lag] && r.value.1[i] == b[i]
  {
    if |a| != |b| then Err(ValueError)
    else
      var n := |a|;
      var k := if Abs(lag) >= n then n else Abs(lag);
      if lag >= 0 then Ok((a[..n - k], b[k..]))
      else Ok((a[k..], b[..n - k]))
  }

  /** Lag 0 pairs the full series. */
  lemma AlignedNoLag(a: seq<real>, b: seq<real>)
    requires |a| == |b|
    ensures Aligned(a, b, 0) == Ok((a, b))
  {
    var r := Aligned(a, b, 0).value;
    assert r.0 == a && r.1 == b;
  }

  /** Shifting B forward by `lag` pairs the same values as shifting A
      backward: `Aligned(A, B, lag)` is `Aligned(B, A, -lag)` with the two
      series swapped. */
  lemma AlignedSwap(a: seq<real>, b: seq<real>, lag: int)
    requires |a| == |b|
    ensures var r := Aligned(a, b, lag).value;
            var s := Aligned(b, a, -lag).value;
            r.0 == s.1 && r.1 == s.0
  {
  }

  /** `significance_mark(p)`. */
  function SignificanceMark(p: real): (m: string)
    ensures p < 0.001 <==> m == "***"
    ensures 0.001 <= p < 0.01 <==> m == "**"
    ensures 0.01 <= p < 0.05 <==> m == "*"
    ensures 0.05 <= p <==> m == ""
  {
    if p < 0.001 then "***"
    else if p < 0.01 then "**"
    else if p < 0.05 then "*"
    else ""
  }

  /** A larger p-value never earns more stars. */
  lemma MarksNonIncreasing(p: real, q: real)
    requires p <= q
    ensures |SignificanceMark(q)| <= |SignificanceMark(p)|
  {
  }
}
