/** The majority vote over three raters in the main block of
    src/discourse_style_metrics/inter_rater.py. The Fleiss kappa is computed
    by a statistics library and is not part of this model. */
module InterRater {

  /** One CSV row: the three raters' labels. */
  datatype Labels = Labels(label1: string, label2: string, label3: string)

  /** `[label1, label2, label3].count("OFFENSE")`. */
  function OffenseVotes(l: Labels): (n: nat)
    ensures n <= 3
  {
    (if l.label1 == "OFFENSE" then 1 else 0)
    + (if l.label2 == "OFFENSE" then 1 else 0)
    + (if l.label3 == "OFFENSE" then 1 else 0)
  }

  /** The aggregated label: "OFFENSE" when more than one rater says so,
      else "OTHER" whatever the other labels are. */
  function Majority(l: Labels): (r: string)
    ensures r == "OFFENSE" || r == "OTHER"
    ensures r == "OFFENSE" <==> (l.label1 == "OFFENSE" && l.label2 == "OFFENSE")
                                || (l.label1 == "OFFENSE" && l.label3 == "OFFENSE")
                                || (l.label2 == "OFFENSE" && l.label3 == "OFFENSE")
  {
    if OffenseVotes(l) > 1 then "OFFENSE" else "OTHER"
  }

  /** The vote does not depend on the order of the raters. */
  lemma MajoritySymmetric(a: string, b: string, c: string)
    ensures Majority(Labels(a, b, c)) == Majority(Labels(b, a, c))
    ensures Majority(Labels(a, b, c)) == Majority(Labels(a, c, b))
    ensures Majority(Labels(a, b, c)) == Majority(Labels(c, b, a))
  {
  }

  /** The loop over the rows: one aggregated label per row, in row order. */
  method AggregateLabels(rows: seq<Labels>) returns (finalLabels: seq<string>)
    ensures |finalLabels| == |rows|
    ensures forall i :: 0 <= i < |rows| ==> finalLabels[i] == Majority(rows[i])
  {
    finalLabels := [];
    for i := 0 to |rows|
      invariant |finalLabels| == i
      invariant forall k :: 0 <= k < i ==> finalLabels[k] == Majority(rows[k])
    {
      var labelAggregated := "OTHER";
      if OffenseVotes(rows[i]) > 1 {
        labelAggregated := "OFFENSE";
      }
      finalLabels := finalLabels + [labelAggregated];
    }
  }
}
