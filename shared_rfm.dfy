/**
 * `segment_customer` and `build_rfm` as the shared module defines them:
 * a first-match cascade over the three scores in which a customer is a VIP
 * with recency score 5 and frequency score at least 4.
 */
module SharedRfm {
  import opened Results
  import opened RfmEngine

  /**
   * The segment cascade: VIP, Loyal, Recent, Frequent, Big Spender, Others,
   * the first rule that matches deciding. The ensures clauses say which
   * scores land in each segment once the earlier rules have failed.
   */
  function SegmentCustomer(r: int, f: int, m: int): (seg: Segment)
    ensures seg == VIP <==> r >= 5 && f >= 4
    ensures seg == Loyal <==> r == 4 && f >= 4
    ensures seg == Recent <==> r == 5 && f < 4
    ensures seg == Frequent <==> r < 4 && f >= 4
    ensures seg == BigSpender <==> r != 5 && f < 4 && m >= 4
    ensures seg == Others <==> r != 5 && f < 4 && m < 4
  {
    if r >= 5 && f >= 4 then VIP
    else if r >= 4 && f >= 4 then Loyal
    else if r == 5 then Recent
    else if f >= 4 then Frequent
    else if m >= 4 then BigSpender
    else Others
  }

  /** `build_rfm` with this module's cascade. */
  function BuildRfm(txs: seq<Transaction>): (r: Result<seq<RfmRow>, RfmError>)
    ensures r.Ok? ==> forall i :: 0 <= i < |r.value| ==>
              r.value[i].segment == SegmentCustomer(r.value[i].rScore, r.value[i].fScore, r.value[i].mScore)
  {
    BuildSegmented(txs, SegmentCustomer);
    Build(txs, SegmentCustomer)
  }

  /**
   * For scores in 1..5 the six segments split the score cube: VIP is
   * R = 5 with F >= 4, whatever M is; Loyal R = 4 with F >= 4; Recent R = 5
   * with F < 4; Frequent R < 4 with F >= 4; Big Spender and Others the rest,
   * by M.
   */
  lemma SegmentsOfScores(r: int, f: int, m: int)
    requires 1 <= r <= 5 && 1 <= f <= 5 && 1 <= m <= 5
    ensures SegmentCustomer(r, f, m) == VIP <==> r == 5 && f >= 4
    ensures SegmentCustomer(r, f, m) == BigSpender <==> r < 5 && f < 4 && m >= 4
    ensures SegmentCustomer(r, f, m) == Others <==> r < 5 && f < 4 && m < 4
    ensures Label(SegmentCustomer(r, f, m)) in {"VIP", "Loyal", "Recent", "Frequent", "Big Spender", "Others"}
  {
  }

  /** The VIP rule comes first: R = 5, F = 5 is VIP even with the lowest M. */
  lemma VipBeforeRecentAndBigSpender()
    ensures SegmentCustomer(5, 5, 1) == VIP
    ensures SegmentCustomer(5, 4, 5) == VIP
  {
  }

  /**
   * Every row of a built table is labelled by this cascade: VIP exactly
   * when its recency score is 5 and its frequency score at least 4, and
   * otherwise as the remaining rules say.
   */
  lemma BuildRfmSegments(txs: seq<Transaction>, i: nat)
    requires BuildRfm(txs).Ok? && i < |BuildRfm(txs).value|
    ensures var row := BuildRfm(txs).value[i];
            (row.segment == VIP <==> row.rScore == 5 && row.fScore >= 4) &&
            (row.segment == Loyal <==> row.rScore == 4 && row.fScore >= 4) &&
            (row.segment == Recent <==> row.rScore == 5 && row.fScore < 4) &&
            (row.segment == Frequent <==> row.rScore < 4 && row.fScore >= 4) &&
            (row.segment == BigSpender <==> row.rScore < 5 && row.fScore < 4 && row.mScore >= 4) &&
            (row.segment == Others <==> row.rScore < 5 && row.fScore < 4 && row.mScore < 4)
  {
    ScoredRow(Aggregate(txs), SegmentCustomer, i);
  }
}
