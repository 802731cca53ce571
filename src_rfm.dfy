/**
 * `segment_customer` and `build_rfm` as the application module defines
 * them: the same pipeline with fixed column names, and a stricter VIP rule
 * that needs frequency score 5.
 */
module SrcRfm {
  import opened Results
  import opened RfmEngine
  import SharedRfm

  /** The segment cascade with VIP at R >= 5 and F >= 5. */
  function SegmentCustomer(r: int, f: int, m: int): (seg: Segment)
    ensures seg == VIP <==> r >= 5 && f >= 5
    ensures seg == Loyal <==> (r == 4 && f >= 4) || (r >= 5 && f == 4)
    ensures seg == Recent <==> r == 5 && f < 4
    ensures seg == Frequent <==> r < 4 && f >= 4
    ensures seg == BigSpender <==> r != 5 && f < 4 && m >= 4
    ensures seg == Others <==> r != 5 && f < 4 && m < 4
  {
    if r >= 5 && f >= 5 then VIP
    else if r >= 4 && f >= 4 then Loyal
    else if r == 5 then Recent
    else if f >= 4 then Frequent
    else if m >= 4 then BigSpender
    else Others
  }

  /** `build_rfm` on the `InvoiceDate`, `InvoiceNo`, `Revenue` and `CustomerID` columns. */
  function BuildRfm(txs: seq<Transaction>): (r: Result<seq<RfmRow>, RfmError>)
    ensures r.Ok? ==> forall i :: 0 <= i < |r.value| ==>
              r.value[i].segment == SegmentCustomer(r.value[i].rScore, r.value[i].fScore, r.value[i].mScore)
  {
    BuildSegmented(txs, SegmentCustomer);
    Build(txs, SegmentCustomer)
  }

  /** With scores bounded by 5, VIP means the top score in both recency and frequency. */
  lemma VipOnlyAtTop(r: int, f: int, m: int)
    requires 1 <= r <= 5 && 1 <= f <= 5 && 1 <= m <= 5
    ensures SegmentCustomer(r, f, m) == VIP <==> r == 5 && f == 5
    ensures SegmentCustomer(r, f, m) == Loyal <==> r >= 4 && f >= 4 && !(r == 5 && f == 5)
    ensures Label(SegmentCustomer(r, f, m)) in {"VIP", "Loyal", "Recent", "Frequent", "Big Spender", "Others"}
  {
  }

  /**
   * The two cascades disagree exactly when R >= 5 and F = 4, where the
   * shared one says VIP and this one says Loyal.
   */
  lemma CascadesDiverge(r: int, f: int, m: int)
    ensures SharedRfm.SegmentCustomer(r, f, m) != SegmentCustomer(r, f, m) <==> r >= 5 && f == 4
    ensures r >= 5 && f == 4 ==> SharedRfm.SegmentCustomer(r, f, m) == VIP && SegmentCustomer(r, f, m) == Loyal
  {
  }

  /**
   * On the same log the two builds fail alike or both succeed, and then
   * the tables agree row for row except the segment, which differs exactly
   * on rows scored R = 5, F = 4: VIP in the shared table, Loyal here.
   */
  lemma BuildsDiverge(txs: seq<Transaction>)
    ensures BuildRfm(txs).Err? ==> BuildRfm(txs) == SharedRfm.BuildRfm(txs)
    ensures BuildRfm(txs).Ok? <==> SharedRfm.BuildRfm(txs).Ok?
    ensures BuildRfm(txs).Ok? ==>
              var a := SharedRfm.BuildRfm(txs).value;
              var b := BuildRfm(txs).value;
              |a| == |b| &&
              forall i :: 0 <= i < |a| ==>
                b[i] == a[i].(segment := b[i].segment) &&
                (a[i].segment != b[i].segment <==> a[i].rScore == 5 && a[i].fScore == 4) &&
                (a[i].segment != b[i].segment ==> a[i].segment == VIP && b[i].segment == Loyal)
  {
    var agg := Aggregate(txs);
    ScoredWithOtherCascade(agg, SegmentCustomer, SharedRfm.SegmentCustomer);
    ScoredWithOtherCascade(agg, SharedRfm.SegmentCustomer, SegmentCustomer);
    if BuildRfm(txs).Ok? {
      var a := SharedRfm.BuildRfm(txs).value;
      var b := BuildRfm(txs).value;
      forall i | 0 <= i < |a|
        ensures b[i] == a[i].(segment := b[i].segment)
        ensures a[i].segment != b[i].segment <==> a[i].rScore == 5 && a[i].fScore == 4
        ensures a[i].segment != b[i].segment ==> a[i].segment == VIP && b[i].segment == Loyal
      {
        ScoredRow(agg, SharedRfm.SegmentCustomer, i);
        CascadesDiverge(a[i].rScore, a[i].fScore, a[i].mScore);
      }
    }
  }
}
