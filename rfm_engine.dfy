/**
 * The RFM pipeline common to both copies of `build_rfm`: group the
 * transaction log by customer (ascending customer id), measure recency in
 * whole days before a snapshot one day after the latest transaction,
 * frequency as the number of distinct orders and monetary value as the
 * summed amounts; cut each metric into five equal-population bins (recency
 * reversed, frequency through its first ranks); write the three scores as a
 * three-digit code; and label each row with a segment cascade, which is the
 * one thing the two copies do differently.
 */
module RfmEngine {
  import opened Results
  import opened Quantiles

  /**
   * One line item of the log, projected onto the four columns the engine
   * reads: customer id, order id, timestamp (in seconds) and amount (in
   * cents).
   */
  datatype Transaction = Transaction(customer: int, order: int, time: int, amount: int)

  /** The six segments. */
  datatype Segment = VIP | Loyal | Recent | Frequent | BigSpender | Others

  /** The label a segment is shown with. */
  function Label(s: Segment): string {
    match s
    case VIP => "VIP"
    case Loyal => "Loyal"
    case Recent => "Recent"
    case Frequent => "Frequent"
    case BigSpender => "Big Spender"
    case Others => "Others"
  }

  /** The three metrics, in the order they are scored. */
  datatype Metric = RecencyMetric | FrequencyMetric | MonetaryMetric

  /** The binning library's refusal to cut a metric whose bin edges coincide. */
  datatype RfmError = BinEdgesNotUnique(metric: Metric)

  /** A customer's three metrics, after grouping and renaming. */
  datatype Totals = Totals(customer: int, recency: int, frequency: int, monetary: int)

  /** A row of the finished table. */
  datatype RfmRow = RfmRow(
    customer: int, recency: int, frequency: int, monetary: int,
    rScore: int, fScore: int, mScore: int, rfmScore: string, segment: Segment)

  // ---------------------------------------------------------------------
  // Grouping by customer.
  // ---------------------------------------------------------------------

  function CustomerIds(txs: seq<Transaction>): set<int> {
    set t | t in txs :: t.customer
  }

  /** `c` added to strictly ascending ids, unless it is already there. */
  function InsertId(c: int, cs: seq<int>): (r: seq<int>)
    requires StrictlyAscending(cs)
    ensures StrictlyAscending(r)
    ensures forall x :: x in r <==> x == c || x in cs
    ensures r != [] && (r[0] == c || (cs != [] && r[0] == cs[0]))
    decreases |cs|
  {
    if cs == [] || c < cs[0] then [c] + cs
    else if c == cs[0] then cs
    else
      var t := InsertId(c, cs[1..]);
      assert forall x :: x in cs <==> x == cs[0] || x in cs[1..] by {
        assert cs == [cs[0]] + cs[1..];
      }
      assert cs[0] < t[0];
      assert StrictlyAscending([cs[0]] + t) by {
        forall i, j | 0 <= i < j < |t| + 1
          ensures ([cs[0]] + t)[i] < ([cs[0]] + t)[j]
        {
          if i > 0 {
            assert ([cs[0]] + t)[i] == t[i - 1];
          }
        }
      }
      [cs[0]] + t
  }

  /** The groups, in the order grouping sorts them: each customer id once, ascending. */
  function Customers(txs: seq<Transaction>): (cs: seq<int>)
    ensures StrictlyAscending(cs)
    ensures forall c :: c in cs <==> c in CustomerIds(txs)
    decreases |txs|
  {
    if txs == [] then []
    else
      var p := txs[..|txs| - 1];
      assert txs == p + [txs[|txs| - 1]];
      assert CustomerIds(txs) == CustomerIds(p) + {txs[|txs| - 1].customer};
      InsertId(txs[|txs| - 1].customer, Customers(p))
  }

  /** The line items of customer `c`, in log order. */
  function Purchases(txs: seq<Transaction>, c: int): (ps: seq<Transaction>)
    ensures forall t :: t in ps <==> t in txs && t.customer == c
    decreases |txs|
  {
    if txs == [] then []
    else
      var p := txs[..|txs| - 1];
      var last := txs[|txs| - 1];
      assert txs == p + [last];
      if last.customer == c then Purchases(p, c) + [last] else Purchases(p, c)
  }

  /** The latest timestamp among some line items. */
  function Latest(ts: seq<Transaction>): (m: int)
    requires ts != []
    ensures forall t :: t in ts ==> t.time <= m
    ensures exists t :: t in ts && t.time == m
    decreases |ts|
  {
    if |ts| == 1 then ts[0].time
    else
      var m := Latest(ts[1..]);
      assert ts == [ts[0]] + ts[1..];
      if ts[0].time > m then ts[0].time else m
  }

  /** The sum of the amounts. */
  function Sum(ts: seq<Transaction>): int
    decreases |ts|
  {
    if ts == [] then 0 else Sum(ts[..|ts| - 1]) + ts[|ts| - 1].amount
  }

  /** The reference point of recency: one day (86400 seconds) after the latest transaction. */
  function Snapshot(txs: seq<Transaction>): int
    requires txs != []
  {
    Latest(txs) + 86400
  }

  /** When customer `c` last bought. */
  function LastSeen(txs: seq<Transaction>, c: int): int
    requires c in CustomerIds(txs)
  {
    PurchasesNonEmpty(txs, c);
    Latest(Purchases(txs, c))
  }

  /** A customer of the log has line items. */
  lemma PurchasesNonEmpty(txs: seq<Transaction>, c: int)
    requires c in CustomerIds(txs)
    ensures Purchases(txs, c) != []
  {
    var t :| t in txs && t.customer == c;
    assert t in Purchases(txs, c);
  }

  /** The snapshot is a day after every transaction, and exactly a day after the latest. */
  lemma SnapshotAfterAll(txs: seq<Transaction>)
    requires txs != []
    ensures forall t :: t in txs ==> t.time + 86400 <= Snapshot(txs)
    ensures exists t :: t in txs && t.time + 86400 == Snapshot(txs)
  {
    var m := Latest(txs);
    assert exists t :: t in txs && t.time == m;
    var u :| u in txs && u.time == m;
    assert u.time + 86400 == Snapshot(txs);
  }

  /** A customer's last purchase is the latest time among their own line items. */
  lemma LastSeenIsLatestPurchase(txs: seq<Transaction>, c: int)
    requires c in CustomerIds(txs)
    ensures forall t :: t in txs && t.customer == c ==> t.time <= LastSeen(txs, c)
    ensures exists t :: t in txs && t.customer == c && t.time == LastSeen(txs, c)
  {
    PurchasesNonEmpty(txs, c);
    var u :| u in Purchases(txs, c) && u.time == LastSeen(txs, c);
    assert u in txs && u.customer == c;
  }

  /** A customer's last purchase is no later than the latest transaction. */
  lemma LastSeenBounded(txs: seq<Transaction>, c: int)
    requires c in CustomerIds(txs)
    ensures txs != [] && LastSeen(txs, c) <= Latest(txs)
  {
    PurchasesNonEmpty(txs, c);
    var u :| u in Purchases(txs, c) && u.time == LastSeen(txs, c);
    assert u in txs;
  }

  /**
   * Whole days from the customer's last purchase to the snapshot, rounded
   * down; at least one, since the snapshot is a day after every purchase.
   */
  function Recency(txs: seq<Transaction>, c: int): (d: int)
    requires c in CustomerIds(txs)
    ensures d >= 1
  {
    LastSeenBounded(txs, c);
    (Snapshot(txs) - LastSeen(txs, c)) / 86400
  }

  /** The distinct order ids of customer `c`. */
  function Orders(txs: seq<Transaction>, c: int): (os: set<int>)
    ensures os != {} <==> c in CustomerIds(txs)
  {
    var os := set t | t in txs && t.customer == c :: t.order;
    assert c in CustomerIds(txs) ==> os != {} by {
      if c in CustomerIds(txs) {
        var t :| t in txs && t.customer == c;
        assert t.order in os;
      }
    }
    os
  }

  /** Customer `c`'s total spend. */
  function Spend(txs: seq<Transaction>, c: int): (m: int)
    ensures c !in CustomerIds(txs) ==> m == 0
  {
    var ps := Purchases(txs, c);
    assert c !in CustomerIds(txs) ==> ps == [] by {
      if ps != [] {
        assert ps[0] in ps;
      }
    }
    Sum(ps)
  }

  /** Logging one more line item adds it to its own customer's group, at the end, and to no other. */
  lemma PurchasesAppend(txs: seq<Transaction>, t: Transaction, c: int)
    ensures Purchases(txs + [t], c) == Purchases(txs, c) + (if t.customer == c then [t] else [])
  {
    assert (txs + [t])[..|txs|] == txs;
  }

  /** Logging one more line item adds its amount to its own customer's spend, and to no other. */
  lemma SpendAppend(txs: seq<Transaction>, t: Transaction, c: int)
    ensures Spend(txs + [t], c) == Spend(txs, c) + (if t.customer == c then t.amount else 0)
  {
    var ps := Purchases(txs, c);
    PurchasesAppend(txs, t, c);
    if t.customer == c {
      assert (ps + [t])[..|ps|] == ps;
    }
  }

  /** The grouped and renamed frame: one `Totals` per customer, ascending by id. */
  function Aggregate(txs: seq<Transaction>): (agg: seq<Totals>)
    ensures |agg| == |Customers(txs)|
  {
    var cs := Customers(txs);
    seq(|cs|, i requires 0 <= i < |cs| =>
      Totals(cs[i], Recency(txs, cs[i]), |Orders(txs, cs[i])|, Spend(txs, cs[i])))
  }

  function RecencyColumn(agg: seq<Totals>): (col: seq<int>)
    ensures |col| == |agg|
  {
    seq(|agg|, i requires 0 <= i < |agg| => agg[i].recency)
  }

  function FrequencyColumn(agg: seq<Totals>): (col: seq<int>)
    ensures |col| == |agg|
  {
    seq(|agg|, i requires 0 <= i < |agg| => agg[i].frequency)
  }

  function MonetaryColumn(agg: seq<Totals>): (col: seq<int>)
    ensures |col| == |agg|
  {
    seq(|agg|, i requires 0 <= i < |agg| => agg[i].monetary)
  }

  // ---------------------------------------------------------------------
  // Scores, code and segment.
  // ---------------------------------------------------------------------

  /** The decimal digit of a score. */
  function Digit(n: int): char
    requires 0 <= n <= 9
  {
    ('0' as int + n) as char
  }

  /** The value of a decimal digit. */
  function DigitValue(c: char): int {
    c as int - '0' as int
  }

  /** The three scores written one after the other: R, then F, then M. */
  function Code(r: int, f: int, m: int): string
    requires 1 <= r <= 5 && 1 <= f <= 5 && 1 <= m <= 5
  {
    [Digit(r), Digit(f), Digit(m)]
  }

  /** The code is three digits from '1' to '5' that read back as its three scores. */
  lemma CodeDigits(r: int, f: int, m: int)
    requires 1 <= r <= 5 && 1 <= f <= 5 && 1 <= m <= 5
    ensures |Code(r, f, m)| == 3
    ensures forall k :: 0 <= k < 3 ==> '1' <= Code(r, f, m)[k] <= '5'
    ensures DigitValue(Code(r, f, m)[0]) == r
    ensures DigitValue(Code(r, f, m)[1]) == f
    ensures DigitValue(Code(r, f, m)[2]) == m
  {
  }

  /** A row of the table from a customer's totals and scores. */
  function Row(t: Totals, r: int, f: int, m: int, cascade: (int, int, int) -> Segment): RfmRow
    requires 1 <= r <= 5 && 1 <= f <= 5 && 1 <= m <= 5
  {
    RfmRow(t.customer, t.recency, t.frequency, t.monetary, r, f, m, Code(r, f, m), cascade(r, f, m))
  }

  /**
   * The scored rows from the three bin columns: recency labels run 5..1
   * (the most recent bin scores 5), frequency and monetary labels 1..5.
   */
  function Score(agg: seq<Totals>, rb: seq<int>, fb: seq<int>, mb: seq<int>,
                 cascade: (int, int, int) -> Segment): (rows: seq<RfmRow>)
    requires |rb| == |agg| && |fb| == |agg| && |mb| == |agg|
    requires forall i :: 0 <= i < |agg| ==> 0 <= rb[i] < 5 && 0 <= fb[i] < 5 && 0 <= mb[i] < 5
    ensures |rows| == |agg|
  {
    seq(|agg|, i requires 0 <= i < |agg| => Row(agg[i], 5 - rb[i], fb[i] + 1, mb[i] + 1, cascade))
  }

  /**
   * The column assignments after grouping: recency, frequency (through its
   * first ranks) and monetary binning, in that order, the first metric that
   * cannot be cut being the error; then code and segment.
   */
  function Scored(agg: seq<Totals>, cascade: (int, int, int) -> Segment): Result<seq<RfmRow>, RfmError> {
    var rCut := QCut(RecencyColumn(agg));
    var fCut := QCut(RankFirst(FrequencyColumn(agg)));
    var mCut := QCut(MonetaryColumn(agg));
    if rCut.None? then Err(BinEdgesNotUnique(RecencyMetric))
    else if fCut.None? then Err(BinEdgesNotUnique(FrequencyMetric))
    else if mCut.None? then Err(BinEdgesNotUnique(MonetaryMetric))
    else Ok(Score(agg, rCut.value, fCut.value, mCut.value, cascade))
  }

  /** `build_rfm` with a given segment cascade: group, then score. */
  function Build(txs: seq<Transaction>, cascade: (int, int, int) -> Segment): Result<seq<RfmRow>, RfmError> {
    Scored(Aggregate(txs), cascade)
  }

  // ---------------------------------------------------------------------
  // Labels.
  // ---------------------------------------------------------------------

  /** Different segments are shown with different labels. */
  lemma LabelInjective(s: Segment, t: Segment)
    ensures Label(s) == Label(t) <==> s == t
  {
  }

  // ---------------------------------------------------------------------
  // Grouping.
  // ---------------------------------------------------------------------

  /**
   * The grouped frame has one entry per distinct customer id, in ascending
   * id order, each holding that customer's recency (at least 1),
   * distinct-order count and spend.
   */
  lemma AggregateRows(txs: seq<Transaction>)
    ensures var agg := Aggregate(txs);
            (forall i, j :: 0 <= i < j < |agg| ==> agg[i].customer < agg[j].customer) &&
            (forall c :: c in CustomerIds(txs) <==> exists i :: 0 <= i < |agg| && agg[i].customer == c) &&
            forall i :: 0 <= i < |agg| ==>
              agg[i].customer in CustomerIds(txs) &&
              agg[i].recency == Recency(txs, agg[i].customer) && agg[i].recency >= 1 &&
              agg[i].frequency == |Orders(txs, agg[i].customer)| &&
              agg[i].monetary == Spend(txs, agg[i].customer)
  {
    var cs := Customers(txs);
    var agg := Aggregate(txs);
    assert forall i :: 0 <= i < |agg| ==> agg[i].customer == cs[i];
    forall c | c in CustomerIds(txs)
      ensures exists i :: 0 <= i < |agg| && agg[i].customer == c
    {
      var i :| 0 <= i < |cs| && cs[i] == c;
      assert agg[i].customer == c;
    }
  }

  /** The customer holding the latest transaction of the log has recency 1. */
  lemma LatestCustomerRecency(txs: seq<Transaction>, t: Transaction)
    requires t in txs && t.time == Latest(txs)
    ensures t.customer in CustomerIds(txs)
    ensures LastSeen(txs, t.customer) == Latest(txs)
    ensures Recency(txs, t.customer) == 1
  {
    var c := t.customer;
    assert t in Purchases(txs, c);
    LastSeenBounded(txs, c);
    assert Snapshot(txs) - LastSeen(txs, c) == 86400;
  }

  /** A later last purchase never gives a larger recency. */
  lemma RecencyAntitone(txs: seq<Transaction>, a: int, b: int)
    requires a in CustomerIds(txs) && b in CustomerIds(txs)
    requires LastSeen(txs, b) <= LastSeen(txs, a)
    ensures Recency(txs, a) <= Recency(txs, b)
  {
  }

  /** Repeating a line item of the log leaves every customer's distinct orders as they were. */
  lemma RepeatedLineItemOrders(txs: seq<Transaction>, t: Transaction, c: int)
    requires t in txs
    ensures Orders(txs + [t], c) == Orders(txs, c)
    ensures CustomerIds(txs + [t]) == CustomerIds(txs)
  {
    assert forall u :: u in txs + [t] <==> u in txs;
  }

  /** Line items that all belong to one order give a frequency of 1. */
  lemma OneOrderFrequency(txs: seq<Transaction>, c: int, o: int)
    requires c in CustomerIds(txs)
    requires forall t :: t in txs && t.customer == c ==> t.order == o
    ensures |Orders(txs, c)| == 1
  {
    var t :| t in txs && t.customer == c;
    assert Orders(txs, c) == {o};
  }

  // ---------------------------------------------------------------------
  // Scoring the grouped frame.
  // ---------------------------------------------------------------------

  /** The row of customer `i` in scored rows. */
  lemma ScoreAt(agg: seq<Totals>, rb: seq<int>, fb: seq<int>, mb: seq<int>,
                cascade: (int, int, int) -> Segment, i: nat)
    requires |rb| == |agg| && |fb| == |agg| && |mb| == |agg|
    requires forall i :: 0 <= i < |agg| ==> 0 <= rb[i] < 5 && 0 <= fb[i] < 5 && 0 <= mb[i] < 5
    requires i < |agg|
    ensures Score(agg, rb, fb, mb, cascade)[i] == Row(agg[i], 5 - rb[i], fb[i] + 1, mb[i] + 1, cascade)
  {
  }

  /** A successful scoring is the scored rows of the three cuts. */
  lemma ScoredCuts(agg: seq<Totals>, cascade: (int, int, int) -> Segment)
    requires Scored(agg, cascade).Ok?
    ensures QCut(RecencyColumn(agg)).Some? && QCut(RankFirst(FrequencyColumn(agg))).Some?
    ensures QCut(MonetaryColumn(agg)).Some?
    ensures Scored(agg, cascade).value ==
              Score(agg, QCut(RecencyColumn(agg)).value, QCut(RankFirst(FrequencyColumn(agg))).value,
                    QCut(MonetaryColumn(agg)).value, cascade)
  {
  }

  /** The scores of a row are its bins, recency reversed. */
  lemma ScoredBins(agg: seq<Totals>, cascade: (int, int, int) -> Segment, i: nat)
    requires Scored(agg, cascade).Ok? && i < |agg|
    ensures QCut(RecencyColumn(agg)).Some? && QCut(RankFirst(FrequencyColumn(agg))).Some?
    ensures QCut(MonetaryColumn(agg)).Some?
    ensures |Scored(agg, cascade).value| == |agg|
    ensures Scored(agg, cascade).value[i] ==
              Row(agg[i], 5 - QCut(RecencyColumn(agg)).value[i], QCut(RankFirst(FrequencyColumn(agg))).value[i] + 1,
                  QCut(MonetaryColumn(agg)).value[i] + 1, cascade)
  {
    ScoredCuts(agg, cascade);
    ScoreAt(agg, QCut(RecencyColumn(agg)).value, QCut(RankFirst(FrequencyColumn(agg))).value,
            QCut(MonetaryColumn(agg)).value, cascade, i);
  }

  /**
   * A scored table keeps the grouped frame's rows in order, adds three
   * scores in 1..5 to each, and labels it with the segment the cascade gives
   * those scores.
   */
  lemma ScoredRow(agg: seq<Totals>, cascade: (int, int, int) -> Segment, i: nat)
    requires Scored(agg, cascade).Ok? && i < |agg|
    ensures |Scored(agg, cascade).value| == |agg|
    ensures var row := Scored(agg, cascade).value[i];
            row.customer == agg[i].customer && row.recency == agg[i].recency &&
            row.frequency == agg[i].frequency && row.monetary == agg[i].monetary &&
            1 <= row.rScore <= 5 && 1 <= row.fScore <= 5 && 1 <= row.mScore <= 5 &&
            row.segment == cascade(row.rScore, row.fScore, row.mScore)
  {
    ScoredBins(agg, cascade, i);
  }

  /** The code is three digits from '1' to '5' that read back as the R, F and M scores, in that order. */
  lemma ScoredCode(agg: seq<Totals>, cascade: (int, int, int) -> Segment, i: nat)
    requires Scored(agg, cascade).Ok? && i < |agg|
    ensures |Scored(agg, cascade).value| == |agg|
    ensures var row := Scored(agg, cascade).value[i];
            |row.rfmScore| == 3 &&
            (forall k :: 0 <= k < 3 ==> '1' <= row.rfmScore[k] <= '5') &&
            DigitValue(row.rfmScore[0]) == row.rScore &&
            DigitValue(row.rfmScore[1]) == row.fScore &&
            DigitValue(row.rfmScore[2]) == row.mScore
  {
    ScoredBins(agg, cascade, i);
    var row := Scored(agg, cascade).value[i];
    CodeDigits(row.rScore, row.fScore, row.mScore);
  }

  /**
   * Scoring succeeds exactly when both the recency and the monetary column
   * can be cut; frequency, cut on distinct first ranks, never fails once
   * recency has not (both need two customers), and the error names the
   * first metric that could not be cut.
   */
  lemma ScoredOutcome(agg: seq<Totals>, cascade: (int, int, int) -> Segment)
    ensures var rOk := QCut(RecencyColumn(agg)).Some?;
            var mOk := QCut(MonetaryColumn(agg)).Some?;
            (Scored(agg, cascade).Ok? <==> rOk && mOk) &&
            (Scored(agg, cascade) == Err(BinEdgesNotUnique(RecencyMetric)) <==> !rOk) &&
            (Scored(agg, cascade) == Err(BinEdgesNotUnique(MonetaryMetric)) <==> rOk && !mOk) &&
            Scored(agg, cascade) != Err(BinEdgesNotUnique(FrequencyMetric))
  {
    QCutRanks(FrequencyColumn(agg));
    if |agg| < 2 {
      QCutConstant(RecencyColumn(agg));
    }
  }

  /**
   * The cascade only decides the segment: scoring the same frame with
   * another cascade fails the same way, or gives the same rows with only
   * the segment recomputed from the same scores.
   */
  lemma ScoredWithOtherCascade(agg: seq<Totals>, c1: (int, int, int) -> Segment, c2: (int, int, int) -> Segment)
    ensures Scored(agg, c1).Err? ==> Scored(agg, c2) == Scored(agg, c1)
    ensures Scored(agg, c1).Ok? ==> Scored(agg, c2).Ok?
    ensures Scored(agg, c1).Ok? ==>
              var a := Scored(agg, c1).value;
              var b := Scored(agg, c2).value;
              |a| == |b| == |agg| &&
              forall i :: 0 <= i < |a| ==> b[i] == a[i].(segment := c2(a[i].rScore, a[i].fScore, a[i].mScore))
  {
    if Scored(agg, c1).Ok? {
      forall i | 0 <= i < |agg|
        ensures Scored(agg, c2).value[i] ==
                Scored(agg, c1).value[i].(segment := c2(Scored(agg, c1).value[i].rScore,
                                                        Scored(agg, c1).value[i].fScore,
                                                        Scored(agg, c1).value[i].mScore))
      {
        ScoredBins(agg, c1, i);
        ScoredBins(agg, c2, i);
      }
    }
  }

  /** Customers whose recencies are all equal (or fewer than two customers) cannot be scored. */
  lemma ConstantRecencyFails(agg: seq<Totals>, cascade: (int, int, int) -> Segment)
    requires forall i, j :: 0 <= i < |agg| && 0 <= j < |agg| ==> agg[i].recency == agg[j].recency
    ensures Scored(agg, cascade) == Err(BinEdgesNotUnique(RecencyMetric))
  {
    QCutConstant(RecencyColumn(agg));
  }

  /** Recency scoring is reversed: a smaller or equal recency never scores lower. */
  lemma RecencyScoreReversed(agg: seq<Totals>, cascade: (int, int, int) -> Segment, i: nat, j: nat)
    requires Scored(agg, cascade).Ok? && i < |agg| && j < |agg|
    requires agg[i].recency <= agg[j].recency
    ensures |Scored(agg, cascade).value| == |agg|
    ensures Scored(agg, cascade).value[i].rScore >= Scored(agg, cascade).value[j].rScore
  {
    QCutMonotone(RecencyColumn(agg), i, j);
    ScoredBins(agg, cascade, i);
    ScoredBins(agg, cascade, j);
  }

  /** The smallest recency scores 5. */
  lemma LeastRecencyScoresFive(agg: seq<Totals>, cascade: (int, int, int) -> Segment, i: nat)
    requires Scored(agg, cascade).Ok? && i < |agg|
    requires forall j :: 0 <= j < |agg| ==> agg[i].recency <= agg[j].recency
    ensures |Scored(agg, cascade).value| == |agg|
    ensures Scored(agg, cascade).value[i].recency == agg[i].recency
    ensures Scored(agg, cascade).value[i].rScore == 5
  {
    var rec := RecencyColumn(agg);
    ScoredBins(agg, cascade, i);
    assert QCut(rec).value[i] == 0 by {
      forall j | 0 <= j < |rec|
        ensures rec[i] <= rec[j]
      {
      }
      QCutExtremes(rec, i);
    }
  }

  /** The largest spend scores 5. */
  lemma LargestSpendScoresFive(agg: seq<Totals>, cascade: (int, int, int) -> Segment, i: nat)
    requires Scored(agg, cascade).Ok? && i < |agg|
    requires forall j :: 0 <= j < |agg| ==> agg[j].monetary <= agg[i].monetary
    ensures |Scored(agg, cascade).value| == |agg|
    ensures Scored(agg, cascade).value[i].mScore == 5
  {
    var mon := MonetaryColumn(agg);
    ScoredBins(agg, cascade, i);
    assert QCut(mon).value[i] == 4 by {
      forall j | 0 <= j < |mon|
        ensures mon[j] <= mon[i]
      {
      }
      QCutExtremes(mon, i);
    }
  }

  /** Monetary scoring is non-decreasing in the amount spent. */
  lemma MonetaryScoreMonotone(agg: seq<Totals>, cascade: (int, int, int) -> Segment, i: nat, j: nat)
    requires Scored(agg, cascade).Ok? && i < |agg| && j < |agg|
    requires agg[i].monetary <= agg[j].monetary
    ensures |Scored(agg, cascade).value| == |agg|
    ensures Scored(agg, cascade).value[i].mScore <= Scored(agg, cascade).value[j].mScore
  {
    QCutMonotone(MonetaryColumn(agg), i, j);
    ScoredBins(agg, cascade, i);
    ScoredBins(agg, cascade, j);
  }

  /**
   * Frequency scoring follows first ranks: a lower frequency, or an equal
   * one earlier in the frame, never scores higher.
   */
  lemma FrequencyScoreMonotone(agg: seq<Totals>, cascade: (int, int, int) -> Segment, i: nat, j: nat)
    requires Scored(agg, cascade).Ok? && i < |agg| && j < |agg|
    requires agg[i].frequency < agg[j].frequency || (agg[i].frequency == agg[j].frequency && i <= j)
    ensures |Scored(agg, cascade).value| == |agg|
    ensures Scored(agg, cascade).value[i].fScore <= Scored(agg, cascade).value[j].fScore
  {
    var freq := FrequencyColumn(agg);
    var ranks := RankFirst(freq);
    assert ranks[i] <= ranks[j] by {
      if i != j {
        assert Precedes(freq, i, j);
        RankOrder(freq, i, j);
      }
    }
    QCutMonotone(ranks, i, j);
    ScoredBins(agg, cascade, i);
    ScoredBins(agg, cascade, j);
  }

  /**
   * The top first rank scores 5: a frequency at least that of every
   * earlier row and above that of every later one (equal frequencies rank
   * by position, the later one higher).
   */
  lemma LargestFrequencyScoresFive(agg: seq<Totals>, cascade: (int, int, int) -> Segment, i: nat)
    requires Scored(agg, cascade).Ok? && i < |agg|
    requires forall j :: 0 <= j < i ==> agg[j].frequency <= agg[i].frequency
    requires forall j :: i < j < |agg| ==> agg[j].frequency < agg[i].frequency
    ensures |Scored(agg, cascade).value| == |agg|
    ensures Scored(agg, cascade).value[i].fScore == 5
  {
    var freq := FrequencyColumn(agg);
    var ranks := RankFirst(freq);
    ScoredBins(agg, cascade, i);
    assert QCut(ranks).value[i] == 4 by {
      forall j | 0 <= j < |ranks|
        ensures ranks[j] <= ranks[i]
      {
        if j != i {
          assert Precedes(freq, j, i);
          RankOrder(freq, j, i);
        }
      }
      QCutExtremes(ranks, i);
    }
  }

  /** The frequency score is the bin of the row's first rank among `n` evenly spaced ranks, plus one. */
  lemma FrequencyScoreFromRank(agg: seq<Totals>, cascade: (int, int, int) -> Segment, i: nat)
    requires Scored(agg, cascade).Ok? && i < |agg|
    ensures |Scored(agg, cascade).value| == |agg|
    ensures Scored(agg, cascade).value[i].fScore == RankBin(|agg|, RankFirst(FrequencyColumn(agg))[i]) + 1
  {
    var ranks := RankFirst(FrequencyColumn(agg));
    ScoredBins(agg, cascade, i);
    assert QCut(ranks).value[i] == RankBin(|agg|, ranks[i]) by {
      QCutRanks(FrequencyColumn(agg));
    }
  }

  // ---------------------------------------------------------------------
  // The whole build.
  // ---------------------------------------------------------------------

  /** A built table has one row per distinct customer id, in ascending id order. */
  lemma BuildOneRowPerCustomer(txs: seq<Transaction>, cascade: (int, int, int) -> Segment)
    requires Build(txs, cascade).Ok?
    ensures var rows := Build(txs, cascade).value;
            (forall i, j :: 0 <= i < j < |rows| ==> rows[i].customer < rows[j].customer) &&
            (forall c :: c in CustomerIds(txs) <==> exists i :: 0 <= i < |rows| && rows[i].customer == c)
  {
    var agg := Aggregate(txs);
    var rows := Build(txs, cascade).value;
    AggregateRows(txs);
    forall i | 0 <= i < |agg|
      ensures rows[i].customer == agg[i].customer
    {
      ScoredRow(agg, cascade, i);
    }
  }

  /** Every row of a built table carries the segment the cascade gives its own three scores. */
  lemma BuildSegmented(txs: seq<Transaction>, cascade: (int, int, int) -> Segment)
    ensures var r := Build(txs, cascade);
            r.Ok? ==> forall i :: 0 <= i < |r.value| ==>
              r.value[i].segment == cascade(r.value[i].rScore, r.value[i].fScore, r.value[i].mScore)
  {
    var agg := Aggregate(txs);
    if Build(txs, cascade).Ok? {
      forall i | 0 <= i < |agg|
        ensures var row := Scored(agg, cascade).value[i];
                row.segment == cascade(row.rScore, row.fScore, row.mScore)
      {
        ScoredRow(agg, cascade, i);
      }
    }
  }

  /** A customer who bought more recently never gets a lower recency score. */
  lemma LaterPurchaseScoresHigher(txs: seq<Transaction>, cascade: (int, int, int) -> Segment, i: nat, j: nat)
    requires Build(txs, cascade).Ok?
    requires i < |Aggregate(txs)| && j < |Aggregate(txs)|
    requires var agg := Aggregate(txs);
             agg[i].customer in CustomerIds(txs) && agg[j].customer in CustomerIds(txs) &&
             LastSeen(txs, agg[j].customer) <= LastSeen(txs, agg[i].customer)
    ensures |Build(txs, cascade).value| == |Aggregate(txs)|
    ensures Build(txs, cascade).value[i].rScore >= Build(txs, cascade).value[j].rScore
  {
    var agg := Aggregate(txs);
    AggregateRows(txs);
    RecencyAntitone(txs, agg[i].customer, agg[j].customer);
    RecencyScoreReversed(agg, cascade, i, j);
  }

  /** The customer holding the latest transaction has recency 1 and the top recency score. */
  lemma LatestCustomerScoresFive(txs: seq<Transaction>, cascade: (int, int, int) -> Segment, t: Transaction, i: nat)
    requires Build(txs, cascade).Ok?
    requires t in txs && t.time == Latest(txs)
    requires i < |Aggregate(txs)| && Aggregate(txs)[i].customer == t.customer
    ensures |Build(txs, cascade).value| == |Aggregate(txs)|
    ensures Build(txs, cascade).value[i].recency == 1
    ensures Build(txs, cascade).value[i].rScore == 5
  {
    LatestCustomerLeastRecency(txs, t, i);
    LeastRecencyBuiltScoresFive(txs, cascade, i);
  }

  /** In a built table, the customer with the least recency keeps it and scores R = 5. */
  lemma LeastRecencyBuiltScoresFive(txs: seq<Transaction>, cascade: (int, int, int) -> Segment, i: nat)
    requires Build(txs, cascade).Ok? && i < |Aggregate(txs)|
    requires forall j :: 0 <= j < |Aggregate(txs)| ==> Aggregate(txs)[i].recency <= Aggregate(txs)[j].recency
    ensures |Build(txs, cascade).value| == |Aggregate(txs)|
    ensures Build(txs, cascade).value[i].recency == Aggregate(txs)[i].recency
    ensures Build(txs, cascade).value[i].rScore == 5
  {
    LeastRecencyScoresFive(Aggregate(txs), cascade, i);
  }

  /** In the grouped frame, the entry of the customer holding the latest transaction has the least recency, 1. */
  lemma LatestCustomerLeastRecency(txs: seq<Transaction>, t: Transaction, i: nat)
    requires t in txs && t.time == Latest(txs)
    requires i < |Aggregate(txs)| && Aggregate(txs)[i].customer == t.customer
    ensures Aggregate(txs)[i].recency == 1
    ensures forall j :: 0 <= j < |Aggregate(txs)| ==> Aggregate(txs)[i].recency <= Aggregate(txs)[j].recency
  {
    AggregateRows(txs);
    LatestCustomerRecency(txs, t);
  }

  /** When every transaction carries the same timestamp, recency cannot be cut and the build fails. */
  lemma SameTimeFails(txs: seq<Transaction>, cascade: (int, int, int) -> Segment)
    requires forall i, j :: 0 <= i < |txs| && 0 <= j < |txs| ==> txs[i].time == txs[j].time
    ensures Build(txs, cascade) == Err(BinEdgesNotUnique(RecencyMetric))
  {
    var agg := Aggregate(txs);
    AggregateRows(txs);
    forall i | 0 <= i < |agg|
      ensures agg[i].recency == 1
    {
      var t :| t in txs && t.customer == agg[i].customer;
      LatestCustomerRecency(txs, t);
    }
    ConstantRecencyFails(agg, cascade);
  }

  /** A log with a single customer (or none) cannot be scored. */
  lemma OneCustomerFails(txs: seq<Transaction>, cascade: (int, int, int) -> Segment)
    requires forall i, j :: 0 <= i < |txs| && 0 <= j < |txs| ==> txs[i].customer == txs[j].customer
    ensures Build(txs, cascade) == Err(BinEdgesNotUnique(RecencyMetric))
  {
    var agg := Aggregate(txs);
    AggregateRows(txs);
    if txs != [] {
      assert forall k :: 0 <= k < |agg| ==> agg[k].customer == txs[0].customer;
    }
    ConstantRecencyFails(agg, cascade);
  }
}
