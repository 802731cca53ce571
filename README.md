# RFM segmentation and decision-tree rule translation, in Dafny

This project models the analytical core of a retail customer dashboard.

**The RFM engine.** `build_rfm` takes a transaction log and produces one row per customer. It groups the log by customer id and computes three metrics:

- recency: whole days from a snapshot one day after the latest transaction to the customer's last purchase;
- frequency: the number of distinct order ids;
- monetary: the sum of the amounts.

Each metric becomes a 1..5 score through five-way quantile binning (`pd.qcut`):

- recency labels are reversed, so the most recent bin scores 5;
- frequency is binned through its `rank(method='first')`.

The three scores are concatenated into a three-digit code. A first-match cascade (`segment_customer`) then labels the row VIP, Loyal, Recent, Frequent, Big Spender or Others.

Two copies of the engine exist, `shared/rfm.py` and `src/rfm.py`, and they differ only in the VIP rule. The shared copy needs R >= 5 and F >= 4. The application copy needs R >= 5 and F >= 5.

**The rule translator.** `explain_tree` reads the text dump of a fitted decision tree (`|   ` indents, `|--- ` node markers). `parse_rule_line` turns each line into a depth and an English sentence. The translator keeps the root-to-node path as a stack and emits the joined path at every leaf (`THEN ...`).

The modules:

- `Results`: `Option` and `Result`.
- `Text`: the Python `str` operations the translator relies on, with Python's semantics over `seq<char>`: `strip`, `count`, `replace`, `split`, `join`, `in`.
- `Rules`: `parse_rule_line`, the walk of `explain_tree` as a specification function, and `ExplainTree`, the loop itself, proved equal to it.
- `Quantiles`: an exact model of `pd.qcut(x, 5)` and of `rank(method='first')`.
  - Edges are linear-interpolated quantiles at 0, 1/5, ..., 1 of the sorted values, computed in `real`.
  - Bins are right-closed, and the lowest edge is included.
  - Repeated edges make the cut fail, the "Bin edges must be unique" error.
- `RfmEngine`: grouping, scoring, the code and the error cases, shared by both copies. It is parameterised by the segment cascade.
- `SharedRfm`, `SrcRfm`: the two cascades, their `build_rfm`, and where they diverge.

Modelling choices:

- `build_rfm` changes its frame one whole column at a time (rename, then the `R_Score`, `F_Score`, `M_Score`, `RFM_Score` and `Segment` assignments). It is therefore modelled as a chain of functions over a sequence of per-customer records: `Aggregate`, then `Scored`.
- Timestamps are integer seconds. A day is 86400 seconds.
- Amounts and ids are integers, for example amounts in cents.
- `pd.qcut`'s `ValueError` and `IndexError` in the translator are `Err` values.

Behaviour of the code worth noting:

- Fewer than five customers do not by themselves make the cut fail. The cut succeeds whenever the six quantile edges are distinct. Three customers with evenly spaced values land in bins 0, 2 and 4, which are scores 1, 3 and 5 for F and M and 5, 3 and 1 for R (`Quantiles.QCutThreeValues`).
- A log whose transactions all share one timestamp always fails on recency, whatever the number of customers (`RfmEngine.SameTimeFails`).
- A log with one customer, or an empty log, fails on recency (`RfmEngine.OneCustomerFails`).
- Frequency can never be the failing metric. Its first ranks are distinct, so the cut can fail only when recency has already failed (`RfmEngine.ScoredOutcome`).

## Model

| member | source | states |
|---|---|---|
| SharedRfm.SegmentCustomer | shared/rfm.py:4-16 | the first-match cascade: exactly which scores give each of the six segments once earlier rules fail (VIP iff R>=5 and F>=4, Loyal iff R=4 and F>=4, Recent iff R=5 and F<4, Frequent iff R<4 and F>=4, Big Spender and Others by M among the rest) |
| SharedRfm.SegmentsOfScores | shared/rfm.py:4-16 | for scores in 1..5: VIP iff R=5 and F>=4 whatever M is; Big Spender iff R<5, F<4, M>=4; Others iff R<5, F<4, M<4; the label is one of the six |
| SharedRfm.VipBeforeRecentAndBigSpender | shared/rfm.py:5-6 | rule priority: (5,5,1) and (5,4,5) are VIP |
| SharedRfm.BuildRfmSegments | shared/rfm.py:39 | every row of a built table is segmented by the shared cascade, in terms of its own scores |
| SharedRfm.BuildRfm | shared/rfm.py:18-40 | a successful build labels every row with the shared cascade applied to that row's own R, F and M scores |
| SrcRfm.SegmentCustomer | src/rfm.py:4-16 | the stricter cascade: VIP iff R>=5 and F>=5; Loyal also takes R>=5 with F=4; the remaining rules as in the shared copy |
| SrcRfm.VipOnlyAtTop | src/rfm.py:5-8 | for scores in 1..5, VIP iff R=F=5, and Loyal iff R,F>=4 but not both 5 |
| SrcRfm.CascadesDiverge | src/rfm.py:5-6 | the two cascades differ exactly when R>=5 and F=4, where the shared one says VIP and this one Loyal |
| SrcRfm.BuildRfm | src/rfm.py:18-40 | a successful build labels every row with the stricter cascade applied to that row's own R, F and M scores |
| SrcRfm.BuildsDiverge | src/rfm.py:18-40 | on the same log both builds fail identically or both succeed; then they agree row for row except the segment, which differs exactly on rows scored R=5, F=4 |
| RfmEngine.InsertId | shared/rfm.py:21 | inserting an id into strictly ascending ids keeps them strictly ascending and adds exactly that id |
| RfmEngine.Customers | shared/rfm.py:21 | the group keys: the distinct customer ids of the log, strictly ascending |
| RfmEngine.Purchases | shared/rfm.py:21 | a customer's group holds exactly the transactions that carry their id |
| RfmEngine.PurchasesAppend | shared/rfm.py:21 | one more line item goes to the end of its own customer's group and to no other group, so every line item is kept once, in log order |
| RfmEngine.SpendAppend | shared/rfm.py:24 | one more line item adds its amount to its own customer's spend and to no one else's, so repeated line items are each counted |
| RfmEngine.Spend | shared/rfm.py:24 | a customer who is not in the log spends 0 |
| RfmEngine.Orders | shared/rfm.py:23 | a customer has at least one order id iff they are in the log |
| RfmEngine.Latest | shared/rfm.py:19 | the maximum timestamp, attained by some transaction |
| RfmEngine.SnapshotAfterAll | shared/rfm.py:19 | the snapshot is at least one day after every transaction, and exactly one day after some transaction |
| RfmEngine.LastSeenIsLatestPurchase | shared/rfm.py:22 | a customer's last-seen time is no earlier than any of their purchases and is the time of one of them |
| RfmEngine.PurchasesNonEmpty | shared/rfm.py:21 | every customer of the log has at least one line item in their group |
| RfmEngine.LastSeenBounded | shared/rfm.py:19-22 | a customer's last purchase is no later than the latest transaction of the log |
| RfmEngine.Recency | shared/rfm.py:22 | whole days from the snapshot to the customer's last purchase, at least 1 |
| RfmEngine.Aggregate | shared/rfm.py:21-25 | one grouped entry per distinct customer |
| RfmEngine.AggregateRows | shared/rfm.py:21-32 | the grouped frame: ascending distinct customers, each customer of the log present, each entry holding its recency (>= 1), distinct-order count and spend |
| RfmEngine.LatestCustomerRecency | shared/rfm.py:19-22 | the customer holding the latest transaction has recency 1 |
| RfmEngine.RecencyAntitone | shared/rfm.py:22 | a later last purchase never gives a larger recency |
| RfmEngine.RepeatedLineItemOrders | shared/rfm.py:23 | repeating a line item changes neither the order set nor the customer set |
| RfmEngine.OneOrderFrequency | shared/rfm.py:23 | a customer whose line items all share one order id has frequency 1 |
| RfmEngine.CodeDigits | shared/rfm.py:38 | the code has three characters in '1'..'5' reading back as R, F, M in that order |
| RfmEngine.Score | shared/rfm.py:35-39 | one scored row per grouped entry |
| RfmEngine.ScoredRow | shared/rfm.py:35-39 | each scored row keeps the customer's metrics, has three scores in 1..5, and carries the cascade's segment for them |
| RfmEngine.ScoredCode | shared/rfm.py:38 | each row's code is three digits '1'..'5' that read back as its R, F, M scores |
| RfmEngine.ScoredOutcome | shared/rfm.py:35-37 | scoring succeeds iff recency and monetary can both be cut; the error names recency first, then monetary; never frequency |
| RfmEngine.ScoredWithOtherCascade | shared/rfm.py:39 | changing the cascade changes only the segment column, and never success or failure |
| RfmEngine.ConstantRecencyFails | shared/rfm.py:35 | equal recencies for all customers cannot be binned |
| RfmEngine.RecencyScoreReversed | shared/rfm.py:35 | a smaller or equal recency never gets a lower R score |
| RfmEngine.LeastRecencyScoresFive | shared/rfm.py:35 | a customer whose recency is the least of all scores R = 5, and the scored row keeps that recency |
| RfmEngine.LargestSpendScoresFive | shared/rfm.py:37 | a customer whose spend is the largest of all (ties allowed) scores M = 5 |
| RfmEngine.LargestFrequencyScoresFive | shared/rfm.py:36 | a customer whose frequency is at least every earlier customer's and above every later one's, which is the top first rank, scores F = 5 |
| RfmEngine.MonetaryScoreMonotone | shared/rfm.py:37 | a smaller or equal spend never gets a higher M score |
| RfmEngine.FrequencyScoreMonotone | shared/rfm.py:36 | a lower frequency, or an equal one earlier in id order, never gets a higher F score |
| RfmEngine.FrequencyScoreFromRank | shared/rfm.py:36 | the F score is fixed by the first rank alone: 1 + the number of evenly spaced rank edges below it |
| RfmEngine.BuildOneRowPerCustomer | shared/rfm.py:18-40 | a built table has exactly one row per distinct customer id, in ascending id order |
| RfmEngine.BuildSegmented | shared/rfm.py:39 | every row of a built table carries the cascade's segment for that row's own scores |
| RfmEngine.LaterPurchaseScoresHigher | shared/rfm.py:22-35 | a customer who bought later never gets a lower R score |
| RfmEngine.LatestCustomerScoresFive | shared/rfm.py:19-35 | the customer holding the latest transaction has recency 1 and R score 5 |
| RfmEngine.LatestCustomerLeastRecency | shared/rfm.py:19-22 | the customer holding the latest transaction has recency 1, the least of all customers |
| RfmEngine.LeastRecencyBuiltScoresFive | shared/rfm.py:35 | in a built table, the row with the least recency has R score 5 |
| RfmEngine.SameTimeFails | shared/rfm.py:19-35 | a log whose transactions share one timestamp fails on recency |
| RfmEngine.OneCustomerFails | shared/rfm.py:19-35 | a log with one customer (or none) fails on recency |
| RfmEngine.LabelInjective | shared/rfm.py:4-16 | the six labels are pairwise distinct |
| Quantiles.InsertSpec | shared/rfm.py:35 | insertion into ascending values keeps them ascending and adds exactly the value |
| Quantiles.SortSpec | shared/rfm.py:35 | sorting gives an ascending permutation of the values |
| Quantiles.SortAscending | shared/rfm.py:35 | sorting leaves already ascending values unchanged |
| Quantiles.LerpBetween | shared/rfm.py:35 | linear interpolation between two ordered points stays between them and grows with the fraction |
| Quantiles.Lerp | shared/rfm.py:35 | the weighted mean ((5 - t) a + t b) / 5 is numpy's linear interpolation a + (b - a) t/5 |
| Quantiles.QuantileBracket | shared/rfm.py:35 | the quantile at h/5 lies between the order statistics around it, and is one of them at whole positions |
| Quantiles.QuantileMonotone | shared/rfm.py:35 | quantiles never decrease with the position |
| Quantiles.EdgesOf | shared/rfm.py:35 | six edges, the first and last being the minimum and maximum |
| Quantiles.EdgesOfNonDecreasing | shared/rfm.py:35 | the edges of ascending values never decrease |
| Quantiles.Edges | shared/rfm.py:35 | the edges of any values: six, non-decreasing |
| Quantiles.EdgesSpan | shared/rfm.py:35 | every value lies between the first and last edge, which are themselves values |
| Quantiles.UniqueEdgesIncrease | shared/rfm.py:35 | unique edges are strictly increasing |
| Quantiles.Bin | shared/rfm.py:35 | a bin index below 5 |
| Quantiles.BinMonotone | shared/rfm.py:35-37 | a larger value is never in an earlier bin |
| Quantiles.BinInterval | shared/rfm.py:35-37 | a value is in bin b iff it lies in (e_b, e_b+1], bin 0 closed below |
| Quantiles.QCut | shared/rfm.py:35-37 | the cut succeeds iff the values are non-empty and the edges unique; then one bin in 0..4 per value |
| Quantiles.QCutMonotone | shared/rfm.py:35-37 | the cut is monotone in the values |
| Quantiles.QCutIntervals | shared/rfm.py:35-37 | each value is in the bin whose interval holds it, and no other |
| Quantiles.QCutExtremes | shared/rfm.py:35-37 | the smallest value is in bin 0 and the largest in bin 4 |
| Quantiles.QCutConstant | shared/rfm.py:35-37 | all-equal values cannot be cut |
| Quantiles.QCutThreeValues | shared/rfm.py:35-37 | three evenly spaced values are cut into bins 0, 2 and 4 |
| Quantiles.ThreeValueEdges | shared/rfm.py:35 | the edges of three evenly spaced values are a fifth of their range apart |
| Quantiles.EdgesOfAscending | shared/rfm.py:35 | ascending values are their own order statistics |
| Quantiles.CountPreceding | shared/rfm.py:36 | the number of earlier-ranked positions is at most the range counted |
| Quantiles.PrecedesOrder | shared/rfm.py:36 | the tie-breaking order of `rank(method='first')` is a strict total order on positions: irreflexive, asymmetric, transitive and total |
| Quantiles.RankFirst | shared/rfm.py:36 | `rank(method='first')`: one rank in 1..n per value |
| Quantiles.RankOrder | shared/rfm.py:36 | j ranks below i iff j has a smaller value, or an equal value and comes first |
| Quantiles.RankInjective | shared/rfm.py:36 | distinct positions get distinct ranks |
| Quantiles.RankPermutation | shared/rfm.py:36 | the first ranks are a permutation of 1..n |
| Quantiles.IotaQuantile | shared/rfm.py:36 | the quantile at h/5 of 1..n is 1 + h/5 |
| Quantiles.EvenEdges | shared/rfm.py:36 | six evenly spaced edges |
| Quantiles.IotaEdges | shared/rfm.py:36 | the edges of 1..n are evenly spaced |
| Quantiles.EvenEdgesUnique | shared/rfm.py:36 | evenly spaced edges of 1..n are unique iff n >= 2 |
| Quantiles.QCutRanks | shared/rfm.py:36 | first ranks can be cut iff there are at least two values, and then each is in its integer rank bin |
| Text.LeadingSpaces | shared/rules.py:4 | the run `strip` removes in front: all of it is whitespace, and what follows it (if anything) is not |
| Text.TrailingSpaces | shared/rules.py:4 | the run `strip` removes at the back: all of it is whitespace, and what precedes it (if anything) is not |
| Text.Strip | shared/rules.py:4 | `strip`: the slice of the line after its leading whitespace and before an all-whitespace tail; empty iff the line is all whitespace; otherwise it starts and ends with a non-space |
| Text.StripUnchanged | shared/rules.py:4 | a string with non-space ends strips to itself |
| Text.StripLeadingSpace | shared/rules.py:4 | a leading space does not change the stripped string |
| Text.Split | shared/rules.py:7-10 | `split(sep)`: at least one field, none holding the separator |
| Text.JoinSplit | shared/rules.py:7-10 | joining the fields with the separator gives the string back |
| Text.SplitJoin | shared/rules.py:7-10 | splitting fields joined by a separator they do not contain gives the fields back |
| Text.SplitWithoutSeparator | shared/rules.py:7-10 | a string without the separator is one field |
| Text.SplitFirstPiece | shared/rules.py:7-10 | a separator-free piece followed by the separator splits into that piece, then the fields of the rest |
| Text.Contains | shared/rules.py:6 | `p in s`: holds when p is a prefix of s, and only for p no longer than s |
| Text.ContainsAt | shared/rules.py:6 | `p in s` iff p starts at some position of s |
| Text.Count | shared/rules.py:3 | `count`: the non-overlapping occurrences fit in the string, count times pattern length at most its length |
| Text.NotContainsMissingChar | shared/rules.py:6 | a string without a character contains no pattern holding it |
| Text.CountWithoutFirstChar | shared/rules.py:3 | a string without the pattern's first character has count 0 |
| Text.CountRepeat | shared/rules.py:3 | n copies of a pattern then a pattern-free rest count n |
| Text.ReplaceWithoutFirstChar | shared/rules.py:4 | a string without the target's first character is unchanged by replace |
| Text.ReplaceLength | shared/rules.py:4 | `replace` substitutes each counted occurrence: the length changes by the count times the length difference of replacement and target |
| Text.ReplaceRepeat | shared/rules.py:4 | deleting a pattern removes leading copies of it |
| Text.ReplaceChar | shared/rules.py:11 | replacing one character by another changes exactly those positions |
| Text.Join | shared/rules.py:31 | the join of a non-empty list starts with its first element |
| Text.JoinEndsWithLast | shared/rules.py:31 | a join of a non-empty list ends with its last element |
| Rules.Content | shared/rules.py:4 | the content left after stripping and removing markers and indents is no longer than the line |
| Rules.Conclusion | shared/rules.py:8 | the sentence starts with `THEN`; it is `THEN → lbl` iff the class is "1" |
| Rules.Condition | shared/rules.py:11-17 | the sentence is exactly the feature name, underscores turned into spaces, followed by the tail: `is **No**` for `<=` and `is **Yes**` otherwise at threshold 0.50; ` ≤ ` or ` > ` (by the operator) and the threshold at any other threshold |
| Rules.ParseRuleLine | shared/rules.py:2-18 | depth is the count of indents; the sentence starts with THEN iff the content holds `class:`; IndexError iff a split line lacks fields |
| Rules.BranchReplaceSkipsIndents | shared/rules.py:4 | removing node markers keeps the leading indents |
| Rules.IndentReplaceSkipped | shared/rules.py:4 | one leading indent passes marker removal unchanged |
| Rules.DumpLineStripped | shared/rules.py:4 | a dump line ending in a non-space strips to itself |
| Rules.DumpLineDepth | shared/rules.py:3 | the depth of a dump line is its number of indents |
| Rules.DumpLineBody | shared/rules.py:4 | removing markers and indents from a dump line leaves its node text |
| Rules.DumpLineContent | shared/rules.py:3-4 | a dump line's depth and content are its indent count and node text |
| Rules.SplitTextJoinsFields | shared/rules.py:10 | a split node's text is its fields joined by spaces |
| Rules.SplitTextFields | shared/rules.py:6-10 | a split node's text is not a leaf and splits into feature, op and value (with an empty field after `>`) |
| Rules.ParseSplitContent | shared/rules.py:9-18 | a split content parses to its depth and "IF" + the condition |
| Rules.ParseSplitLine | shared/rules.py:9-18 | a split dump line parses to its depth and the condition on its feature: underscores as spaces, value from parts[2] or parts[3], "is **No**"/"is **Yes**" at 0.50, else `≤`/`>` the value |
| Rules.LeafTextTagged | shared/rules.py:6 | a leaf's text holds `class:` |
| Rules.LeafTextFields | shared/rules.py:7 | a leaf's text splits on colons into the tag and the spaced class |
| Rules.LeafTextJoinsFields | shared/rules.py:7 | the tag and spaced class joined by a colon are the leaf's text |
| Rules.ParseLeafContent | shared/rules.py:6-8 | a leaf content parses to its depth and the conclusion for its class |
| Rules.ParseLeafLine | shared/rules.py:6-8 | a leaf line parses to `THEN → lbl` for class 1 and `THEN → Not lbl` otherwise |
| Rules.VisitKeepsPathStack | shared/rules.py:25-31 | a blank line changes nothing; otherwise the visit fails iff the line does not parse, and the path becomes the old path cut to the depth plus the new sentence, and one rule (the joined path) is added iff the sentence starts with THEN |
| Rules.Visit | shared/rules.py:25-31 | a successful visit only appends to the rules, at most one, and grows the path by at most one |
| Rules.WalkEmitsOneRulePerLeaf | shared/rules.py:24-31 | the walk succeeds iff every non-blank line parses; then it emits one rule per leaf line, in order, each ending with its leaf sentence |
| Rules.Walk | shared/rules.py:24-31 | a successful walk emits at most one rule per line and keeps a path no longer than the lines read |
| Rules.RulesEndWithLeaves | shared/rules.py:30-31 | adding a leaf's joined path keeps every rule ending with its leaf |
| Rules.WalkAbortIsFinal | shared/rules.py:27 | once a line fails to parse, the whole walk fails |
| Rules.TranslationAborted | shared/rules.py:27 | an aborted walk is the IndexError |
| Rules.Translation | shared/rules.py:20-33 | the translation holds at most one rule per line of the dump |
| Rules.VisitLine | shared/rules.py:25-31 | the loop body computes exactly the visit of the line |
| Rules.WalkLine | shared/rules.py:24-31 | loop step i extends the walk over the first i lines by line i |
| Rules.ExplainTree | shared/rules.py:20-33 | the loop over the split dump returns exactly the translation of the walk |

## Left out

- The `clf.apply(predictors)` call and the leaf ids it returns (shared/rules.py:32) belong to a scikit-learn classifier that is not part of this model. `ExplainTree` returns only the translated rules.
- `pd.qcut`'s floating-point edge arithmetic is replaced by exact rational edges. A float rounding that makes two nearly equal edges compare equal, or not, is not modelled.
- Timestamps are integer seconds and amounts are integers, for example cents. `timedelta.days` is floor division by 86400, which is exact for the non-negative differences that occur here.
- The column-name parameters of the shared `build_rfm` and the fixed column names of the application one are the fields of `Transaction`. The `rename` step (shared/rfm.py:28-32) is the field names of `RfmRow`.
- The pandas frame is a sequence of rows in ascending customer id order, which is `groupby`'s sorted index. The frame's index and dtypes are not modelled.
- Missing columns (pandas `KeyError`) cannot occur in a typed transaction.
- Rules.ParseRuleLine: for arbitrary lines the contract characterises the depth, leaf detection and the IndexError. The exact sentence is proved for lines in the tree-dump format (`Rules.ParseSplitLine`, `Rules.ParseLeafLine`).
- The dashboard pages, data simulation, forms, the recommendation and churn models, and plotting are not part of this model.
