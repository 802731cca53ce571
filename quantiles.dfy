/**
 * Equal-population binning as the RFM engine uses it: `qcut(x, 5)` with
 * edges at the 0, 1/5, ..., 5/5 quantiles of the values (linear
 * interpolation between order statistics, computed exactly), right-closed
 * bins with the lowest value included, and a failure when two edges
 * coincide; and `rank(method='first')`, which orders equal values by their
 * position.
 */
module Quantiles {
  import opened Results

  // ---------------------------------------------------------------------
  // Sorting: the order statistics the quantiles are read from.
  // ---------------------------------------------------------------------

  predicate Ascending(s: seq<int>) {
    forall i, j :: 0 <= i < j < |s| ==> s[i] <= s[j]
  }

  predicate StrictlyAscending(s: seq<int>) {
    forall i, j :: 0 <= i < j < |s| ==> s[i] < s[j]
  }

  /** `x` placed before the first element not below it. */
  function Insert(x: int, s: seq<int>): seq<int>
    decreases |s|
  {
    if s == [] || x <= s[0] then [x] + s else [s[0]] + Insert(x, s[1..])
  }

  /** Inserting into ascending values keeps them ascending and adds exactly `x`. */
  lemma {:induction false} InsertSpec(x: int, s: seq<int>)
    requires Ascending(s)
    ensures Ascending(Insert(x, s))
    ensures multiset(Insert(x, s)) == multiset(s) + multiset{x}
    ensures Insert(x, s)[0] == x || (s != [] && Insert(x, s)[0] == s[0])
    decreases |s|
  {
    if s == [] || x <= s[0] {
      AscendingCons(x, s);
    } else {
      var t := Insert(x, s[1..]);
      InsertSpec(x, s[1..]);
      AscendingCons(s[0], t);
      assert s == [s[0]] + s[1..];
    }
  }

  /** An element no larger than the head of ascending values extends them. */
  lemma AscendingCons(y: int, t: seq<int>)
    requires Ascending(t) && (t == [] || y <= t[0])
    ensures Ascending([y] + t)
  {
    var r := [y] + t;
    forall i, j | 0 <= i < j < |r|
      ensures r[i] <= r[j]
    {
      if i == 0 {
        assert r[j] == t[j - 1] && t[0] <= t[j - 1];
      } else {
        assert r[i] == t[i - 1] && r[j] == t[j - 1];
      }
    }
  }

  /** The values in ascending order, by insertion. */
  function Sort(s: seq<int>): seq<int>
    decreases |s|
  {
    if s == [] then [] else Insert(s[|s| - 1], Sort(s[..|s| - 1]))
  }

  /** Sorting yields ascending values that are a permutation of the input. */
  lemma {:induction false} SortSpec(s: seq<int>)
    ensures Ascending(Sort(s))
    ensures multiset(Sort(s)) == multiset(s)
    ensures |Sort(s)| == |s|
    decreases |s|
  {
    if s != [] {
      SortSpec(s[..|s| - 1]);
      InsertSpec(s[|s| - 1], Sort(s[..|s| - 1]));
      assert s == s[..|s| - 1] + [s[|s| - 1]];
      assert |multiset(Sort(s))| == |multiset(s)|;
    }
  }

  /** An ascending sequence is bounded by its first and last elements. */
  lemma AscendingBounds(s: seq<int>, x: int)
    requires Ascending(s) && x in multiset(s)
    ensures s[0] <= x <= s[|s| - 1]
  {
    assert x in s;
  }

  // ---------------------------------------------------------------------
  // Quantiles with linear interpolation, and the bin edges.
  // ---------------------------------------------------------------------

  /** The point `t` fifths of the way from `a` to `b`, that is a + (b - a)t/5. */
  function Lerp(a: int, b: int, t: nat): (r: real)
    requires t <= 5
    ensures r == a as real + (b - a) as real * (t as real / 5.0)
  {
    ((5 - t) * a + t * b) as real / 5.0
  }

  /** Between two ordered points, interpolation stays between them and grows with `t`. */
  lemma LerpBetween(a: int, b: int, t: nat, t': nat)
    requires a <= b && t <= t' <= 5
    ensures a as real <= Lerp(a, b, t) <= Lerp(a, b, t') <= b as real
  {
  }

  /**
   * The quantile at position `h` fifths into ascending values (h = (n-1)k
   * for the k/5 quantile): the order statistic at the whole part `lo`,
   * interpolated towards the one at `lo + 1` by the remaining fifths.
   */
  function Quantile(s: seq<int>, h: nat): real
    requires s != [] && h <= 5 * (|s| - 1)
  {
    var lo := h / 5;
    if h % 5 == 0 then s[lo] as real else Lerp(s[lo], s[lo + 1], h % 5)
  }

  /** The quantile at `h` lies between the order statistics around h/5. */
  lemma QuantileBracket(s: seq<int>, h: nat)
    requires Ascending(s) && s != [] && h <= 5 * (|s| - 1)
    ensures s[h / 5] as real <= Quantile(s, h)
    ensures h % 5 == 0 ==> Quantile(s, h) == s[h / 5] as real
    ensures h % 5 != 0 ==> h / 5 + 1 < |s| && Quantile(s, h) <= s[h / 5 + 1] as real
  {
    if h % 5 != 0 {
      LerpBetween(s[h / 5], s[h / 5 + 1], h % 5, 5);
    }
  }

  /** Quantiles do not decrease as the position grows. */
  lemma QuantileMonotone(s: seq<int>, h: nat, h': nat)
    requires Ascending(s) && s != [] && h <= h' <= 5 * (|s| - 1)
    ensures Quantile(s, h) <= Quantile(s, h')
  {
    var lo, lo' := h / 5, h' / 5;
    QuantileBracket(s, h);
    QuantileBracket(s, h');
    if lo < lo' {
      if h % 5 != 0 {
        assert s[lo + 1] <= s[lo'];
      } else {
        assert s[lo] <= s[lo'];
      }
    } else {
      if h % 5 != 0 {
        LerpBetween(s[lo], s[lo + 1], h % 5, h' % 5);
      } else if h' % 5 != 0 {
        LerpBetween(s[lo], s[lo + 1], 0, h' % 5);
      }
    }
  }

  predicate NonDecreasing(e: seq<real>) {
    forall i, j :: 0 <= i < j < |e| ==> e[i] <= e[j]
  }

  predicate Increasing(e: seq<real>) {
    forall i, j :: 0 <= i < j < |e| ==> e[i] < e[j]
  }

  /** No value is repeated among the edges (the check behind "Bin edges must be unique"). */
  predicate UniqueEdges(e: seq<real>) {
    forall i, j :: 0 <= i < j < |e| ==> e[i] != e[j]
  }

  /** Six values, each at most the next, are non-decreasing throughout. */
  lemma SixNonDecreasing(e: seq<real>)
    requires |e| == 6 && e[0] <= e[1] <= e[2] <= e[3] <= e[4] <= e[5]
    ensures NonDecreasing(e)
  {
  }

  /**
   * The six bin edges of ascending values: the quantiles at 0, 1/5, ...,
   * 5/5, running from the minimum to the maximum without decreasing.
   */
  function EdgesOf(s: seq<int>): (e: seq<real>)
    requires s != []
    ensures |e| == 6 && e[0] == s[0] as real && e[5] == s[|s| - 1] as real
  {
    var m := |s| - 1;
    [Quantile(s, 0), Quantile(s, m), Quantile(s, 2 * m), Quantile(s, 3 * m), Quantile(s, 4 * m), Quantile(s, 5 * m)]
  }

  /** The edges of ascending values never decrease. */
  lemma EdgesOfNonDecreasing(s: seq<int>)
    requires Ascending(s) && s != []
    ensures NonDecreasing(EdgesOf(s))
  {
    var m := |s| - 1;
    QuantileMonotone(s, 0, m);
    QuantileMonotone(s, m, 2 * m);
    QuantileMonotone(s, 2 * m, 3 * m);
    QuantileMonotone(s, 3 * m, 4 * m);
    QuantileMonotone(s, 4 * m, 5 * m);
    SixNonDecreasing(EdgesOf(s));
  }

  /** The bin edges of any values: those of the values in ascending order. */
  function Edges(xs: seq<int>): (e: seq<real>)
    requires xs != []
    ensures |e| == 6 && NonDecreasing(e)
  {
    SortSpec(xs);
    EdgesOfNonDecreasing(Sort(xs));
    EdgesOf(Sort(xs))
  }

  /** Every value lies between the first and the last edge, which are values themselves. */
  lemma EdgesSpan(xs: seq<int>)
    requires xs != []
    ensures forall x :: x in xs ==> Edges(xs)[0] <= x as real <= Edges(xs)[5]
    ensures exists j :: 0 <= j < |xs| && Edges(xs)[0] == xs[j] as real
    ensures exists j :: 0 <= j < |xs| && Edges(xs)[5] == xs[j] as real
  {
    var s := Sort(xs);
    SortSpec(xs);
    forall x | x in xs
      ensures s[0] <= x <= s[|s| - 1]
    {
      assert x in multiset(xs);
      AscendingBounds(s, x);
    }
    assert s[0] in multiset(xs) && s[|s| - 1] in multiset(xs);
    assert s[0] in xs && s[|s| - 1] in xs;
  }

  /** Unique edges are strictly increasing. */
  lemma UniqueEdgesIncrease(xs: seq<int>)
    requires xs != [] && UniqueEdges(Edges(xs))
    ensures Increasing(Edges(xs))
  {
  }

  // ---------------------------------------------------------------------
  // Binning.
  // ---------------------------------------------------------------------

  /**
   * The bin of `x` among right-closed intervals: the number of inner edges
   * strictly below it (the lowest value falls into the first bin).
   */
  function Bin(e: seq<real>, x: int): (b: nat)
    requires |e| == 6
    ensures b < 5
  {
    (if e[1] < x as real then 1 else 0) + (if e[2] < x as real then 1 else 0)
    + (if e[3] < x as real then 1 else 0) + (if e[4] < x as real then 1 else 0)
  }

  /** A larger value is never in an earlier bin. */
  lemma BinMonotone(e: seq<real>, x: int, y: int)
    requires |e| == 6 && x <= y
    ensures Bin(e, x) <= Bin(e, y)
  {
  }

  /**
   * `qcut(xs, 5)` as bin indexes 0..4: `None` when there is no value or two
   * edges coincide; otherwise one bin per value.
   */
  function QCut(xs: seq<int>): (r: Option<seq<int>>)
    ensures r.Some? <==> xs != [] && UniqueEdges(Edges(xs))
    ensures r.Some? ==> |r.value| == |xs|
    ensures r.Some? ==> forall i :: 0 <= i < |xs| ==> 0 <= r.value[i] < 5
  {
    if xs == [] then None
    else
      var e := Edges(xs);
      if !UniqueEdges(e) then None
      else Some(seq(|xs|, i requires 0 <= i < |xs| => Bin(e, xs[i])))
  }

  /** The bins never decrease as the value grows. */
  lemma QCutMonotone(xs: seq<int>, i: nat, j: nat)
    requires i < |xs| && j < |xs| && QCut(xs).Some? && xs[i] <= xs[j]
    ensures QCut(xs).value[i] <= QCut(xs).value[j]
  {
    BinMonotone(Edges(xs), xs[i], xs[j]);
  }

  /**
   * Against strictly increasing edges, a value between the first and the
   * last edge is in bin `b` exactly when it lies in the `b`-th interval:
   * above its lower edge (the first interval also holds its lower edge) and
   * at most its upper edge.
   */
  lemma BinInterval(e: seq<real>, x: int, b: nat)
    requires |e| == 6 && Increasing(e) && e[0] <= x as real <= e[5] && b < 5
    ensures Bin(e, x) == b <==> (b == 0 || e[b] < x as real) && (b == 4 || x as real <= e[b + 1])
  {
  }

  /** Each value of a successful cut is in the bin whose interval holds it, and in no other. */
  lemma QCutIntervals(xs: seq<int>, i: nat, b: nat)
    requires i < |xs| && QCut(xs).Some? && b < 5
    ensures var e := Edges(xs);
            QCut(xs).value[i] == b <==> (b == 0 || e[b] < xs[i] as real) && (b == 4 || xs[i] as real <= e[b + 1])
  {
    UniqueEdgesIncrease(xs);
    EdgesSpan(xs);
    assert xs[i] in xs;
    BinInterval(Edges(xs), xs[i], b);
  }

  /** The smallest value is in the first bin and the largest in the last. */
  lemma QCutExtremes(xs: seq<int>, i: nat)
    requires i < |xs| && QCut(xs).Some?
    ensures (forall j :: 0 <= j < |xs| ==> xs[i] <= xs[j]) ==> QCut(xs).value[i] == 0
    ensures (forall j :: 0 <= j < |xs| ==> xs[j] <= xs[i]) ==> QCut(xs).value[i] == 4
  {
    var e := Edges(xs);
    UniqueEdgesIncrease(xs);
    EdgesSpan(xs);
    assert xs[i] in xs;
    if forall j :: 0 <= j < |xs| ==> xs[i] <= xs[j] {
      var j :| 0 <= j < |xs| && e[0] == xs[j] as real;
      assert xs[i] as real <= e[0];
    }
    if forall j :: 0 <= j < |xs| ==> xs[j] <= xs[i] {
      var j :| 0 <= j < |xs| && e[5] == xs[j] as real;
      assert e[5] <= xs[i] as real;
    }
  }

  /** Values that are all equal cannot be cut: every edge is that value. */
  lemma QCutConstant(xs: seq<int>)
    requires forall i, j :: 0 <= i < |xs| && 0 <= j < |xs| ==> xs[i] == xs[j]
    ensures QCut(xs).None?
  {
    if xs != [] {
      EdgesSpan(xs);
      var e := Edges(xs);
      var j :| 0 <= j < |xs| && e[0] == xs[j] as real;
      var k :| 0 <= k < |xs| && e[5] == xs[k] as real;
      assert e[0] == e[5];
    }
  }

  // ---------------------------------------------------------------------
  // rank(method='first').
  // ---------------------------------------------------------------------

  /** Position `j` comes before position `i` in first-rank order: a smaller value, or an equal one earlier. */
  predicate Precedes(v: seq<int>, j: nat, i: nat)
    requires j < |v| && i < |v|
  {
    v[j] < v[i] || (v[j] == v[i] && j < i)
  }

  /** Coming before is a strict total order on the positions. */
  lemma PrecedesOrder(v: seq<int>, i: nat, j: nat, k: nat)
    requires i < |v| && j < |v| && k < |v|
    ensures !Precedes(v, i, i)
    ensures Precedes(v, i, j) ==> !Precedes(v, j, i)
    ensures Precedes(v, i, j) && Precedes(v, j, k) ==> Precedes(v, i, k)
    ensures i != j ==> Precedes(v, i, j) || Precedes(v, j, i)
  {
  }

  /** How many of the first `m` positions come before position `i`. */
  function CountPreceding(v: seq<int>, i: nat, m: nat): (c: nat)
    requires i < |v| && m <= |v|
    ensures c <= m
    ensures i < m ==> c < m
  {
    if m == 0 then 0
    else CountPreceding(v, i, m - 1) + (if Precedes(v, m - 1, i) then 1 else 0)
  }

  /** `rank(method='first')`: 1 plus the number of positions that come before. */
  function RankFirst(v: seq<int>): (r: seq<int>)
    ensures |r| == |v|
    ensures forall i :: 0 <= i < |v| ==> 1 <= r[i] <= |v|
  {
    seq(|v|, i requires 0 <= i < |v| => 1 + CountPreceding(v, i, |v|))
  }

  /** Whatever comes before `j` comes before `i` too, and `j` itself counts for `i`. */
  lemma {:induction false} CountPrecedingGrows(v: seq<int>, j: nat, i: nat, m: nat)
    requires j < |v| && i < |v| && m <= |v| && Precedes(v, j, i)
    ensures CountPreceding(v, j, m) + (if j < m then 1 else 0) <= CountPreceding(v, i, m)
  {
    if m > 0 {
      CountPrecedingGrows(v, j, i, m - 1);
    }
  }

  /** First-rank order: a position that comes before another gets a smaller rank, and only then. */
  lemma RankOrder(v: seq<int>, j: nat, i: nat)
    requires j < |v| && i < |v|
    ensures Precedes(v, j, i) <==> RankFirst(v)[j] < RankFirst(v)[i]
  {
    if Precedes(v, j, i) {
      CountPrecedingGrows(v, j, i, |v|);
    } else if i != j {
      CountPrecedingGrows(v, i, j, |v|);
    }
  }

  /** Distinct positions get distinct ranks. */
  lemma RankInjective(v: seq<int>)
    ensures forall i, j :: 0 <= i < |v| && 0 <= j < |v| && i != j ==> RankFirst(v)[i] != RankFirst(v)[j]
  {
    forall i, j | 0 <= i < |v| && 0 <= j < |v| && i != j
      ensures RankFirst(v)[i] != RankFirst(v)[j]
    {
      RankOrder(v, i, j);
      RankOrder(v, j, i);
    }
  }

  // ---------------------------------------------------------------------
  // The ranks are a permutation of 1..n, so they cut at fixed edges.
  // ---------------------------------------------------------------------

  /** 1, 2, ..., n. */
  function Iota(n: nat): (r: seq<int>)
    ensures |r| == n && forall i :: 0 <= i < n ==> r[i] == i + 1
  {
    seq(n, i requires 0 <= i < n => i + 1)
  }

  /** A value at two positions occurs at least twice. */
  lemma RepeatedTwice(s: seq<int>, i: nat, j: nat)
    requires i < j < |s| && s[i] == s[j]
    ensures multiset(s)[s[i]] >= 2
  {
    assert s == s[..j] + [s[j]] + s[j + 1..];
    assert s[i] in s[..j];
  }

  /** A value occurring twice sits at two positions. */
  lemma {:induction false} TwiceRepeated(s: seq<int>, x: int) returns (i: nat, j: nat)
    requires multiset(s)[x] >= 2
    ensures i < j < |s| && s[i] == x && s[j] == x
  {
    assert s == [s[0]] + s[1..];
    if s[0] == x {
      assert x in multiset(s[1..]);
      assert x in s[1..];
      var k :| 0 <= k < |s[1..]| && s[1..][k] == x;
      i, j := 0, k + 1;
    } else {
      var i', j' := TwiceRepeated(s[1..], x);
      i, j := i' + 1, j' + 1;
    }
  }

  /** Sorting values without repeats gives a strictly ascending sequence. */
  lemma SortDistinct(s: seq<int>)
    requires forall i, j :: 0 <= i < |s| && 0 <= j < |s| && i != j ==> s[i] != s[j]
    ensures StrictlyAscending(Sort(s))
  {
    var r := Sort(s);
    SortSpec(s);
    forall i, j | 0 <= i < j < |r|
      ensures r[i] < r[j]
    {
      if r[i] == r[j] {
        RepeatedTwice(r, i, j);
        var a, b := TwiceRepeated(s, r[i]);
        assert false;
      }
    }
  }

  /** A strictly ascending run of n integers within 1..n is 1, 2, ..., n. */
  lemma {:induction false} StrictRunIsIota(r: seq<int>)
    requires StrictlyAscending(r)
    requires forall i :: 0 <= i < |r| ==> 1 <= r[i] <= |r|
    ensures r == Iota(|r|)
  {
    var n := |r|;
    forall i | 0 <= i < n
      ensures r[i] == i + 1
    {
      var k := 0;
      while k < i
        invariant k <= i && r[k] >= k + 1
      {
        k := k + 1;
      }
      k := n - 1;
      while k > i
        invariant i <= k <= n - 1 && r[k] <= k + 1
      {
        k := k - 1;
      }
    }
  }

  /** The first ranks, sorted, are exactly 1..n: they are a permutation of 1..n. */
  lemma RankPermutation(v: seq<int>)
    ensures Sort(RankFirst(v)) == Iota(|v|)
    ensures multiset(RankFirst(v)) == multiset(Iota(|v|))
  {
    var r := RankFirst(v);
    RankInjective(v);
    SortDistinct(r);
    var s := Sort(r);
    SortSpec(r);
    forall i | 0 <= i < |s|
      ensures 1 <= s[i] <= |s|
    {
      assert s[i] in multiset(r);
      assert s[i] in r;
    }
    StrictRunIsIota(s);
  }

  /** The quantiles of 1..n are evenly spaced: 1 + (n-1)k/5. */
  lemma IotaQuantile(n: nat, h: nat)
    requires n >= 1 && h <= 5 * (n - 1)
    ensures Quantile(Iota(n), h) == 1.0 + h as real / 5.0
  {
    var lo := h / 5;
    assert h as real == 5.0 * lo as real + (h % 5) as real;
  }

  /**
   * The bin of rank `r` among `n` first ranks: the number of inner edges
   * 1 + (n-1)k/5 strictly below it, counted on integers.
   */
  function RankBin(n: nat, r: int): nat {
    (if (n - 1) * 1 < 5 * (r - 1) then 1 else 0) + (if (n - 1) * 2 < 5 * (r - 1) then 1 else 0)
    + (if (n - 1) * 3 < 5 * (r - 1) then 1 else 0) + (if (n - 1) * 4 < 5 * (r - 1) then 1 else 0)
  }

  /** The edges of 1..n: evenly spaced from 1 to n, the k-th at 1 + (n-1)k/5. */
  function EvenEdges(n: nat): (e: seq<real>)
    ensures |e| == 6
  {
    var m := n - 1;
    [1.0, 1.0 + m as real / 5.0, 1.0 + (2 * m) as real / 5.0, 1.0 + (3 * m) as real / 5.0,
     1.0 + (4 * m) as real / 5.0, 1.0 + (5 * m) as real / 5.0]
  }

  /** The lower three quantiles of 1..n are its lower three evenly spaced edges. */
  lemma IotaLowerEdges(n: nat)
    requires n >= 1
    ensures forall k :: 0 <= k < 3 ==> EdgesOf(Iota(n))[k] == EvenEdges(n)[k]
  {
    var m := n - 1;
    IotaQuantile(n, 0);
    IotaQuantile(n, m);
    IotaQuantile(n, 2 * m);
  }

  /** The upper three quantiles of 1..n are its upper three evenly spaced edges. */
  lemma IotaUpperEdges(n: nat)
    requires n >= 1
    ensures forall k :: 3 <= k < 6 ==> EdgesOf(Iota(n))[k] == EvenEdges(n)[k]
  {
    var m := n - 1;
    IotaQuantile(n, 3 * m);
    IotaQuantile(n, 4 * m);
    IotaQuantile(n, 5 * m);
  }

  /** The quantiles of 1..n are its evenly spaced edges. */
  lemma IotaEdges(n: nat)
    requires n >= 1
    ensures EdgesOf(Iota(n)) == EvenEdges(n)
  {
    IotaLowerEdges(n);
    IotaUpperEdges(n);
  }

  /** Evenly spaced edges are unique exactly when there are two values or more. */
  lemma EvenEdgesUnique(n: nat)
    requires n >= 1
    ensures UniqueEdges(EvenEdges(n)) <==> n >= 2
  {
    if n == 1 {
      assert EvenEdges(n)[0] == EvenEdges(n)[1];
    }
  }

  /** Against evenly spaced edges, the bin of a rank is its integer count of edges below. */
  lemma EvenBin(n: nat, r: int)
    requires n >= 1
    ensures Bin(EvenEdges(n), r) == RankBin(n, r)
  {
    var e := EvenEdges(n);
    var m := n - 1;
    RankEdgeBelow(r, m, e[1]);
    RankEdgeBelow(r, 2 * m, e[2]);
    RankEdgeBelow(r, 3 * m, e[3]);
    RankEdgeBelow(r, 4 * m, e[4]);
  }

  /** An evenly spaced edge lies below a rank exactly when the integer comparison says so. */
  lemma RankEdgeBelow(r: int, h: nat, edge: real)
    requires edge == 1.0 + h as real / 5.0
    ensures edge < r as real <==> h < 5 * (r - 1)
  {
  }

  /**
   * Cutting first ranks fails exactly when there is at most one value, and
   * otherwise puts each rank in the bin its evenly spaced edges give.
   */
  lemma QCutRanks(v: seq<int>)
    ensures QCut(RankFirst(v)).Some? <==> |v| >= 2
    ensures QCut(RankFirst(v)).Some? ==>
              forall i :: 0 <= i < |v| ==> QCut(RankFirst(v)).value[i] == RankBin(|v|, RankFirst(v)[i])
  {
    var n := |v|;
    var r := RankFirst(v);
    if n >= 1 {
      RankPermutation(v);
      assert Edges(r) == EdgesOf(Iota(n));
      IotaEdges(n);
      EvenEdgesUnique(n);
      if n >= 2 {
        forall i | 0 <= i < n
          ensures QCut(r).value[i] == RankBin(n, r[i])
        {
          EvenBin(n, r[i]);
        }
      }
    }
  }

  /** Sorting leaves values already in ascending order as they are. */
  lemma {:induction false} SortAscending(s: seq<int>)
    requires Ascending(s)
    ensures Sort(s) == s
    decreases |s|
  {
    if s != [] {
      var p, x := s[..|s| - 1], s[|s| - 1];
      assert Sort(p) == p by {
        assert Ascending(p);
        SortAscending(p);
      }
      assert Insert(x, p) == s by {
        assert forall i :: 0 <= i < |p| ==> p[i] <= x;
        InsertLast(x, p);
        assert p + [x] == s;
      }
    }
  }

  /** A value not below any element goes at the end. */
  lemma {:induction false} InsertLast(x: int, s: seq<int>)
    requires Ascending(s) && forall i :: 0 <= i < |s| ==> s[i] <= x
    ensures Insert(x, s) == s + [x]
    decreases |s|
  {
    if s != [] && s[0] < x {
      InsertLast(x, s[1..]);
      assert [s[0]] + (s[1..] + [x]) == s + [x];
    } else if s != [] {
      assert forall i :: 0 <= i < |s| ==> s[i] == x;
      assert [x] + s == s + [x];
    }
  }

  /** Values already in ascending order are their own order statistics. */
  lemma EdgesOfAscending(xs: seq<int>)
    requires Ascending(xs) && xs != []
    ensures Edges(xs) == EdgesOf(xs)
  {
    SortAscending(xs);
  }

  /** The edges of three evenly spaced values are a fifth of their range apart. */
  lemma ThreeValueEdges(a: int, d: nat)
    ensures var x := a as real;
            var r := (2 * d) as real;
            EdgesOf([a, a + d, a + 2 * d])
            == [x, x + r / 5.0, x + 2.0 * r / 5.0, x + 3.0 * r / 5.0, x + 4.0 * r / 5.0, x + r]
  {
    var s := [a, a + d, a + 2 * d];
    assert Quantile(s, 2) == Lerp(a, a + d, 2);
    assert Quantile(s, 4) == Lerp(a, a + d, 4);
    assert Quantile(s, 6) == Lerp(a + d, a + 2 * d, 1);
    assert Quantile(s, 8) == Lerp(a + d, a + 2 * d, 3);
  }

  /**
   * Three distinct, evenly spaced values can be cut (fewer than five values
   * are enough): they land in the first, the middle and the last bin.
   */
  lemma QCutThreeValues(a: int, d: nat)
    requires d > 0
    ensures QCut([a, a + d, a + 2 * d]) == Some([0, 2, 4])
  {
    var xs := [a, a + d, a + 2 * d];
    var e := Edges(xs);
    assert e == EdgesOf(xs) by {
      assert Ascending(xs);
      EdgesOfAscending(xs);
    }
    ThreeValueEdges(a, d);
    assert UniqueEdges(e);
    assert Bin(e, xs[0]) == 0 && Bin(e, xs[1]) == 2 && Bin(e, xs[2]) == 4;
    assert QCut(xs).value == [0, 2, 4];
  }
}
