/**
  Degrees of separation: the sample of shortest-path lengths that all three
  statistics functions collect (one search from every node, every positive
  distance it reports), and the mean, population variance and median of
  that sample.

  The searches report their distances in a hash map whose iteration order is
  unspecified; the sample here lists each search's distances by ascending
  target node, and the statistics are shown to depend only on the sample as
  a multiset.
 */
module Separation {
  import opened Graphs
  import opened Paths
  import opened Sorting

  // ---------------------------------------------------------------- sample

  /** What the search from `s` reports: every node reachable from `s`,
      mapped to its distance from `s`. */
  ghost function DistancesFrom(g: Graph, s: nat): map<nat, nat>
    requires Closed(g) && s < g.NodeCount()
  {
    map t | 0 <= t < g.NodeCount() && Reachable(g, s, t) :: Distance(g, s, t)
  }

  /** The search's result is exactly the distance map. */
  lemma SearchResult(g: Graph, s: nat, dist: map<nat, nat>)
    requires Closed(g) && s < g.NodeCount()
    requires forall t :: t in dist <==> Reachable(g, s, t)
    requires forall t :: t in dist ==> IsShortest(g, s, t, dist[t])
    ensures dist == DistancesFrom(g, s)
  {
    var expected := DistancesFrom(g, s);
    forall t | t in dist
      ensures t in expected && dist[t] == expected[t]
    {
      var p :| Connects(g, p, s, t);
      DistanceIsShortest(g, s, t);
      ShortestUnique(g, s, t, dist[t], Distance(g, s, t));
    }
  }

  /** The search from `s` extends the sample by its positive distances. */
  lemma SampleStep(g: Graph, s: nat, dist: map<nat, nat>)
    requires Closed(g) && s < g.NodeCount()
    requires forall t :: t in dist <==> Reachable(g, s, t)
    requires forall t :: t in dist ==> IsShortest(g, s, t, dist[t])
    ensures SampleUpTo(g, s + 1) == SampleUpTo(g, s) + Positive(dist, g.NodeCount())
  {
    SearchResult(g, s, dist);
  }

  /** The positive values `dist[t]` for the keys `t` in `0 .. k - 1`, by
      ascending key. */
  function Positive(dist: map<nat, nat>, k: nat): seq<nat> {
    if k == 0 then []
    else Positive(dist, k - 1) + (if k - 1 in dist && dist[k - 1] > 0 then [dist[k - 1]] else [])
  }

  /** The distances collected by the searches from the sources `0 .. k - 1`. */
  ghost function SampleUpTo(g: Graph, k: nat): seq<nat>
    requires Closed(g) && k <= g.NodeCount()
  {
    if k == 0 then [] else SampleUpTo(g, k - 1) + Positive(DistancesFrom(g, k - 1), g.NodeCount())
  }

  /** The whole sample: one search from every node. */
  ghost function SeparationSample(g: Graph): seq<nat>
    requires Closed(g)
  {
    SampleUpTo(g, g.NodeCount())
  }

  /** The loop state after the searches from nodes `0 .. k - 1`: the sample
      collected so far. */
  ghost predicate Collected(g: Graph, k: nat, sample: seq<nat>) {
    Closed(g) && k <= g.NodeCount() && sample == SampleUpTo(g, k)
  }

  /** The sample-collecting loops shared by the variance and the median: a
      search from every start node, keeping every distance above zero. */
  method CollectSample(g: Graph) returns (sample: seq<nat>)
    requires Closed(g)
    ensures sample == SeparationSample(g)
  {
    sample := [];
    var start := 0;
    while start < g.NodeCount()
      invariant Collected(g, start, sample)
    {
      sample, start := SearchFrom(g, start, sample);
    }
  }

  /** One round of the outer loop: search from `start`, keep the positive
      distances and move on to the next start node. */
  method SearchFrom(g: Graph, start: nat, collected: seq<nat>) returns (sample: seq<nat>, next: nat)
    requires start < g.NodeCount() && Collected(g, start, collected)
    ensures next == start + 1 && Collected(g, next, sample)
  {
    var distances := ShortestPaths(g, start);
    SampleStep(g, start, distances);
    sample := KeepPositive(distances, g.NodeCount(), collected);
    next := start + 1;
  }

  /** The inner loop: appends the positive distances of one search, by
      ascending target node. */
  method KeepPositive(distances: map<nat, nat>, n: nat, collected: seq<nat>) returns (sample: seq<nat>)
    ensures sample == collected + Positive(distances, n)
  {
    sample := collected;
    var target := 0;
    while target < n
      invariant target <= n
      invariant sample == collected + Positive(distances, target)
    {
      if target in distances && distances[target] > 0 {
        sample := sample + [distances[target]];
      }
      target := target + 1;
    }
  }

  // ------------------------------------------------------------ statistics

  function Sum(xs: seq<nat>): nat {
    if xs == [] then 0 else xs[0] + Sum(xs[1..])
  }

  /** `total / count`, and 0 for an empty sample. */
  function Mean(xs: seq<nat>): real {
    if |xs| == 0 then 0.0 else Sum(xs) as real / |xs| as real
  }

  /** The sum of the squared differences between the elements and `m`. */
  function SquaredDeviations(xs: seq<nat>, m: real): real {
    if xs == [] then 0.0
    else (xs[0] as real - m) * (xs[0] as real - m) + SquaredDeviations(xs[1..], m)
  }

  /** Population variance (divided by the sample size), 0 for an empty
      sample. */
  function Variance(xs: seq<nat>): real {
    if |xs| == 0 then 0.0 else SquaredDeviations(xs, Mean(xs)) / |xs| as real
  }

  /** The middle element of an ascending sequence, or the average of the two
      middle elements when the length is even; 0 when empty. */
  function MedianOfSorted(xs: seq<nat>): real {
    if |xs| == 0 then 0.0
    else
      var mid := |xs| / 2;
      if |xs| % 2 == 0 then (xs[mid - 1] + xs[mid]) as real / 2.0 else xs[mid] as real
  }

  function Median(xs: seq<nat>): real {
    MedianOfSorted(SortedSeq(xs))
  }

  /** `calculate_mean_separation`: the same searches, but the positive
      distances are added into a running total and counted instead of kept. */
  method MeanSeparation(g: Graph) returns (mean: real)
    requires Closed(g)
    ensures mean == Mean(SeparationSample(g))
  {
    var total := 0;
    var pairCount := 0;
    var start := 0;
    while start < g.NodeCount()
      invariant Totalled(g, start, total, pairCount)
    {
      total, pairCount, start := TotalFrom(g, start, total, pairCount);
    }
    if pairCount == 0 {
      return 0.0;
    }
    mean := total as real / pairCount as real;
  }

  /** The loop state of `calculate_mean_separation` after the searches from
      nodes `0 .. k - 1`: the sum and the number of the distances seen. */
  ghost predicate Totalled(g: Graph, k: nat, total: nat, pairCount: nat) {
    Closed(g) && k <= g.NodeCount() && total == Sum(SampleUpTo(g, k)) && pairCount == |SampleUpTo(g, k)|
  }

  /** One round of the outer loop of `calculate_mean_separation`: search
      from `start`, add the positive distances into the running total and
      move on to the next start node. */
  method TotalFrom(g: Graph, start: nat, total0: nat, count0: nat) returns (total: nat, pairCount: nat, next: nat)
    requires start < g.NodeCount() && Totalled(g, start, total0, count0)
    ensures next == start + 1 && Totalled(g, next, total, pairCount)
  {
    var distances := ShortestPaths(g, start);
    total, pairCount := AddPositive(distances, g.NodeCount(), total0, count0);
    next := start + 1;
    AddRow(g, start, distances);
  }

  /** The sum and the size of the sample grow by those of one search's
      positive distances. */
  lemma AddRow(g: Graph, s: nat, dist: map<nat, nat>)
    requires Closed(g) && s < g.NodeCount()
    requires forall t :: t in dist <==> Reachable(g, s, t)
    requires forall t :: t in dist ==> IsShortest(g, s, t, dist[t])
    ensures Sum(SampleUpTo(g, s + 1)) == Sum(SampleUpTo(g, s)) + Sum(Positive(dist, g.NodeCount()))
    ensures |SampleUpTo(g, s + 1)| == |SampleUpTo(g, s)| + |Positive(dist, g.NodeCount())|
  {
    SampleStep(g, s, dist);
    SumAppend(SampleUpTo(g, s), Positive(dist, g.NodeCount()));
  }

  /** The inner loop of `calculate_mean_separation`: adds each positive
      distance of one search to the total and counts it. */
  method AddPositive(distances: map<nat, nat>, n: nat, total0: nat, count0: nat)
    returns (total: nat, pairCount: nat)
    ensures total == total0 + Sum(Positive(distances, n))
    ensures pairCount == count0 + |Positive(distances, n)|
  {
    total, pairCount := total0, count0;
    var target := 0;
    while target < n
      invariant target <= n
      invariant total == total0 + Sum(Positive(distances, target))
      invariant pairCount == count0 + |Positive(distances, target)|
    {
      if target in distances && distances[target] > 0 {
        SumAppend(Positive(distances, target), [distances[target]]);
        total := total + distances[target];
        pairCount := pairCount + 1;
      } else {
        assert Positive(distances, target + 1) == Positive(distances, target);
      }
      target := target + 1;
    }
  }

  /** `calculate_standard_deviation_separation`, up to the square root. */
  method VarianceSeparation(g: Graph) returns (variance: real)
    requires Closed(g)
    ensures variance == Variance(SeparationSample(g))
  {
    var distances := CollectSample(g);
    if |distances| == 0 {
      return 0.0;
    }
    var mean := Sum(distances) as real / |distances| as real;
    variance := SquaredDeviations(distances, mean) / |distances| as real;
  }

  /** `calculate_median_separation`. */
  method MedianSeparation(g: Graph) returns (median: real)
    requires Closed(g)
    ensures median == Median(SeparationSample(g))
  {
    var distances := CollectSample(g);
    if |distances| == 0 {
      return 0.0;
    }
    median := SortedMiddle(distances);
  }

  /** Sorts a copy of a non-empty sample in place and reads the middle. */
  method SortedMiddle(distances: seq<nat>) returns (median: real)
    requires |distances| > 0
    ensures median == Median(distances)
  {
    var a := new nat[|distances|](i requires 0 <= i < |distances| => distances[i]);
    assert a[..] == distances;
    SortInPlace(a);
    SortedMedian(a[..], distances);
    var mid := a.Length / 2;
    if a.Length % 2 == 0 {
      median := (a[mid - 1] + a[mid]) as real / 2.0;
    } else {
      median := a[mid] as real;
    }
  }

  /** Any ascending arrangement of the sample has the sample's median in the
      middle. */
  lemma SortedMedian(xs: seq<nat>, ds: seq<nat>)
    requires Sorted(xs) && multiset(xs) == multiset(ds)
    ensures Median(ds) == MedianOfSorted(xs)
  {
    SortedUnique(xs, SortedSeq(ds));
  }

  // ------------------------------------------- properties of the statistics

  lemma {:induction false} SumAppend(a: seq<nat>, b: seq<nat>)
    ensures Sum(a + b) == Sum(a) + Sum(b)
    decreases |a|
  {
    if a != [] {
      assert (a + b)[0] == a[0] && (a + b)[1..] == a[1..] + b;
      SumAppend(a[1..], b);
    } else {
      assert a + b == b;
    }
  }

  /** The sum does not depend on the order of the elements. */
  lemma {:induction false} SumPermutation(a: seq<nat>, b: seq<nat>)
    requires multiset(a) == multiset(b)
    ensures Sum(a) == Sum(b)
    decreases |a|
  {
    if a != [] {
      assert a[0] in multiset(b);
      var i :| 0 <= i < |b| && b[i] == a[0];
      MultisetTail(a);
      MultisetRemoveAt(b, i);
      SumPermutation(a[1..], b[..i] + b[i + 1..]);
      assert b == b[..i] + ([b[i]] + b[i + 1..]);
      assert ([b[i]] + b[i + 1..])[1..] == b[i + 1..];
      SumAppend(b[..i], [b[i]] + b[i + 1..]);
      SumAppend(b[..i], b[i + 1..]);
    } else {
      assert |b| == |multiset(b)| == 0;
    }
  }

  /** The mean does not depend on the order of the sample. */
  lemma MeanPermutation(a: seq<nat>, b: seq<nat>)
    requires multiset(a) == multiset(b)
    ensures Mean(a) == Mean(b)
  {
    assert |a| == |multiset(a)| == |multiset(b)| == |b|;
    SumPermutation(a, b);
  }

  /** The median does not depend on the order of the sample. */
  lemma MedianPermutation(a: seq<nat>, b: seq<nat>)
    requires multiset(a) == multiset(b)
    ensures Median(a) == Median(b)
  {
    SortedUnique(SortedSeq(a), SortedSeq(b));
  }

  lemma {:induction false} SquaredDeviationsAppend(a: seq<nat>, b: seq<nat>, m: real)
    ensures SquaredDeviations(a + b, m) == SquaredDeviations(a, m) + SquaredDeviations(b, m)
    decreases |a|
  {
    if a != [] {
      assert (a + b)[0] == a[0] && (a + b)[1..] == a[1..] + b;
      SquaredDeviationsAppend(a[1..], b, m);
    } else {
      assert a + b == b;
    }
  }

  lemma {:induction false} SquaredDeviationsPermutation(a: seq<nat>, b: seq<nat>, m: real)
    requires multiset(a) == multiset(b)
    ensures SquaredDeviations(a, m) == SquaredDeviations(b, m)
    decreases |a|
  {
    if a != [] {
      assert a[0] in multiset(b);
      var i :| 0 <= i < |b| && b[i] == a[0];
      MultisetTail(a);
      MultisetRemoveAt(b, i);
      SquaredDeviationsPermutation(a[1..], b[..i] + b[i + 1..], m);
      assert b == b[..i] + [b[i]] + b[i + 1..];
      assert a == [a[0]] + a[1..];
      SquaredDeviationsAppend([a[0]], a[1..], m);
      SquaredDeviationsAppend(b[..i] + [b[i]], b[i + 1..], m);
      SquaredDeviationsAppend(b[..i], [b[i]], m);
      SquaredDeviationsAppend(b[..i], b[i + 1..], m);
    } else {
      assert |b| == |multiset(b)| == 0;
    }
  }

  /** The variance does not depend on the order of the sample. */
  lemma VariancePermutation(a: seq<nat>, b: seq<nat>)
    requires multiset(a) == multiset(b)
    ensures Variance(a) == Variance(b)
  {
    assert |a| == |multiset(a)| == |multiset(b)| == |b|;
    MeanPermutation(a, b);
    SquaredDeviationsPermutation(a, b, Mean(a));
  }

  lemma {:induction false} SumBounds(xs: seq<nat>, lo: nat, hi: nat)
    requires forall i :: 0 <= i < |xs| ==> lo <= xs[i] <= hi
    ensures lo * |xs| <= Sum(xs) <= hi * |xs|
    decreases |xs|
  {
    if xs != [] {
      SumBounds(xs[1..], lo, hi);
      MultiplyStep(lo, |xs|);
      MultiplyStep(hi, |xs|);
    }
  }

  lemma MultiplyStep(a: nat, n: nat)
    requires n > 0
    ensures a * n == a * (n - 1) + a
  {
  }

  /** The mean of a non-empty sample lies between its least and greatest
      possible element. */
  lemma MeanBounds(xs: seq<nat>, lo: nat, hi: nat)
    requires |xs| > 0 && forall i :: 0 <= i < |xs| ==> lo <= xs[i] <= hi
    ensures lo as real <= Mean(xs) <= hi as real
  {
    SumBounds(xs, lo, hi);
    RatioBounds(Sum(xs), lo, hi, |xs|);
  }

  /** Integer bounds `lo * n <= s <= hi * n` carry over to the ratio `s / n`. */
  lemma RatioBounds(s: nat, lo: nat, hi: nat, n: nat)
    requires n > 0 && lo * n <= s <= hi * n
    ensures lo as real <= s as real / n as real <= hi as real
  {
    ProductAsReal(lo, n);
    ProductAsReal(hi, n);
    QuotientBounds(s as real, lo as real, hi as real, n as real);
  }

  lemma ProductAsReal(a: nat, b: nat)
    ensures (a * b) as real == a as real * b as real
  {
  }

  lemma QuotientBounds(x: real, lo: real, hi: real, n: real)
    requires n > 0.0 && lo * n <= x <= hi * n
    ensures lo <= x / n <= hi
  {
    var q := x / n;
    assert q * n == x;
  }

  /** So does the median. */
  lemma MedianBounds(xs: seq<nat>, lo: nat, hi: nat)
    requires |xs| > 0 && forall i :: 0 <= i < |xs| ==> lo <= xs[i] <= hi
    ensures lo as real <= Median(xs) <= hi as real
  {
    var ys := SortedSeq(xs);
    assert |ys| == |multiset(ys)| == |multiset(xs)| == |xs|;
    forall i | 0 <= i < |ys| ensures lo <= ys[i] <= hi {
      assert ys[i] in multiset(xs);
    }
  }

  lemma {:induction false} SquaredDeviationsNonNegative(xs: seq<nat>, m: real)
    ensures SquaredDeviations(xs, m) >= 0.0
    decreases |xs|
  {
    if xs != [] {
      SquaredDeviationsNonNegative(xs[1..], m);
      SquareZero(xs[0] as real - m);
    }
  }

  /** The squared deviation of `x` from `s / n`, scaled by `n * n`, is the
      integer square `(n * x - s) ^ 2`. */
  lemma ScaledDeviation(x: int, s: int, n: int)
    requires n > 0
    ensures var m := s as real / n as real;
      (x as real - m) * (x as real - m) * (n * n) as real == ((n * x - s) * (n * x - s)) as real
  {
    assert s as real / n as real * n as real == s as real;
  }

  lemma AtMean(x: int, s: int, n: int)
    requires n > 0
    ensures x as real == s as real / n as real <==> n * x == s
  {
    assert s as real / n as real * n as real == s as real;
  }

  /** One squared deviation from a rational point vanishes exactly when the
      element is that point. */
  lemma DeviationZero(x: int, s: int, n: int)
    requires n > 0
    ensures var m := s as real / n as real;
      (x as real - m) * (x as real - m) == 0.0 <==> x as real == m
  {
    var m := s as real / n as real;
    var c := (n * n) as real;
    var d := n * x - s;
    ScaledDeviation(x, s, n);
    AtMean(x, s, n);
    if (x as real - m) * (x as real - m) == 0.0 {
      ZeroProduct((x as real - m) * (x as real - m), c);
      IntSquareZero(d);
    }
  }

  lemma IntSquareZero(d: int)
    requires d * d == 0
    ensures d == 0
  {
  }

  lemma ZeroProduct(a: real, c: real)
    requires a == 0.0
    ensures a * c == 0.0
  {
  }

  /** The squared deviations vanish exactly when every single one does. */
  lemma {:induction false} SquaredDeviationsVanish(xs: seq<nat>, m: real)
    ensures SquaredDeviations(xs, m) == 0.0 <==>
      forall i :: 0 <= i < |xs| ==> (xs[i] as real - m) * (xs[i] as real - m) == 0.0
    decreases |xs|
  {
    if xs != [] {
      SquaredDeviationsVanish(xs[1..], m);
      SquaredDeviationsNonNegative(xs[1..], m);
      SquareZero(xs[0] as real - m);
      assert forall i :: 0 < i < |xs| ==> xs[i] == xs[1..][i - 1];
    }
  }

  /** The squared deviations from a rational point `s / n` vanish exactly
      when every element equals that point. */
  lemma SquaredDeviationsZero(xs: seq<nat>, s: int, n: int)
    requires n > 0
    ensures SquaredDeviations(xs, s as real / n as real) == 0.0 <==>
      forall i :: 0 <= i < |xs| ==> xs[i] as real == s as real / n as real
  {
    SquaredDeviationsVanish(xs, s as real / n as real);
    forall i | 0 <= i < |xs| {
      DeviationZero(xs[i], s, n);
    }
  }

  lemma SquareZero(d: real)
    ensures d * d >= 0.0
    ensures d != 0.0 ==> d * d > 0.0
    ensures d == 0.0 ==> d * d == 0.0
  {
    if d < 0.0 {
      var e := 0.0 - d;
      assert e * e > 0.0;
      assert d * d == e * e;
    }
  }

  /** The variance is never negative. */
  lemma VarianceNonNegative(xs: seq<nat>)
    ensures Variance(xs) >= 0.0
  {
    if |xs| > 0 {
      SquaredDeviationsNonNegative(xs, Mean(xs));
    }
  }

  lemma {:induction false} SumConstant(xs: seq<nat>, c: nat)
    requires forall i :: 0 <= i < |xs| ==> xs[i] == c
    ensures Sum(xs) == c * |xs|
    decreases |xs|
  {
    if xs != [] {
      SumConstant(xs[1..], c);
    }
  }

  /** The variance is zero exactly when all the elements are equal. */
  lemma VarianceZeroIffConstant(xs: seq<nat>)
    ensures Variance(xs) == 0.0 <==> forall i, j :: 0 <= i < |xs| && 0 <= j < |xs| ==> xs[i] == xs[j]
  {
    if |xs| > 0 {
      VarianceZeroAtMean(xs);
      SquaredDeviationsZero(xs, Sum(xs), |xs|);
      if forall i, j :: 0 <= i < |xs| && 0 <= j < |xs| ==> xs[i] == xs[j] {
        MeanOfConstant(xs);
      }
    }
  }

  /** Two entries that differ make the variance positive. */
  lemma VariancePositive(xs: seq<nat>, i: nat, j: nat)
    requires i < |xs| && j < |xs| && xs[i] != xs[j]
    ensures Variance(xs) > 0.0
  {
    VarianceNonNegative(xs);
    VarianceZeroIffConstant(xs);
  }

  lemma VarianceZeroAtMean(xs: seq<nat>)
    requires |xs| > 0
    ensures Variance(xs) == 0.0 <==> SquaredDeviations(xs, Sum(xs) as real / |xs| as real) == 0.0
  {
    SquaredDeviationsNonNegative(xs, Mean(xs));
  }

  lemma MeanOfConstant(xs: seq<nat>)
    requires |xs| > 0
    requires forall i, j :: 0 <= i < |xs| && 0 <= j < |xs| ==> xs[i] == xs[j]
    ensures Mean(xs) == xs[0] as real
  {
    SumConstant(xs, xs[0]);
    ProductAsReal(xs[0], |xs|);
  }
}
