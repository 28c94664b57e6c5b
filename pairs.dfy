/**
  What the separation sample holds: one entry per ordered pair of distinct
  nodes joined by some walk, namely the length of a shortest walk between
  them. On an undirected graph every such pair is counted from both of its
  ends, so every distance occurs twice per unordered pair.
 */
module SamplePairs {
  import opened Graphs
  import opened Paths
  import opened Separation

  /** The keys below `k` that a distance map sends to `d`. */
  ghost function KeysAt(dist: map<nat, nat>, k: nat, d: nat): set<nat> {
    set t | 0 <= t < k && t in dist && dist[t] == d
  }

  lemma KeysAtStep(dist: map<nat, nat>, k: nat, d: nat)
    requires k > 0
    ensures KeysAt(dist, k, d) ==
      KeysAt(dist, k - 1, d) + (if k - 1 in dist && dist[k - 1] == d then {k - 1} else {})
  {
  }

  /** Keeping the positive distances keeps each positive `d` once per key
      that holds it. */
  lemma {:induction false} PositiveCount(dist: map<nat, nat>, k: nat, d: nat)
    requires d > 0
    ensures multiset(Positive(dist, k))[d] == |KeysAt(dist, k, d)|
  {
    if k == 0 {
      assert KeysAt(dist, 0, d) == {};
    } else {
      PositiveCount(dist, k - 1, d);
      KeysAtStep(dist, k, d);
      assert k - 1 !in KeysAt(dist, k - 1, d);
    }
  }

  /** No kept distance is zero. */
  lemma {:induction false} PositiveAboveZero(dist: map<nat, nat>, k: nat)
    ensures forall i :: 0 <= i < |Positive(dist, k)| ==> Positive(dist, k)[i] >= 1
  {
    if k > 0 {
      PositiveAboveZero(dist, k - 1);
    }
  }

  /** The positive entries of one distance map per source, sources in
      order: the sample, for any table of distance maps. */
  function Flatten(rows: seq<map<nat, nat>>, n: nat): seq<nat> {
    if rows == [] then []
    else Flatten(rows[..|rows| - 1], n) + Positive(rows[|rows| - 1], n)
  }

  /** The pairs `(s, t)`, `t < n`, that the table sends to `d`. */
  ghost function TablePairs(rows: seq<map<nat, nat>>, n: nat, d: nat): set<(nat, nat)> {
    set s: nat, t: nat | s < |rows| && t < n && t in rows[s] && rows[s][t] == d :: (s, t)
  }

  /** The pairs `(s, t)` for `t` in `ts`. */
  ghost function Row(s: nat, ts: set<nat>): set<(nat, nat)> {
    set t | t in ts :: (s, t)
  }

  lemma {:induction false} RowSize(s: nat, ts: set<nat>)
    ensures |Row(s, ts)| == |ts|
    decreases |ts|
  {
    if ts != {} {
      var t :| t in ts;
      RowSize(s, ts - {t});
      assert Row(s, ts) == Row(s, ts - {t}) + {(s, t)};
    }
  }

  /** The last row adds the pairs that start at its source. */
  lemma TablePairsStep(rows: seq<map<nat, nat>>, n: nat, d: nat)
    requires rows != []
    ensures |TablePairs(rows, n, d)| ==
      |TablePairs(rows[..|rows| - 1], n, d)| + |KeysAt(rows[|rows| - 1], n, d)|
  {
    var last := |rows| - 1;
    var row := Row(last, KeysAt(rows[last], n, d));
    assert TablePairs(rows, n, d) == TablePairs(rows[..last], n, d) + row;
    assert TablePairs(rows[..last], n, d) * row == {};
    RowSize(last, KeysAt(rows[last], n, d));
  }

  /** Every positive `d` occurs in the flattened table once per pair that
      the table sends to `d`. */
  lemma {:induction false} FlattenCount(rows: seq<map<nat, nat>>, n: nat, d: nat)
    requires d > 0
    ensures multiset(Flatten(rows, n))[d] == |TablePairs(rows, n, d)|
    decreases |rows|
  {
    if rows == [] {
      assert TablePairs(rows, n, d) == {};
    } else {
      var last := |rows| - 1;
      FlattenCount(rows[..last], n, d);
      PositiveCount(rows[last], n, d);
      TablePairsStep(rows, n, d);
      assert multiset(Flatten(rows, n)) == multiset(Flatten(rows[..last], n)) + multiset(Positive(rows[last], n));
    }
  }

  /** No flattened entry is zero. */
  lemma {:induction false} FlattenAboveZero(rows: seq<map<nat, nat>>, n: nat)
    ensures forall i :: 0 <= i < |Flatten(rows, n)| ==> Flatten(rows, n)[i] >= 1
    decreases |rows|
  {
    if rows != [] {
      FlattenAboveZero(rows[..|rows| - 1], n);
      PositiveAboveZero(rows[|rows| - 1], n);
    }
  }

  /** The distance maps of the searches from `0 .. k - 1`. */
  ghost function Searches(g: Graph, k: nat): (rows: seq<map<nat, nat>>)
    requires Closed(g) && k <= g.NodeCount()
    ensures |rows| == k
    ensures forall s :: 0 <= s < k ==> rows[s] == DistancesFrom(g, s)
  {
    if k == 0 then [] else Searches(g, k - 1) + [DistancesFrom(g, k - 1)]
  }

  /** The sample gathered by the searches from `0 .. k - 1` is their table
      flattened. */
  lemma {:induction false} SampleUpToIsFlatten(g: Graph, k: nat)
    requires Closed(g) && k <= g.NodeCount()
    ensures SampleUpTo(g, k) == Flatten(Searches(g, k), g.NodeCount())
  {
    if k > 0 {
      SampleUpToIsFlatten(g, k - 1);
      assert Searches(g, k)[..k - 1] == Searches(g, k - 1);
    }
  }

  /** All ordered pairs of nodes at distance `d`. */
  ghost function PairsAt(g: Graph, d: nat): set<(nat, nat)>
    requires Closed(g)
  {
    TablePairs(Searches(g, g.NodeCount()), g.NodeCount(), d)
  }

  /** Every positive distance occurs in the sample once per ordered pair of
      nodes at that distance. */
  lemma SampleCount(g: Graph, d: nat)
    requires Closed(g) && d > 0
    ensures multiset(SeparationSample(g))[d] == |PairsAt(g, d)|
  {
    SampleUpToIsFlatten(g, g.NodeCount());
    FlattenCount(Searches(g, g.NodeCount()), g.NodeCount(), d);
  }

  /** The pairs at a positive distance `d` are exactly the ordered pairs of
      distinct nodes, the second reachable from the first, whose shortest
      walk takes `d` steps. */
  lemma PairsAtMembers(g: Graph, d: nat, s: nat, t: nat)
    requires Closed(g) && d > 0
    ensures (s, t) in PairsAt(g, d) <==>
      s < g.NodeCount() && t < g.NodeCount() && s != t && Reachable(g, s, t) && Distance(g, s, t) == d
  {
    if s < g.NodeCount() && t < g.NodeCount() && Reachable(g, s, t) {
      DistanceZeroIffSource(g, s, t);
    }
  }

  /** Every sample element is at least 1. */
  lemma SamplePositive(g: Graph)
    requires Closed(g)
    ensures forall i :: 0 <= i < |SeparationSample(g)| ==> SeparationSample(g)[i] >= 1
  {
    SampleUpToIsFlatten(g, g.NodeCount());
    FlattenAboveZero(Searches(g, g.NodeCount()), g.NodeCount());
  }

  /** The ordered pair `(s, t)` of distinct nodes is joined by a walk whose
      shortest length is `x`. */
  ghost predicate AtDistance(g: Graph, s: nat, t: nat, x: nat)
    requires Closed(g)
  {
    s < g.NodeCount() && t < g.NodeCount() && s != t && Reachable(g, s, t) && Distance(g, s, t) == x
  }

  /** A value is in the sample exactly when it is the distance of some
      ordered pair of distinct nodes joined by a walk. */
  lemma SampleMembers(g: Graph, x: nat)
    requires Closed(g)
    ensures x in SeparationSample(g) <==> exists s: nat, t: nat :: AtDistance(g, s, t, x)
  {
    if x in SeparationSample(g) {
      var s, t := SampleMemberHasPair(g, x);
    }
    if exists s: nat, t: nat :: AtDistance(g, s, t, x) {
      var s: nat, t: nat :| AtDistance(g, s, t, x);
      PairInSample(g, s, t, x);
    }
  }

  lemma SampleMemberHasPair(g: Graph, x: nat) returns (s: nat, t: nat)
    requires Closed(g) && x in SeparationSample(g)
    ensures AtDistance(g, s, t, x)
  {
    SamplePositive(g);
    var i :| 0 <= i < |SeparationSample(g)| && SeparationSample(g)[i] == x;
    SampleCount(g, x);
    assert multiset(SeparationSample(g))[x] > 0;
    var p :| p in PairsAt(g, x);
    PairsAtMembers(g, x, p.0, p.1);
    s, t := p.0, p.1;
  }

  lemma PairInSample(g: Graph, s: nat, t: nat, x: nat)
    requires Closed(g) && AtDistance(g, s, t, x)
    ensures x in SeparationSample(g)
  {
    DistanceZeroIffSource(g, s, t);
    PairsAtMembers(g, x, s, t);
    SampleCount(g, x);
    assert multiset(SeparationSample(g))[x] > 0;
  }

  /** The same pair of nodes in the other order. */
  function Flip(p: (nat, nat)): (nat, nat) {
    (p.1, p.0)
  }

  /** A set of ordered pairs that holds every pair also the other way round,
      and no pair of a node with itself. */
  ghost predicate SwapClosed(pairs: set<(nat, nat)>) {
    forall p :: p in pairs ==> p.0 != p.1 && Flip(p) in pairs
  }

  /** One pair of each swapped couple: the one whose first node is smaller. */
  ghost function Lower(pairs: set<(nat, nat)>): set<(nat, nat)> {
    set p | p in pairs && p.0 < p.1
  }

  /** A swap-closed set holds twice as many pairs as it has lower halves. */
  lemma {:induction false} SwapClosedHalves(pairs: set<(nat, nat)>)
    requires SwapClosed(pairs)
    ensures |pairs| == 2 * |Lower(pairs)|
    decreases |pairs|
  {
    if pairs != {} {
      var p :| p in pairs;
      RemoveCouple(pairs, p);
      SwapClosedHalves(pairs - {p, Flip(p)});
    }
  }

  /** Taking a pair and its swap out of a swap-closed set leaves a
      swap-closed set, two pairs and one lower half smaller. */
  lemma RemoveCouple(pairs: set<(nat, nat)>, p: (nat, nat))
    requires SwapClosed(pairs) && p in pairs
    ensures SwapClosed(pairs - {p, Flip(p)})
    ensures |pairs - {p, Flip(p)}| == |pairs| - 2
    ensures |Lower(pairs - {p, Flip(p)})| == |Lower(pairs)| - 1
  {
    var rest := pairs - {p, Flip(p)};
    forall r | r in rest ensures r.0 != r.1 && Flip(r) in rest {
      assert Flip(Flip(r)) == r;
    }
    assert pairs == rest + {p, Flip(p)};
    var low := if p.0 < p.1 then p else Flip(p);
    assert Lower(pairs) == Lower(rest) + {low};
  }

  /** On an undirected graph the pairs at a positive distance come in
      swapped couples. */
  lemma PairsAtSwapClosed(g: Graph, d: nat)
    requires g.Valid() && Closed(g) && d > 0
    ensures SwapClosed(PairsAt(g, d))
  {
    forall p | p in PairsAt(g, d) ensures p.0 != p.1 && Flip(p) in PairsAt(g, d) {
      PairsAtMembers(g, d, p.0, p.1);
      DistanceSymmetric(g, p.0, p.1);
      PairsAtMembers(g, d, p.1, p.0);
    }
  }

  /** Each unordered pair of distinct nodes at positive distance `d`
      contributes exactly two entries `d` to the sample, one from the search
      at each of its ends. */
  lemma SampleCountsTwice(g: Graph, d: nat)
    requires g.Valid() && d > 0
    ensures Closed(g)
    ensures multiset(SeparationSample(g))[d] == 2 * |Lower(PairsAt(g, d))|
  {
    ValidIsClosed(g);
    SampleCount(g, d);
    PairsAtSwapClosed(g, d);
    SwapClosedHalves(PairsAt(g, d));
  }

  /** No node has a neighbour other than itself: the edge list holds
      self-loops only. */
  ghost predicate NoLinks(g: Graph) {
    forall x, i :: 0 <= x < |g.adj| && 0 <= i < |g.adj[x]| ==> g.adj[x][i] == x
  }

  /** The sample is empty exactly when no node is joined to another one:
      then the mean, the variance and the median are all reported as 0. */
  lemma SampleEmptyIffNoLinks(g: Graph)
    requires Closed(g)
    ensures SeparationSample(g) == [] <==> NoLinks(g)
  {
    if SeparationSample(g) != [] && NoLinks(g) {
      var s, t := SampleMemberHasPair(g, SeparationSample(g)[0]);
      assert false;
    }
    if !NoLinks(g) {
      var x, i :| 0 <= x < |g.adj| && 0 <= i < |g.adj[x]| && g.adj[x][i] != x;
      var y := g.adj[x][i];
      assert Connects(g, [x, y], x, y);
      PairInSample(g, x, y, Distance(g, x, y));
    }
  }

  lemma NoLinksStatistics(g: Graph)
    requires Closed(g) && NoLinks(g)
    ensures Mean(SeparationSample(g)) == 0.0
    ensures Variance(SeparationSample(g)) == 0.0
    ensures Median(SeparationSample(g)) == 0.0
  {
    SampleEmptyIffNoLinks(g);
  }
}
