/**
  Degree distribution of a loaded graph, as `calculate_degree_distribution`
  builds it (a map from degree to the number of nodes of that degree, filled
  one node at a time in index order), and the ascending key list that
  `print_sorted_degrees` prints.
 */
module Degrees {
  import opened Graphs
  import opened Sorting

  /** The distribution of the degrees of nodes `0 .. k - 1`: what the map
      holds after the first `k` rounds of the node loop. */
  function Histogram(g: Graph, k: nat): map<nat, nat>
    requires k <= g.NodeCount()
  {
    if k == 0 then map[]
    else
      var h := Histogram(g, k - 1);
      var d := Degree(g, k - 1);
      h[d := CountOf(h, d) + 1]
  }

  /** `*entry(d).or_insert(0)`: the count stored for `d`, zero when absent. */
  function CountOf(h: map<nat, nat>, d: nat): nat {
    if d in h then h[d] else 0
  }

  /** The nodes among `0 .. k - 1` whose degree is `d`. */
  ghost function NodesOfDegree(g: Graph, d: nat, k: nat): set<nat>
    requires k <= g.NodeCount()
  {
    set x | 0 <= x < k && Degree(g, x) == d
  }

  /** `calculate_degree_distribution`: one increment per node. */
  method CalculateDegreeDistribution(g: Graph) returns (counts: map<nat, nat>)
    ensures counts == Histogram(g, g.NodeCount())
  {
    counts := map[];
    var node := 0;
    while node < g.NodeCount()
      invariant node <= g.NodeCount()
      invariant counts == Histogram(g, node)
    {
      var degree := |g.adj[node]|;
      counts := counts[degree := CountOf(counts, degree) + 1];
      node := node + 1;
    }
  }

  lemma NodesOfDegreeStep(g: Graph, d: nat, k: nat)
    requires k < g.NodeCount()
    ensures NodesOfDegree(g, d, k + 1) ==
      NodesOfDegree(g, d, k) + (if Degree(g, k) == d then {k} else {})
  {
  }

  /** For every degree `d`, the stored count is the number of nodes of degree
      `d`, and `d` is a key exactly when some node has that degree. */
  lemma {:induction false} HistogramCounts(g: Graph, k: nat, d: nat)
    requires k <= g.NodeCount()
    ensures CountOf(Histogram(g, k), d) == |NodesOfDegree(g, d, k)|
    ensures d in Histogram(g, k) <==> exists x :: 0 <= x < k && Degree(g, x) == d
  {
    if k == 0 {
      assert NodesOfDegree(g, d, 0) == {};
    } else {
      HistogramCounts(g, k - 1, d);
      NodesOfDegreeStep(g, d, k - 1);
      if Degree(g, k - 1) != d && d in Histogram(g, k) {
        var x :| 0 <= x < k - 1 && Degree(g, x) == d;
      }
    }
  }

  /** Sum of the values of a map (the counts of a distribution). */
  ghost function SumValues(m: map<nat, nat>): nat
    decreases |m|
  {
    if m == map[] then 0
    else
      var k :| k in m;
      m[k] + SumValues(m - {k})
  }

  /** The sum can be taken starting from any key. */
  lemma {:induction false} SumValuesPick(m: map<nat, nat>, k: nat)
    requires k in m
    ensures SumValues(m) == m[k] + SumValues(m - {k})
    decreases |m|
  {
    var j :| j in m && SumValues(m) == m[j] + SumValues(m - {j});
    if j != k {
      SumValuesPick(m - {j}, k);
      SumValuesPick(m - {k}, j);
      assert m - {j} - {k} == m - {k} - {j};
    }
  }

  /** Raising one count by one raises the total by one. */
  lemma SumValuesIncrement(m: map<nat, nat>, d: nat)
    ensures SumValues(m[d := CountOf(m, d) + 1]) == SumValues(m) + 1
  {
    var m' := m[d := CountOf(m, d) + 1];
    SumValuesPick(m', d);
    if d in m {
      SumValuesPick(m, d);
      assert m' - {d} == m - {d};
    } else {
      assert m' - {d} == m;
    }
  }

  /** The counts add up to the number of nodes counted. */
  lemma {:induction false} HistogramTotal(g: Graph, k: nat)
    requires k <= g.NodeCount()
    ensures SumValues(Histogram(g, k)) == k
  {
    if k > 0 {
      HistogramTotal(g, k - 1);
      SumValuesIncrement(Histogram(g, k - 1), Degree(g, k - 1));
    }
  }

  /** The distribution is empty exactly when the graph has no nodes. */
  lemma HistogramEmpty(g: Graph)
    ensures Histogram(g, g.NodeCount()) == map[] <==> g.NodeCount() == 0
  {
    if g.NodeCount() > 0 {
      HistogramCounts(g, g.NodeCount(), Degree(g, 0));
    }
  }

  /** `print_sorted_degrees`: the keys of the distribution, collected in
      whatever order the map yields them and sorted in place. Each key
      appears once, in strictly ascending order. */
  method SortedDegrees(counts: map<nat, nat>) returns (degrees: seq<nat>)
    ensures StrictlyIncreasing(degrees)
    ensures forall d :: d in degrees <==> d in counts
    ensures |degrees| == |counts|
  {
    var keys := CollectKeys(counts);
    var a := new nat[|keys|](i requires 0 <= i < |keys| => keys[i]);
    assert a[..] == keys;
    SortInPlace(a);
    degrees := a[..];
    SortedOnceEachIsStrict(degrees);
  }

  /** `keys()` collected into a vector: every key of `counts`, each once. */
  method CollectKeys(counts: map<nat, nat>) returns (keys: seq<nat>)
    ensures forall d :: d in multiset(keys) <==> d in counts
    ensures forall d :: multiset(keys)[d] <= 1
    ensures |keys| == |counts|
  {
    keys := [];
    var remaining := counts.Keys;
    while remaining != {}
      invariant Gathered(counts, remaining, keys)
    {
      var d :| d in remaining;
      GatherOne(counts, remaining, keys, d);
      keys := keys + [d];
      remaining := remaining - {d};
    }
  }

  /** `keys` lists, once each, the keys of `counts` outside `remaining`. */
  ghost predicate Gathered(counts: map<nat, nat>, remaining: set<nat>, keys: seq<nat>) {
    && remaining <= counts.Keys
    && |keys| + |remaining| == |counts|
    && (forall d :: d in multiset(keys) <==> d in counts && d !in remaining)
    && (forall d :: multiset(keys)[d] <= 1)
  }

  lemma GatherOne(counts: map<nat, nat>, remaining: set<nat>, keys: seq<nat>, d: nat)
    requires Gathered(counts, remaining, keys) && d in remaining
    ensures Gathered(counts, remaining - {d}, keys + [d])
  {
    assert multiset(keys + [d]) == multiset(keys) + multiset{d};
  }
}
