/**
  The small graphs the repository's own unit tests use, worked through the
  model: the three-line edge file, the triangle and the four-node path.
 */
module Examples {
  import opened Text
  import opened Graphs
  import opened Loading
  import opened Degrees
  import opened Paths
  import opened Separation
  import opened SamplePairs
  import opened Sorting

  /** Splitting `"a b"` with one space between two tokens. */
  lemma SplitPair(a: string, b: string)
    requires IsWord(a) && IsWord(b)
    ensures Split(a + " " + b) == [a, b]
    ensures IsEdgeLine(a + " " + b)
  {
    assert a + " " + b == a + [' '] + b;
    SplitTwoWords(a, ' ', b);
  }

  /** A well-formed line appended to the file adds its two tokens and
      itself to the edge lines. */
  lemma AppendEdgeLine(lines: seq<string>, a: string, b: string)
    requires IsWord(a) && IsWord(b)
    ensures Tokens(lines + [a + " " + b]) == Tokens(lines) + {a, b}
    ensures EdgeLines(lines + [a + " " + b]) == EdgeLines(lines) + [a + " " + b]
  {
    SplitPair(a, b);
    assert (lines + [a + " " + b])[..|lines|] == lines;
  }

  /** A chain `a b`, `b c`, `c d` of four distinct tokens gives four
      nodes and three edges. */
  lemma ChainFile(a: string, b: string, c: string, d: string)
    requires IsWord(a) && IsWord(b) && IsWord(c) && IsWord(d)
    requires a != b && a != c && a != d && b != c && b != d && c != d
    ensures Load([a + " " + b, b + " " + c, c + " " + d]).graph.NodeCount() == 4
    ensures Load([a + " " + b, b + " " + c, c + " " + d]).graph.EdgeCount() == 3
  {
    var lines := [a + " " + b, b + " " + c, c + " " + d];
    ChainLines(a, b, c, d);
    LoadNodeCount(lines);
    LoadEdgeCount(lines);
    FourDistinct(a, b, c, d);
  }

  lemma FourDistinct(a: string, b: string, c: string, d: string)
    requires a != b && a != c && a != d && b != c && b != d && c != d
    ensures |{a, b, c, d}| == 4
  {
    assert {a, b, c, d} == {a, b, c} + {d} && d !in {a, b, c};
  }

  lemma ChainLines(a: string, b: string, c: string, d: string)
    requires IsWord(a) && IsWord(b) && IsWord(c) && IsWord(d)
    ensures var lines := [a + " " + b, b + " " + c, c + " " + d];
      Tokens(lines) == {a, b, c, d} && EdgeLines(lines) == lines
  {
    var l1, l2, l3 := a + " " + b, b + " " + c, c + " " + d;
    AppendEdgeLine([], a, b);
    AppendEdgeLine([l1], b, c);
    AppendEdgeLine([l1, l2], c, d);
    assert [] + [l1] == [l1] && [l1] + [l2] == [l1, l2] && [l1, l2] + [l3] == [l1, l2, l3];
  }

  /** The edge file `1 2`, `2 3`, `3 4` gives four nodes and three edges. */
  lemma ThreeLineFile()
    ensures Load(["1 2", "2 3", "3 4"]).graph.NodeCount() == 4
    ensures Load(["1 2", "2 3", "3 4"]).graph.EdgeCount() == 3
  {
    DigitTokens();
    ChainFile("1", "2", "3", "4");
    DigitLines();
  }

  /** The tokens `1` to `4` are four distinct words. */
  lemma DigitTokens()
    ensures IsWord("1") && IsWord("2") && IsWord("3") && IsWord("4")
    ensures "1" != "2" && "1" != "3" && "1" != "4" && "2" != "3" && "2" != "4" && "3" != "4"
  {
    assert "1"[0] != "2"[0] && "1"[0] != "3"[0] && "1"[0] != "4"[0];
    assert "2"[0] != "3"[0] && "2"[0] != "4"[0] && "3"[0] != "4"[0];
  }

  lemma DigitLines()
    ensures ["1" + " " + "2", "2" + " " + "3", "3" + " " + "4"] == ["1 2", "2 3", "3 4"]
  {
    assert "1" + " " + "2" == "1 2" && "2" + " " + "3" == "2 3" && "3" + " " + "4" == "3 4";
  }

  /** A line naming the same token twice adds one node and a self-loop on
      it. */
  lemma SelfLoopLine(a: string)
    requires IsWord(a)
    ensures Load([a + " " + a]).graph == Graph([[0]], [Edge(0, 0)])
  {
    var line := a + " " + a;
    SplitPair(a, a);
    assert [line][..0] == [];
    var (st1, x) := Intern(Start, a);
    assert x == 0 && st1.graph == Graph([[]], []);
    var (st2, y) := Intern(st1, a);
    assert y == 0 && st2 == st1;
    assert Load([line]) == Step(Start, line);
    var g1 := AddEdge(st1.graph, 0, 0);
    assert Step(Start, line).graph == g1;
    assert |g1.adj| == 1 && g1.adj[0] == [0];
    assert g1.adj == [[0]] && g1.edges == [Edge(0, 0)];
  }

  lemma SelfLoopX()
    ensures Load(["x x"]).graph == Graph([[0]], [Edge(0, 0)])
  {
    assert IsWord("x");
    SelfLoopLine("x");
    assert "x" + " " + "x" == "x x";
  }

  /** The triangle of the tests: three nodes and the edges 0-1, 1-2, 2-0. */
  const Triangle := Graph([[1, 2], [0, 2], [1, 0]], [Edge(0, 1), Edge(1, 2), Edge(2, 0)])

  /** The path of the tests: four nodes and the edges 0-1, 1-2, 2-3. */
  const Path4 := Graph([[1], [0, 2], [1, 3], [2]], [Edge(0, 1), Edge(1, 2), Edge(2, 3)])

  /** Adding three nodes and then the edges 0-1, 1-2, 2-0, as the tests do,
      builds `Triangle`. */
  lemma TriangleBuilt()
    ensures AddEdge(AddEdge(AddEdge(AddNode(AddNode(AddNode(EmptyGraph))), 0, 1), 1, 2), 2, 0) == Triangle
  {
    var g0 := AddNode(AddNode(AddNode(EmptyGraph)));
    assert g0 == Graph([[], [], []], []);
    var g1 := AddEdge(g0, 0, 1);
    assert |g1.adj| == 3;
    assert g1.adj[0] == [1];
    assert g1.adj[1] == [0];
    assert g1.adj[2] == [];
    assert g1.adj == [[1], [0], []];
    var g2 := AddEdge(g1, 1, 2);
    assert |g2.adj| == 3;
    assert g2.adj[0] == [1];
    assert g2.adj[1] == [0, 2];
    assert g2.adj[2] == [1];
    assert g2.adj == [[1], [0, 2], [1]];
    var g3 := AddEdge(g2, 2, 0);
    assert |g3.adj| == 3;
    assert g3.adj[0] == [1, 2];
    assert g3.adj[1] == [0, 2];
    assert g3.adj[2] == [1, 0];
    assert g3.adj == [[1, 2], [0, 2], [1, 0]];
  }

  /** Adding four nodes and then the edges 0-1, 1-2, 2-3 builds `Path4`. */
  lemma Path4Built()
    ensures AddEdge(AddEdge(AddEdge(AddNode(AddNode(AddNode(AddNode(EmptyGraph)))), 0, 1), 1, 2), 2, 3) == Path4
  {
    var g0 := AddNode(AddNode(AddNode(AddNode(EmptyGraph))));
    assert g0 == Graph([[], [], [], []], []);
    var g1 := AddEdge(g0, 0, 1);
    assert |g1.adj| == 4;
    assert g1.adj[0] == [1];
    assert g1.adj[1] == [0];
    assert g1.adj[2] == [];
    assert g1.adj[3] == [];
    assert g1.adj == [[1], [0], [], []];
    var g2 := AddEdge(g1, 1, 2);
    assert |g2.adj| == 4;
    assert g2.adj[0] == [1];
    assert g2.adj[1] == [0, 2];
    assert g2.adj[2] == [1];
    assert g2.adj[3] == [];
    assert g2.adj == [[1], [0, 2], [1], []];
    var g3 := AddEdge(g2, 2, 3);
    assert |g3.adj| == 4;
    assert g3.adj[0] == [1];
    assert g3.adj[1] == [0, 2];
    assert g3.adj[2] == [1, 3];
    assert g3.adj[3] == [2];
    assert g3.adj == [[1], [0, 2], [1, 3], [2]];
  }

  /** Every node of the triangle has degree 2. */
  lemma TriangleDistribution()
    ensures Histogram(Triangle, Triangle.NodeCount()) == map[2 := 3]
  {
    var g := Triangle;
    assert Histogram(g, 1) == map[2 := 1];
    assert Histogram(g, 2) == map[2 := 2];
  }

  lemma TriangleValid()
    ensures Triangle.Valid() && Closed(Triangle)
  {
    var g0 := AddNode(AddNode(AddNode(EmptyGraph)));
    AddNodeKeepsValid(EmptyGraph);
    AddNodeKeepsValid(AddNode(EmptyGraph));
    AddNodeKeepsValid(AddNode(AddNode(EmptyGraph)));
    AddEdgeKeepsValid(g0, 0, 1);
    AddEdgeKeepsValid(AddEdge(g0, 0, 1), 1, 2);
    AddEdgeKeepsValid(AddEdge(AddEdge(g0, 0, 1), 1, 2), 2, 0);
    TriangleBuilt();
    ValidIsClosed(Triangle);
  }

  lemma Path4Valid()
    ensures Path4.Valid() && Closed(Path4)
  {
    var g0 := AddNode(AddNode(AddNode(AddNode(EmptyGraph))));
    AddNodeKeepsValid(EmptyGraph);
    AddNodeKeepsValid(AddNode(EmptyGraph));
    AddNodeKeepsValid(AddNode(AddNode(EmptyGraph)));
    AddNodeKeepsValid(AddNode(AddNode(AddNode(EmptyGraph))));
    AddEdgeKeepsValid(g0, 0, 1);
    AddEdgeKeepsValid(AddEdge(g0, 0, 1), 1, 2);
    AddEdgeKeepsValid(AddEdge(AddEdge(g0, 0, 1), 1, 2), 2, 3);
    Path4Built();
    ValidIsClosed(Path4);
  }

  /** Two distinct nodes joined by an edge are at distance 1. */
  lemma NeighbourDistance(g: Graph, s: nat, t: nat)
    requires Closed(g) && s < g.NodeCount() && t in g.adj[s] && s != t
    ensures Reachable(g, s, t) && Distance(g, s, t) == 1
  {
    assert Connects(g, [s, t], s, t);
    forall p | Connects(g, p, s, t) ensures 2 <= |p| {
    }
    DistanceIsShortest(g, s, t);
    ShortestUnique(g, s, t, 1, Distance(g, s, t));
  }

  /** Any two distinct nodes of the triangle are neighbours. */
  lemma TriangleComplete(s: nat, t: nat)
    requires s < 3 && t < 3 && s != t
    ensures t in Triangle.adj[s]
  {
  }

  /** Every distance in the triangle's sample is 1. */
  lemma TriangleEntry(x: nat)
    requires Closed(Triangle) && x in SeparationSample(Triangle)
    ensures x == 1
  {
    var s, t := SampleMemberHasPair(Triangle, x);
    TriangleComplete(s, t);
    NeighbourDistance(Triangle, s, t);
  }

  /** Every entry of the triangle's sample is 1, and there is one. */
  lemma TriangleSample()
    ensures Closed(Triangle)
    ensures SeparationSample(Triangle) != []
    ensures forall i :: 0 <= i < |SeparationSample(Triangle)| ==> SeparationSample(Triangle)[i] == 1
  {
    TriangleValid();
    NeighbourDistance(Triangle, 0, 1);
    PairInSample(Triangle, 0, 1, 1);
    var sample := SeparationSample(Triangle);
    forall i | 0 <= i < |sample| ensures sample[i] == 1 {
      TriangleEntry(sample[i]);
    }
  }

  /** The mean separation of the triangle is 1. */
  lemma TriangleMean()
    ensures Closed(Triangle) && Mean(SeparationSample(Triangle)) == 1.0
  {
    TriangleSample();
    MeanOfConstant(SeparationSample(Triangle));
  }

  /** `test_calculate_mean_separation`: the triangle's mean separation. */
  method TriangleMeanSeparation() returns (mean: real)
    ensures mean == 1.0
  {
    TriangleValid();
    mean := MeanSeparation(Triangle);
    TriangleMean();
  }

  /** How far apart two indices are. */
  function Gap(s: nat, t: nat): nat {
    if s <= t then t - s else s - t
  }

  /** Each neighbour in `Path4` is the next or the previous index. */
  lemma Path4Steps(x: nat, y: nat)
    requires x < 4 && y in Path4.adj[x]
    ensures y == x + 1 || x == y + 1
  {
  }

  /** A walk in `Path4` moves at most one index per step. */
  lemma {:induction false} Path4WalkSpread(p: seq<nat>, i: nat)
    requires IsWalk(Path4, p) && i < |p|
    ensures Gap(p[0], p[i]) <= i
  {
    if i > 0 {
      Path4WalkSpread(p, i - 1);
      Path4Steps(p[i - 1], p[i]);
    }
  }

  /** The walk through consecutive indices from `s` to `t`. */
  lemma Path4Straight(s: nat, t: nat) returns (p: seq<nat>)
    requires s < 4 && t < 4
    ensures Connects(Path4, p, s, t) && |p| == Gap(s, t) + 1
  {
    assert forall x :: 0 <= x < 3 ==> x + 1 in Path4.adj[x] && x in Path4.adj[x + 1];
    if s <= t {
      p := seq(t - s + 1, i requires 0 <= i <= t - s => s + i);
    } else {
      p := seq(s - t + 1, i requires 0 <= i <= s - t => s - i);
    }
  }

  /** In `Path4` the distance between two nodes is how far apart their
      indices are. */
  lemma Path4Distance(s: nat, t: nat)
    requires s < 4 && t < 4
    ensures Closed(Path4) && Reachable(Path4, s, t) && Distance(Path4, s, t) == Gap(s, t)
  {
    Path4Valid();
    var p := Path4Straight(s, t);
    forall q | Connects(Path4, q, s, t) ensures Gap(s, t) + 1 <= |q| {
      Path4WalkSpread(q, |q| - 1);
    }
    DistanceIsShortest(Path4, s, t);
    ShortestUnique(Path4, s, t, Gap(s, t), Distance(Path4, s, t));
  }

  /** The gaps from `s` to `0 .. k - 1`, leaving out `s` itself. */
  function GapRow(s: nat, k: nat): seq<nat> {
    if k == 0 then [] else GapRow(s, k - 1) + (if k - 1 != s then [Gap(s, k - 1)] else [])
  }

  /** A distance map holding the gaps keeps exactly the gaps to the other
      nodes. */
  lemma {:induction false} PositiveGaps(m: map<nat, nat>, s: nat, k: nat)
    requires forall t: nat :: t < k ==> t in m && m[t] == Gap(s, t)
    ensures Positive(m, k) == GapRow(s, k)
  {
    if k > 0 {
      PositiveGaps(m, s, k - 1);
    }
  }

  /** The search from `s` in `Path4` contributes the gaps from `s`. */
  lemma Path4Row(s: nat)
    requires s < 4
    ensures Closed(Path4) && Positive(DistancesFrom(Path4, s), 4) == GapRow(s, 4)
  {
    Path4Valid();
    var m := DistancesFrom(Path4, s);
    forall t: nat | t < 4 ensures t in m && m[t] == Gap(s, t) {
      Path4Distance(s, t);
      assert t in m && m[t] == Distance(Path4, s, t);
    }
    PositiveGaps(m, s, 4);
  }

  /** The searches from `0 .. k` in `Path4`: the gaps from each source in
      turn. */
  lemma Path4SampleStep(k: nat)
    requires k < 4
    ensures Closed(Path4) && SampleUpTo(Path4, k + 1) == SampleUpTo(Path4, k) + GapRow(k, 4)
  {
    Path4Row(k);
  }

  lemma Path4Rows()
    ensures GapRow(0, 4) == [1, 2, 3] && GapRow(1, 4) == [1, 1, 2]
    ensures GapRow(2, 4) == [2, 1, 1] && GapRow(3, 4) == [3, 2, 1]
  {
  }

  lemma Path4Concat()
    ensures [] + [1, 2, 3] + [1, 1, 2] + [2, 1, 1] + [3, 2, 1] == [1, 2, 3, 1, 1, 2, 2, 1, 1, 3, 2, 1]
  {
  }

  /** The whole sample of `Path4`, searches from 0, 1, 2, 3 in turn. */
  lemma Path4Sample()
    ensures Closed(Path4)
    ensures SeparationSample(Path4) == [1, 2, 3, 1, 1, 2, 2, 1, 1, 3, 2, 1]
  {
    Path4Valid();
    Path4Rows();
    Path4SampleStep(0);
    Path4SampleStep(1);
    Path4SampleStep(2);
    Path4SampleStep(3);
    assert SampleUpTo(Path4, 0) == [];
    Path4Concat();
  }

  /** How often each distance occurs in the sample of `Path4`: the
      separation histogram of the path 0-1-2-3. */
  function Path4Tally(x: nat): nat {
    if x == 1 then 6 else if x == 2 then 4 else if x == 3 then 2 else 0
  }

  lemma Path4SampleTally(x: nat)
    ensures multiset([1, 2, 3, 1, 1, 2, 2, 1, 1, 3, 2, 1])[x] == Path4Tally(x)
  {
  }

  lemma Path4SampleTallies()
    ensures forall x: nat :: multiset([1, 2, 3, 1, 1, 2, 2, 1, 1, 3, 2, 1])[x] == Path4Tally(x)
  {
    forall x: nat ensures multiset([1, 2, 3, 1, 1, 2, 2, 1, 1, 3, 2, 1])[x] == Path4Tally(x) {
      Path4SampleTally(x);
    }
  }

  lemma Path4SortedTally(x: nat)
    ensures multiset([1, 1, 1, 1, 1, 1, 2, 2, 2, 2, 3, 3])[x] == Path4Tally(x)
  {
  }

  /** The ascending arrangement of six 1s, four 2s and two 3s, and its
      middle. */
  lemma Path4SortedFacts()
    ensures forall x: nat :: multiset([1, 1, 1, 1, 1, 1, 2, 2, 2, 2, 3, 3])[x] == Path4Tally(x)
    ensures Sorted([1, 1, 1, 1, 1, 1, 2, 2, 2, 2, 3, 3])
    ensures MedianOfSorted([1, 1, 1, 1, 1, 1, 2, 2, 2, 2, 3, 3]) == 1.5
  {
    forall x: nat ensures multiset([1, 1, 1, 1, 1, 1, 2, 2, 2, 2, 3, 3])[x] == Path4Tally(x) {
      Path4SortedTally(x);
    }
  }

  /** Two sequences with the same tally hold the same elements. */
  lemma SameTally(a: seq<nat>, b: seq<nat>)
    requires forall x: nat :: multiset(a)[x] == Path4Tally(x) && multiset(b)[x] == Path4Tally(x)
    ensures multiset(a) == multiset(b)
  {
    assert forall x :: multiset(a)[x] == multiset(b)[x];
  }

  /** The sample of `Path4` holds six 1s, four 2s and two 3s. */
  lemma Path4Tallies()
    ensures Closed(Path4)
    ensures forall x: nat :: multiset(SeparationSample(Path4))[x] == Path4Tally(x)
  {
    Path4Sample();
    Path4SampleTallies();
  }

  /** Any sequence with that tally sorts to six 1s, four 2s and two 3s, so
      its median is 1.5. */
  lemma MedianOfTally(xs: seq<nat>)
    requires forall x: nat :: multiset(xs)[x] == Path4Tally(x)
    ensures Median(xs) == 1.5
  {
    var sorted := [1, 1, 1, 1, 1, 1, 2, 2, 2, 2, 3, 3];
    Path4SortedFacts();
    SameTally(SortedSeq(xs), sorted);
    SortedUnique(SortedSeq(xs), sorted);
  }

  /** Any sequence with that tally holds a 1 and a 3, so its variance is
      positive. */
  lemma VarianceOfTally(xs: seq<nat>)
    requires forall x: nat :: multiset(xs)[x] == Path4Tally(x)
    ensures Variance(xs) > 0.0
  {
    assert multiset(xs)[1] > 0 && multiset(xs)[3] > 0;
    var i :| 0 <= i < |xs| && xs[i] == 1;
    var j :| 0 <= j < |xs| && xs[j] == 3;
    VariancePositive(xs, i, j);
  }

  /** The median separation of `Path4` is 1.5: the sample has even length
      and its two middle entries are 1 and 2. */
  lemma Path4Median()
    ensures Closed(Path4) && Median(SeparationSample(Path4)) == 1.5
  {
    Path4Tallies();
    MedianOfTally(SeparationSample(Path4));
  }

  /** The separations of `Path4` are not all equal, so their variance is
      positive. */
  lemma Path4VariancePositive()
    ensures Closed(Path4) && Variance(SeparationSample(Path4)) > 0.0
  {
    Path4Tallies();
    VarianceOfTally(SeparationSample(Path4));
  }

  /** `test_calculate_median_separation`: the median separation of the
      path 0-1-2-3. */
  method Path4MedianSeparation() returns (median: real)
    ensures median == 1.5
  {
    Path4Valid();
    median := MedianSeparation(Path4);
    Path4Median();
  }

  /** `test_calculate_standard_deviation_separation`: the spread of the
      separations of the path 0-1-2-3 is positive. */
  method Path4VarianceSeparation() returns (variance: real)
    ensures variance > 0.0
  {
    Path4Valid();
    variance := VarianceSeparation(Path4);
    Path4VariancePositive();
  }

  /** `test_calculate_degree_distribution`: the triangle's distribution. */
  method TriangleDegreeDistribution() returns (counts: map<nat, nat>)
    ensures counts == map[2 := 3]
  {
    counts := CalculateDegreeDistribution(Triangle);
    TriangleDistribution();
  }

  /** The graph of `test_print_sorted_degrees`: nodes 0, 1, 2 and the edges
      0-1, 1-2. */
  const Path3 := Graph([[1], [0, 2], [1]], [Edge(0, 1), Edge(1, 2)])

  lemma Path3Built()
    ensures AddEdge(AddEdge(AddNode(AddNode(AddNode(EmptyGraph))), 0, 1), 1, 2) == Path3
  {
    var g0 := AddNode(AddNode(AddNode(EmptyGraph)));
    assert g0 == Graph([[], [], []], []);
    var g1 := AddEdge(g0, 0, 1);
    assert |g1.adj| == 3;
    assert g1.adj[0] == [1];
    assert g1.adj[1] == [0];
    assert g1.adj[2] == [];
    assert g1.adj == [[1], [0], []];
    var g2 := AddEdge(g1, 1, 2);
    assert |g2.adj| == 3;
    assert g2.adj[0] == [1];
    assert g2.adj[1] == [0, 2];
    assert g2.adj[2] == [1];
    assert g2.adj == [[1], [0, 2], [1]];
  }

  /** Two nodes of degree 1 and one of degree 2. */
  lemma Path3Distribution()
    ensures Histogram(Path3, Path3.NodeCount()) == map[1 := 2, 2 := 1]
  {
    assert Histogram(Path3, 1) == map[1 := 1];
    assert Histogram(Path3, 2) == map[1 := 1, 2 := 1];
  }

  /** `test_print_sorted_degrees`: the degrees that occur, ascending. */
  method Path3SortedDegrees() returns (degrees: seq<nat>)
    ensures degrees == [1, 2]
  {
    var counts := CalculateDegreeDistribution(Path3);
    Path3Distribution();
    degrees := SortedDegrees(counts);
    assert |degrees| == 2;
    assert degrees[0] in counts && degrees[1] in counts;
    assert degrees[0] < degrees[1];
  }
}
