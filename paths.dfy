/**
  Unit-weight single-source shortest paths, the job `dijkstra(graph, s, None,
  |_| 1)` does in the statistics: the result maps every node reachable from
  `s` to the number of edges on a shortest walk from `s`, and `s` itself to 0.

  The specification is stated on walks; the search itself is a breadth-first
  expansion over the neighbour lists, one distance level at a time, proved
  against it through the balls `Ball(g, s, k)` of nodes at most `k` steps
  from `s`.
 */
module Paths {
  import opened Graphs

  /** Every neighbour list names only nodes of the graph (true of every
      valid graph, see `ValidIsClosed`). */
  ghost predicate Closed(g: Graph) {
    forall x, k :: 0 <= x < |g.adj| && 0 <= k < |g.adj[x]| ==> g.adj[x][k] < |g.adj|
  }

  lemma ValidIsClosed(g: Graph)
    requires g.Valid()
    ensures Closed(g)
  {
    NeighboursAreNodes(g);
  }

  /** `p` lists nodes, each a neighbour of the one before. */
  ghost predicate IsWalk(g: Graph, p: seq<nat>) {
    && |p| >= 1
    && (forall i :: 0 <= i < |p| ==> p[i] < |g.adj|)
    && (forall i :: 0 <= i < |p| - 1 ==> p[i + 1] in g.adj[p[i]])
  }

  /** `p` is a walk from `s` to `t`; it takes `|p| - 1` steps. */
  ghost predicate Connects(g: Graph, p: seq<nat>, s: nat, t: nat) {
    IsWalk(g, p) && p[0] == s && p[|p| - 1] == t
  }

  ghost predicate Reachable(g: Graph, s: nat, t: nat) {
    exists p :: Connects(g, p, s, t)
  }

  /** `d` is the length of a shortest walk from `s` to `t`. */
  ghost predicate IsShortest(g: Graph, s: nat, t: nat, d: nat) {
    && (exists p :: Connects(g, p, s, t) && |p| == d + 1)
    && (forall p :: Connects(g, p, s, t) ==> d + 1 <= |p|)
  }

  /** `y` is on node `x`'s neighbour list. */
  ghost predicate Adjacent(g: Graph, x: nat, y: nat) {
    x < |g.adj| && y in g.adj[x]
  }

  /** The nodes one step away from some node of `nodes`. */
  ghost function Neighbourhood(g: Graph, nodes: set<nat>): set<nat> {
    set x, y {:trigger Adjacent(g, x, y), x in nodes} | x in nodes && x < |g.adj| && y in g.adj[x] && Adjacent(g, x, y) :: y
  }

  /** The nodes at most `k` steps from `s`. */
  ghost function Ball(g: Graph, s: nat, k: nat): set<nat> {
    if k == 0 then {s}
    else Ball(g, s, k - 1) + Neighbourhood(g, Ball(g, s, k - 1))
  }

  /** `t` is exactly `k` steps from `s`: within `k` steps, not within `k - 1`. */
  ghost predicate InLayer(g: Graph, s: nat, t: nat, k: nat) {
    t in Ball(g, s, k) && (k == 0 || t !in Ball(g, s, k - 1))
  }

  /** The ball of radius `k` has stopped growing: it already holds every
      neighbour of its nodes. */
  ghost predicate Stopped(g: Graph, s: nat, k: nat) {
    Neighbourhood(g, Ball(g, s, k)) <= Ball(g, s, k)
  }

  /** The node indices `0 .. n - 1`. */
  ghost function Range(n: nat): (r: set<nat>)
    ensures forall x: nat :: x in r <==> x < n
  {
    if n == 0 then {} else Range(n - 1) + {n - 1}
  }

  lemma NeighbourhoodIntro(g: Graph, nodes: set<nat>, x: nat, y: nat)
    requires x in nodes && x < |g.adj| && y in g.adj[x]
    ensures y in Neighbourhood(g, nodes)
  {
    assert Adjacent(g, x, y);
  }

  lemma NeighbourhoodElim(g: Graph, nodes: set<nat>, y: nat) returns (x: nat)
    requires y in Neighbourhood(g, nodes)
    ensures x in nodes && x < |g.adj| && y in g.adj[x]
  {
    x :| x in nodes && x < |g.adj| && y in g.adj[x] && Adjacent(g, x, y);
  }

  lemma {:induction false} BallGrows(g: Graph, s: nat, j: nat, k: nat)
    requires j <= k
    ensures Ball(g, s, j) <= Ball(g, s, k)
    decreases k
  {
    if j < k {
      BallGrows(g, s, j, k - 1);
    }
  }

  lemma {:induction false} BallInNodes(g: Graph, s: nat, k: nat)
    requires Closed(g) && s < g.NodeCount()
    ensures Ball(g, s, k) <= Range(g.NodeCount())
  {
    if k > 0 {
      BallInNodes(g, s, k - 1);
      ghost var reached := Neighbourhood(g, Ball(g, s, k - 1));
      forall y | y in reached ensures y < g.NodeCount() {
        var x := NeighbourhoodElim(g, Ball(g, s, k - 1), y);
        var i :| 0 <= i < |g.adj[x]| && g.adj[x][i] == y;
      }
    }
  }

  /** Every node of the ball is reached by a walk of at most `k` steps. */
  lemma {:induction false} BallHasWalk(g: Graph, s: nat, k: nat, t: nat) returns (p: seq<nat>)
    requires Closed(g) && s < g.NodeCount() && t in Ball(g, s, k)
    ensures Connects(g, p, s, t) && |p| <= k + 1
  {
    if k == 0 {
      p := [s];
    } else if t in Ball(g, s, k - 1) {
      p := BallHasWalk(g, s, k - 1, t);
    } else {
      var x := NeighbourhoodElim(g, Ball(g, s, k - 1), t);
      var q := BallHasWalk(g, s, k - 1, x);
      var i :| 0 <= i < |g.adj[x]| && g.adj[x][i] == t;
      p := q + [t];
      forall j | 0 <= j < |p| - 1 ensures p[j + 1] in g.adj[p[j]] {
        if j < |q| - 1 {
          assert p[j] == q[j] && p[j + 1] == q[j + 1];
        }
      }
    }
  }

  /** A walk of at most `k` steps ends inside the ball. */
  lemma {:induction false} WalkInBall(g: Graph, s: nat, p: seq<nat>, k: nat)
    requires IsWalk(g, p) && p[0] == s && |p| <= k + 1
    ensures p[|p| - 1] in Ball(g, s, k)
    decreases |p|
  {
    if |p| == 1 {
      BallGrows(g, s, 0, k);
    } else {
      var q := p[..|p| - 1];
      assert IsWalk(g, q);
      WalkInBall(g, s, q, k - 1);
      NeighbourhoodIntro(g, Ball(g, s, k - 1), q[|q| - 1], p[|p| - 1]);
    }
  }

  /** `t` is within `k` steps exactly when some walk of at most `k` steps
      reaches it. */
  lemma BallIffWalk(g: Graph, s: nat, k: nat, t: nat)
    requires Closed(g) && s < g.NodeCount()
    ensures t in Ball(g, s, k) <==> exists p :: Connects(g, p, s, t) && |p| <= k + 1
  {
    if t in Ball(g, s, k) {
      var p := BallHasWalk(g, s, k, t);
    }
    if exists p :: Connects(g, p, s, t) && |p| <= k + 1 {
      var p :| Connects(g, p, s, t) && |p| <= k + 1;
      WalkInBall(g, s, p, k);
    }
  }

  /** A node exactly `k` steps out is at shortest distance `k`. */
  lemma LayerIsShortest(g: Graph, s: nat, t: nat, k: nat)
    requires Closed(g) && s < g.NodeCount() && InLayer(g, s, t, k)
    ensures IsShortest(g, s, t, k)
  {
    var p := BallHasWalk(g, s, k, t);
    forall q | Connects(g, q, s, t) ensures k + 1 <= |q| {
      if k > 0 && |q| <= k {
        WalkInBall(g, s, q, k - 1);
      }
    }
  }

  /** The shortest distance, when there is one, is unique. */
  lemma ShortestUnique(g: Graph, s: nat, t: nat, d1: nat, d2: nat)
    requires IsShortest(g, s, t, d1) && IsShortest(g, s, t, d2)
    ensures d1 == d2
  {
    var p1 :| Connects(g, p1, s, t) && |p1| == d1 + 1;
    var p2 :| Connects(g, p2, s, t) && |p2| == d2 + 1;
  }

  /** Some walk reaches `t` in exactly `k` steps and none in fewer: the first
      ball that holds `t` gives the distance. */
  lemma {:induction false} FirstLayer(g: Graph, s: nat, t: nat, k: nat) returns (j: nat)
    requires t in Ball(g, s, k)
    ensures j <= k && InLayer(g, s, t, j)
  {
    if k == 0 || t !in Ball(g, s, k - 1) {
      j := k;
    } else {
      j := FirstLayer(g, s, t, k - 1);
    }
  }

  /** A reachable node outside the ball of radius `k` is not yet in a
      stopped ball: the next ball adds some node. */
  lemma BallGrowsTowards(g: Graph, s: nat, k: nat, t: nat)
    requires Closed(g) && s < g.NodeCount() && Reachable(g, s, t) && t !in Ball(g, s, k)
    ensures Range(g.NodeCount()) - Ball(g, s, k + 1) < Range(g.NodeCount()) - Ball(g, s, k)
  {
    BallGrows(g, s, k, k + 1);
    BallInNodes(g, s, k + 1);
    if Stopped(g, s, k) {
      ReachableInStableBall(g, s, k, t);
      assert false;
    }
    var x :| x in Neighbourhood(g, Ball(g, s, k)) && x !in Ball(g, s, k);
    FewerUnseen(Range(g.NodeCount()), Ball(g, s, k), Ball(g, s, k + 1), x);
  }

  /** The first radius from `k` on whose ball holds `t`: the layer of `t`. */
  ghost function FirstBall(g: Graph, s: nat, t: nat, k: nat): (d: nat)
    requires Closed(g) && s < g.NodeCount() && Reachable(g, s, t)
    requires k == 0 || t !in Ball(g, s, k - 1)
    ensures InLayer(g, s, t, d)
    decreases Range(g.NodeCount()) - Ball(g, s, k)
  {
    if t in Ball(g, s, k) then k
    else
      BallGrowsTowards(g, s, k, t);
      FirstBall(g, s, t, k + 1)
  }

  /** The number of edges on a shortest walk from `s` to `t`. */
  ghost function Distance(g: Graph, s: nat, t: nat): (d: nat)
    requires Closed(g) && s < g.NodeCount() && Reachable(g, s, t)
  {
    FirstBall(g, s, t, 0)
  }

  lemma DistanceIsShortest(g: Graph, s: nat, t: nat)
    requires Closed(g) && s < g.NodeCount() && Reachable(g, s, t)
    ensures IsShortest(g, s, t, Distance(g, s, t))
  {
    LayerIsShortest(g, s, t, FirstBall(g, s, t, 0));
  }

  /** Only the source is at distance 0. */
  lemma DistanceZeroIffSource(g: Graph, s: nat, t: nat)
    requires Closed(g) && s < g.NodeCount() && Reachable(g, s, t)
    ensures Distance(g, s, t) == 0 <==> t == s
  {
    var d := Distance(g, s, t);
    DistanceIsShortest(g, s, t);
    var p :| Connects(g, p, s, t) && |p| == d + 1;
    if t == s {
      assert Connects(g, [s], s, t);
    }
  }

  /** A walk read backwards, in a graph whose adjacency is symmetric. */
  lemma ReverseWalk(g: Graph, p: seq<nat>) returns (r: seq<nat>)
    requires g.Valid() && IsWalk(g, p)
    ensures IsWalk(g, r) && |r| == |p| && r[0] == p[|p| - 1] && r[|r| - 1] == p[0]
  {
    r := seq(|p|, i requires 0 <= i < |p| => p[|p| - 1 - i]);
    forall i | 0 <= i < |r| - 1 ensures r[i + 1] in g.adj[r[i]] {
      var j := |p| - 2 - i;
      assert p[j + 1] in g.adj[p[j]];
      AdjacencySymmetric(g, p[j], p[j + 1]);
    }
  }

  /** In an undirected graph distance is symmetric. */
  lemma ShortestSymmetric(g: Graph, s: nat, t: nat, d: nat)
    requires g.Valid() && IsShortest(g, s, t, d)
    ensures IsShortest(g, t, s, d)
  {
    var p :| Connects(g, p, s, t) && |p| == d + 1;
    var r := ReverseWalk(g, p);
    forall q | Connects(g, q, t, s) ensures d + 1 <= |q| {
      var rq := ReverseWalk(g, q);
      assert Connects(g, rq, s, t);
    }
  }

  lemma ReachableSymmetric(g: Graph, s: nat, t: nat)
    requires g.Valid() && Reachable(g, s, t)
    ensures Reachable(g, t, s)
  {
    var p :| Connects(g, p, s, t);
    var r := ReverseWalk(g, p);
    assert Connects(g, r, t, s);
  }

  lemma DistanceSymmetric(g: Graph, s: nat, t: nat)
    requires g.Valid() && Closed(g) && s < g.NodeCount() && Reachable(g, s, t)
    ensures t < g.NodeCount() && Reachable(g, t, s)
    ensures Distance(g, s, t) == Distance(g, t, s)
  {
    ReachableSymmetric(g, s, t);
    var p :| Connects(g, p, s, t);
    DistanceIsShortest(g, s, t);
    DistanceIsShortest(g, t, s);
    ShortestSymmetric(g, s, t, Distance(g, s, t));
    ShortestUnique(g, t, s, Distance(g, s, t), Distance(g, t, s));
  }

  /** The next ball adds only neighbours of the current layer: nodes reached
      from further inside are already in the ball. */
  lemma BallStep(g: Graph, s: nat, k: nat, layer: set<nat>)
    requires forall t :: t in layer <==> InLayer(g, s, t, k)
    ensures Ball(g, s, k + 1) == Ball(g, s, k) + Neighbourhood(g, layer)
  {
    forall y | y in Neighbourhood(g, Ball(g, s, k)) ensures y in Ball(g, s, k) + Neighbourhood(g, layer) {
      var x := NeighbourhoodElim(g, Ball(g, s, k), y);
      if x in layer {
        NeighbourhoodIntro(g, layer, x, y);
      } else {
        NeighbourhoodIntro(g, Ball(g, s, k - 1), x, y);
      }
    }
    forall y | y in Neighbourhood(g, layer) ensures y in Ball(g, s, k + 1) {
      var x := NeighbourhoodElim(g, layer, y);
      NeighbourhoodIntro(g, Ball(g, s, k), x, y);
    }
  }

  /** Once a ball stops growing no later ball holds anything more. */
  lemma {:induction false} BallStable(g: Graph, s: nat, k: nat, j: nat)
    requires Stopped(g, s, k) && k <= j
    ensures Ball(g, s, j) <= Ball(g, s, k)
    decreases j
  {
    if j > k {
      BallStable(g, s, k, j - 1);
      NeighbourhoodGrows(g, Ball(g, s, j - 1), Ball(g, s, k));
    }
  }

  /** More nodes have at least the same neighbours. */
  lemma NeighbourhoodGrows(g: Graph, a: set<nat>, b: set<nat>)
    requires a <= b
    ensures Neighbourhood(g, a) <= Neighbourhood(g, b)
  {
    forall y | y in Neighbourhood(g, a) ensures y in Neighbourhood(g, b) {
      var x := NeighbourhoodElim(g, a, y);
      NeighbourhoodIntro(g, b, x, y);
    }
  }

  /** Every node reachable at all is inside a ball that has stopped growing. */
  lemma ReachableInStableBall(g: Graph, s: nat, k: nat, t: nat)
    requires Stopped(g, s, k) && Reachable(g, s, t)
    ensures t in Ball(g, s, k)
  {
    var p :| Connects(g, p, s, t);
    var m := |p| - 1 + k;
    WalkInBall(g, s, p, m);
    BallStable(g, s, k, m);
  }

  /** A ball that has stopped growing holds exactly the reachable nodes. */
  lemma StableBallIsReachable(g: Graph, s: nat, k: nat)
    requires Closed(g) && s < g.NodeCount()
    requires Stopped(g, s, k)
    ensures forall t :: t in Ball(g, s, k) <==> Reachable(g, s, t)
  {
    forall t | t in Ball(g, s, k) ensures Reachable(g, s, t) {
      var p := BallHasWalk(g, s, k, t);
    }
    forall t | Reachable(g, s, t) ensures t in Ball(g, s, k) {
      ReachableInStableBall(g, s, k, t);
    }
  }

  /** An empty layer means the ball stopped growing one step earlier. */
  lemma EmptyLayerStops(g: Graph, s: nat, level: nat)
    requires forall t :: !InLayer(g, s, t, level)
    ensures level > 0 && Stopped(g, s, level - 1)
  {
    assert InLayer(g, s, s, 0);
    var inner := Ball(g, s, level - 1);
    forall y | y in Neighbourhood(g, inner) ensures y in inner {
      assert y in Ball(g, s, level);
      assert !InLayer(g, s, y, level);
    }
  }

  /** After one level of the search every recorded distance is still the
      layer its node lies in. */
  lemma LayersAdvance(g: Graph, s: nat, level: nat, dist0: map<nat, nat>, dist: map<nat, nat>)
    requires forall t :: t in dist0 ==> InLayer(g, s, t, dist0[t])
    requires dist0.Keys == Ball(g, s, level) && dist.Keys == Ball(g, s, level + 1)
    requires forall t :: t in dist0 ==> t in dist && dist[t] == dist0[t]
    requires forall t :: t in dist && t !in dist0 ==> dist[t] == level + 1
    ensures forall t :: t in dist ==> InLayer(g, s, t, dist[t])
  {
  }

  /** Visits the neighbours of `x`, a node `level` steps out: each one not
      seen yet gets distance `level + 1` and joins the next frontier.
      `inner` stands for the nodes within `level` steps and `outer` for
      those within `level + 1`. */
  method VisitNeighbours(g: Graph, level: nat, x: nat, ghost inner: set<nat>, ghost outer: set<nat>,
                         dist0: map<nat, nat>, next0: seq<nat>)
    returns (dist: map<nat, nat>, next: seq<nat>)
    requires x < g.NodeCount() && forall y :: y in g.adj[x] ==> y in outer
    requires inner <= dist0.Keys <= outer
    requires forall t :: t in next0 <==> t in dist0 && t !in inner
    requires forall t :: t in dist0 && t !in inner ==> dist0[t] == level + 1
    ensures forall t :: t in dist0 ==> t in dist && dist[t] == dist0[t]
    ensures dist.Keys <= outer
    ensures forall t :: t in next <==> t in dist && t !in inner
    ensures forall t :: t in dist && t !in inner ==> dist[t] == level + 1
    ensures forall y :: y in g.adj[x] ==> y in dist
  {
    dist, next := dist0, next0;
    var i := 0;
    while i < |g.adj[x]|
      invariant i <= |g.adj[x]|
      invariant forall t :: t in dist0 ==> t in dist && dist[t] == dist0[t]
      invariant dist.Keys <= outer
      invariant forall t :: t in next <==> t in dist && t !in inner
      invariant forall t :: t in dist && t !in inner ==> dist[t] == level + 1
      invariant forall j :: 0 <= j < i ==> g.adj[x][j] in dist
    {
      var y := g.adj[x][i];
      if y !in dist {
        dist := dist[y := level + 1];
        next := next + [y];
      }
      i := i + 1;
    }
  }

  /** One level of the search: every neighbour of the frontier not seen yet
      is recorded at distance `level + 1` and forms the next frontier. */
  method ExpandLevel(g: Graph, level: nat, frontier: seq<nat>, ghost outer: set<nat>, dist0: map<nat, nat>)
    returns (dist: map<nat, nat>, next: seq<nat>)
    requires forall j :: 0 <= j < |frontier| ==> frontier[j] < g.NodeCount()
    requires outer == dist0.Keys + Neighbourhood(g, set t | t in frontier)
    ensures forall t :: t in dist0 ==> t in dist && dist[t] == dist0[t]
    ensures dist.Keys == outer
    ensures forall t :: t in next <==> t in dist && t !in dist0
    ensures forall t :: t in dist && t !in dist0 ==> dist[t] == level + 1
  {
    ghost var layer := set t | t in frontier;
    dist, next := dist0, [];
    var i := 0;
    while i < |frontier|
      invariant i <= |frontier|
      invariant forall t :: t in dist0 ==> t in dist && dist[t] == dist0[t]
      invariant dist.Keys <= outer
      invariant forall t :: t in next <==> t in dist && t !in dist0
      invariant forall t :: t in dist && t !in dist0 ==> dist[t] == level + 1
      invariant forall j, y :: 0 <= j < i && y in g.adj[frontier[j]] ==> y in dist
    {
      forall y | y in g.adj[frontier[i]] ensures y in outer {
        NeighbourhoodIntro(g, layer, frontier[i], y);
      }
      dist, next := VisitNeighbours(g, level, frontier[i], dist0.Keys, outer, dist, next);
      i := i + 1;
    }
    forall y | y in Neighbourhood(g, layer) ensures y in dist {
      var x := NeighbourhoodElim(g, layer, y);
      var j :| 0 <= j < |frontier| && frontier[j] == x;
    }
  }

  /** What one call of `ExpandLevel` achieves, in terms of balls and layers:
      the map now covers the next ball, the new frontier is the next layer,
      and every recorded distance is its node's layer. */
  lemma LevelStep(g: Graph, s: nat, level: nat, frontier: seq<nat>, dist0: map<nat, nat>,
                  dist: map<nat, nat>, next: seq<nat>)
    requires Closed(g) && s < g.NodeCount()
    requires dist0.Keys == Ball(g, s, level)
    requires forall t :: t in frontier <==> InLayer(g, s, t, level)
    requires forall t :: t in dist0 ==> InLayer(g, s, t, dist0[t])
    requires forall t :: t in dist0 ==> t in dist && dist[t] == dist0[t]
    requires dist.Keys == dist0.Keys + Neighbourhood(g, set t | t in frontier)
    requires forall t :: t in next <==> t in dist && t !in dist0
    requires forall t :: t in dist && t !in dist0 ==> dist[t] == level + 1
    ensures dist.Keys == Ball(g, s, level + 1) <= Range(g.NodeCount())
    ensures forall t :: t in next <==> InLayer(g, s, t, level + 1)
    ensures forall j :: 0 <= j < |next| ==> next[j] < g.NodeCount()
    ensures forall t :: t in dist ==> InLayer(g, s, t, dist[t])
  {
    BallStep(g, s, level, set t | t in frontier);
    BallInNodes(g, s, level + 1);
    LayersAdvance(g, s, level, dist0, dist);
    forall j | 0 <= j < |next| ensures next[j] < g.NodeCount() {
      assert next[j] in next;
    }
  }

  /** When the frontier runs dry the map holds exactly the reachable nodes. */
  lemma SearchDone(g: Graph, s: nat, level: nat, dist: map<nat, nat>)
    requires Closed(g) && s < g.NodeCount()
    requires dist.Keys == Ball(g, s, level)
    requires forall t :: !InLayer(g, s, t, level)
    ensures forall t :: t in dist <==> Reachable(g, s, t)
  {
    EmptyLayerStops(g, s, level);
    StableBallIsReachable(g, s, level - 1);
  }

  /** Distances recorded by layer are shortest distances. */
  lemma LayersAreShortest(g: Graph, s: nat, dist: map<nat, nat>)
    requires Closed(g) && s < g.NodeCount()
    requires forall t :: t in dist ==> InLayer(g, s, t, dist[t])
    ensures forall t :: t in dist ==> IsShortest(g, s, t, dist[t])
  {
    forall t | t in dist ensures IsShortest(g, s, t, dist[t]) {
      LayerIsShortest(g, s, t, dist[t]);
    }
  }

  lemma FewerUnseen(all: set<nat>, seen: set<nat>, now: set<nat>, x: nat)
    requires seen <= now <= all && x in now && x !in seen
    ensures all - now < all - seen
  {
    assert x in all - seen;
  }

  /** One round of the search shrinks the nodes not yet seen together with
      the frontier: the old frontier leaves it, and the new frontier was
      unseen before. */
  lemma Progress(all: set<nat>, seen: set<nat>, now: set<nat>, layer: set<nat>, next: set<nat>, x: nat)
    requires seen <= now <= all && layer <= seen && x in layer
    requires forall t :: t in next ==> t in now && t !in seen
    ensures (all - now) + next < (all - seen) + layer
  {
    assert x !in (all - now) + next;
  }

  /** Moves the search from the layer at distance `level` to the next one. */
  method NextLevel(g: Graph, s: nat, level: nat, frontier: seq<nat>, dist0: map<nat, nat>)
    returns (dist: map<nat, nat>, next: seq<nat>)
    requires Closed(g) && s < g.NodeCount()
    requires dist0.Keys == Ball(g, s, level)
    requires forall t :: t in frontier <==> InLayer(g, s, t, level)
    requires forall j :: 0 <= j < |frontier| ==> frontier[j] < g.NodeCount()
    requires forall t :: t in dist0 ==> InLayer(g, s, t, dist0[t])
    ensures dist.Keys == Ball(g, s, level + 1) <= Range(g.NodeCount())
    ensures forall t :: t in next <==> InLayer(g, s, t, level + 1)
    ensures forall j :: 0 <= j < |next| ==> next[j] < g.NodeCount()
    ensures forall t :: t in dist ==> InLayer(g, s, t, dist[t])
    ensures dist0.Keys <= dist.Keys
    ensures forall t :: t in next <==> t in dist && t !in dist0
  {
    dist, next := ExpandLevel(g, level, frontier, dist0.Keys + Neighbourhood(g, set t | t in frontier), dist0);
    LevelStep(g, s, level, frontier, dist0, dist, next);
  }

  /** `dijkstra(graph, s, None, |_| 1)`: the distance of every node reachable
      from `s`, found breadth first. */
  method ShortestPaths(g: Graph, s: nat) returns (dist: map<nat, nat>)
    requires Closed(g) && s < g.NodeCount()
    ensures forall t :: t in dist <==> Reachable(g, s, t)
    ensures forall t :: t in dist ==> IsShortest(g, s, t, dist[t])
  {
    dist := map[s := 0];
    var frontier: seq<nat> := [s];
    var level := 0;
    while frontier != []
      invariant dist.Keys == Ball(g, s, level) <= Range(g.NodeCount())
      invariant forall t :: t in frontier <==> InLayer(g, s, t, level)
      invariant forall j :: 0 <= j < |frontier| ==> frontier[j] < g.NodeCount()
      invariant forall t :: t in dist ==> InLayer(g, s, t, dist[t])
      decreases (Range(g.NodeCount()) - dist.Keys) + (set t | t in frontier)
    {
      ghost var seen, layer, x := dist.Keys, (set t | t in frontier), frontier[0];
      dist, frontier := NextLevel(g, s, level, frontier, dist);
      level := level + 1;
      Progress(Range(g.NodeCount()), seen, dist.Keys, layer, (set t | t in frontier), x);
    }
    SearchDone(g, s, level, dist);
    LayersAreShortest(g, s, dist);
  }
}
