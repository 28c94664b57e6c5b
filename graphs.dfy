/**
  The undirected graph the statistics run on. Nodes are the dense indices
  `0 .. NodeCount() - 1`; every edge ever added is kept in `edges`, in the
  order it was added, and every node keeps the list of its neighbours, one
  entry per incident edge. `AddNode` and `AddEdge` are the two graph
  operations that loading uses.

  Rule for self-loops: an edge from `x` to `x` puts `x` once into `x`'s
  neighbour list.
 */
module Graphs {

  /** An edge between `u` and `v`, endpoints in the order they were given. */
  datatype Edge = Edge(u: nat, v: nat)

  datatype Graph = Graph(adj: seq<seq<nat>>, edges: seq<Edge>) {

    function NodeCount(): nat { |adj| }

    function EdgeCount(): nat { |edges| }

    /** Every edge joins two nodes, and every neighbour list is exactly what
        the edges incident to that node contribute, in insertion order. */
    ghost predicate Valid() {
      && (forall i :: 0 <= i < |edges| ==> edges[i].u < |adj| && edges[i].v < |adj|)
      && (forall x :: 0 <= x < |adj| ==> adj[x] == IncidentNeighbours(edges, x))
    }
  }

  /** The graph with no nodes and no edges. */
  const EmptyGraph := Graph([], [])

  /** What edge `e` puts into node `x`'s neighbour list. */
  function Contribution(e: Edge, x: nat): seq<nat> {
    if e.u == x then [e.v] else if e.v == x then [e.u] else []
  }

  /** Node `x`'s neighbours according to `edges`, one per incident edge. */
  function IncidentNeighbours(edges: seq<Edge>, x: nat): seq<nat> {
    if edges == [] then []
    else IncidentNeighbours(edges[..|edges| - 1], x) + Contribution(edges[|edges| - 1], x)
  }

  /** `e` is an edge between `x` and `y`, in either direction. */
  predicate Joins(e: Edge, x: nat, y: nat) {
    (e.u == x && e.v == y) || (e.u == y && e.v == x)
  }

  /** The number of neighbours of `x`: `neighbors(x).count()`. */
  function Degree(g: Graph, x: nat): nat
    requires x < g.NodeCount()
  {
    |g.adj[x]|
  }

  lemma {:induction false} IncidentAppend(edges: seq<Edge>, e: Edge, x: nat)
    ensures IncidentNeighbours(edges + [e], x) == IncidentNeighbours(edges, x) + Contribution(e, x)
  {
    assert (edges + [e])[..|edges|] == edges;
  }

  lemma {:induction false} NoIncidentNeighbours(edges: seq<Edge>, x: nat)
    requires forall i :: 0 <= i < |edges| ==> edges[i].u != x && edges[i].v != x
    ensures IncidentNeighbours(edges, x) == []
    decreases |edges|
  {
    if edges != [] {
      NoIncidentNeighbours(edges[..|edges| - 1], x);
    }
  }

  /** `y` is a neighbour of `x` exactly when some edge joins them. */
  lemma {:induction false} NeighbourIffJoined(edges: seq<Edge>, x: nat, y: nat)
    ensures y in IncidentNeighbours(edges, x) <==> exists i :: 0 <= i < |edges| && Joins(edges[i], x, y)
    decreases |edges|
  {
    if edges != [] {
      var init := edges[..|edges| - 1];
      NeighbourIffJoined(init, x, y);
      if y in IncidentNeighbours(edges, x) && y !in IncidentNeighbours(init, x) {
        assert Joins(edges[|edges| - 1], x, y);
      }
      if exists i :: 0 <= i < |edges| && Joins(edges[i], x, y) {
        var i :| 0 <= i < |edges| && Joins(edges[i], x, y);
        if i < |edges| - 1 {
          assert Joins(init[i], x, y);
        }
      }
    }
  }

  /** Every neighbour of `x` is the other end of an edge at `x`. */
  lemma {:induction false} NeighbourIsEndpoint(edges: seq<Edge>, x: nat, y: nat)
    requires y in IncidentNeighbours(edges, x)
    ensures exists i :: 0 <= i < |edges| && (edges[i].u == y || edges[i].v == y)
  {
    NeighbourIffJoined(edges, x, y);
    var i :| 0 <= i < |edges| && Joins(edges[i], x, y);
  }

  /** In a valid graph every neighbour is a node. */
  lemma NeighboursAreNodes(g: Graph)
    requires g.Valid()
    ensures forall x, k :: 0 <= x < g.NodeCount() && 0 <= k < |g.adj[x]| ==> g.adj[x][k] < g.NodeCount()
  {
    forall x, k | 0 <= x < g.NodeCount() && 0 <= k < |g.adj[x]|
      ensures g.adj[x][k] < g.NodeCount()
    {
      NeighbourIsEndpoint(g.edges, x, g.adj[x][k]);
    }
  }

  /** Adjacency in a valid graph is symmetric: `y` is in `x`'s list exactly
      when `x` is in `y`'s. */
  lemma AdjacencySymmetric(g: Graph, x: nat, y: nat)
    requires g.Valid() && x < g.NodeCount() && y < g.NodeCount()
    ensures y in g.adj[x] <==> x in g.adj[y]
  {
    NeighbourIffJoined(g.edges, x, y);
    NeighbourIffJoined(g.edges, y, x);
    assert forall i :: 0 <= i < |g.edges| ==> (Joins(g.edges[i], x, y) <==> Joins(g.edges[i], y, x));
  }

  /** `graph.add_node(())`: a fresh, isolated node whose index is the old
      node count. */
  function AddNode(g: Graph): (r: Graph)
    ensures r.NodeCount() == g.NodeCount() + 1 && r.edges == g.edges
    ensures forall x :: 0 <= x < g.NodeCount() ==> r.adj[x] == g.adj[x]
    ensures Degree(r, g.NodeCount()) == 0
  {
    Graph(g.adj + [[]], g.edges)
  }

  lemma AddNodeKeepsValid(g: Graph)
    requires g.Valid()
    ensures AddNode(g).Valid()
  {
    var r := AddNode(g);
    NoIncidentNeighbours(g.edges, g.NodeCount());
    forall x | 0 <= x < r.NodeCount() ensures r.adj[x] == IncidentNeighbours(r.edges, x) {
      if x < g.NodeCount() {
        assert r.adj[x] == g.adj[x];
      }
    }
  }

  /** `graph.add_edge(x, y, ())`: appends the edge and records it at both
      ends; a parallel edge raises both degrees again, a self-loop raises
      its node's degree once. */
  function AddEdge(g: Graph, x: nat, y: nat): (r: Graph)
    requires x < g.NodeCount() && y < g.NodeCount()
    ensures r.NodeCount() == g.NodeCount() && r.edges == g.edges + [Edge(x, y)]
    ensures r.adj[x] == g.adj[x] + [y] && (x != y ==> r.adj[y] == g.adj[y] + [x])
    ensures y in r.adj[x] && x in r.adj[y]
    ensures Degree(r, x) == Degree(g, x) + 1 && Degree(r, y) == Degree(g, y) + 1
    ensures forall z :: 0 <= z < g.NodeCount() && z != x && z != y ==> r.adj[z] == g.adj[z]
  {
    var adj := g.adj[x := g.adj[x] + [y]];
    if x == y then Graph(adj, g.edges + [Edge(x, y)])
    else Graph(adj[y := g.adj[y] + [x]], g.edges + [Edge(x, y)])
  }

  lemma AddEdgeKeepsValid(g: Graph, x: nat, y: nat)
    requires g.Valid() && x < g.NodeCount() && y < g.NodeCount()
    ensures AddEdge(g, x, y).Valid()
  {
    var r := AddEdge(g, x, y);
    forall z | 0 <= z < r.NodeCount()
      ensures r.adj[z] == IncidentNeighbours(r.edges, z)
    {
      IncidentAppend(g.edges, Edge(x, y), z);
    }
  }
}
