/**
  `load_edges`: builds the graph from the lines of an edge-list file. A
  line counts only when it splits into exactly two tokens; each token not
  seen before gets the next dense index (the node count at that moment),
  and the line adds one undirected edge between the two indices. Nothing
  checks that the two tokens differ, so `x x` adds a self-loop, and a line
  repeated adds a parallel edge.

  `Load` is the specification: the per-line step folded over the lines.
  `LoadEdges` is the loop itself, proved to compute `Load`.
 */
module Loading {
  import opened Text
  import opened Graphs

  /** The state `load_edges` carries from line to line: the graph so far and
      the map from token to node index. */
  datatype Loader = Loader(graph: Graph, nodeMap: map<string, nat>)

  const Start := Loader(EmptyGraph, map[])

  /** Every index in the map names a node. */
  ghost predicate InRange(st: Loader) {
    forall k :: k in st.nodeMap ==> st.nodeMap[k] < st.graph.NodeCount()
  }

  /** The graph is valid and the map is a bijection from the tokens seen
      onto the node indices `0 .. NodeCount() - 1`. */
  ghost predicate Consistent(st: Loader) {
    && st.graph.Valid()
    && InRange(st)
    && |st.nodeMap| == st.graph.NodeCount()
    && (forall i :: 0 <= i < st.graph.NodeCount() ==> i in st.nodeMap.Values)
    && (forall a, b :: a in st.nodeMap && b in st.nodeMap && a != b ==> st.nodeMap[a] != st.nodeMap[b])
  }

  /** Every entry of `m0` is in `m1` with the same value. */
  ghost predicate Extends(m0: map<string, nat>, m1: map<string, nat>) {
    forall k :: k in m0 ==> k in m1 && m1[k] == m0[k]
  }

  /** A line that yields an edge: exactly two whitespace-separated tokens. */
  predicate IsEdgeLine(line: string) {
    |Split(line)| == 2
  }

  /** `*node_map.entry(token).or_insert_with(|| graph.add_node(()))`: a known
      token keeps its index and changes nothing; an unknown one gets a new
      node whose index is the node count before it. */
  function Intern(st: Loader, token: string): (r: (Loader, nat))
    requires InRange(st)
    ensures InRange(r.0) && r.1 < r.0.graph.NodeCount()
    ensures token in r.0.nodeMap && r.0.nodeMap[token] == r.1
    ensures Extends(st.nodeMap, r.0.nodeMap) && r.0.nodeMap.Keys == st.nodeMap.Keys + {token}
    ensures r.0.graph.edges == st.graph.edges
    ensures token in st.nodeMap ==> r.0 == st
    ensures token !in st.nodeMap ==> r.1 == st.graph.NodeCount() && r.0.graph.NodeCount() == r.1 + 1
  {
    if token in st.nodeMap then
      (st, st.nodeMap[token])
    else
      var x := st.graph.NodeCount();
      (Loader(AddNode(st.graph), st.nodeMap[token := x]), x)
  }

  lemma InternKeepsConsistent(st: Loader, token: string)
    requires Consistent(st)
    ensures Consistent(Intern(st, token).0)
  {
    if token !in st.nodeMap {
      var x := st.graph.NodeCount();
      var m := st.nodeMap[token := x];
      AddNodeKeepsValid(st.graph);
      forall v | 0 <= v < x + 1 ensures v in m.Values {
        if v < x {
          assert v in st.nodeMap.Values;
          var k :| k in st.nodeMap && st.nodeMap[k] == v;
          assert m[k] == v;
        } else {
          assert m[token] == v;
        }
      }
    }
  }

  /** The body of the loop in `load_edges`, for one line. */
  function Step(st: Loader, line: string): (r: Loader)
    requires InRange(st)
    ensures InRange(r) && Extends(st.nodeMap, r.nodeMap)
    ensures !IsEdgeLine(line) ==> r == st
    ensures IsEdgeLine(line) ==>
              var tokens := Split(line);
              && r.nodeMap.Keys == st.nodeMap.Keys + {tokens[0], tokens[1]}
              && r.graph.edges == st.graph.edges + [Edge(r.nodeMap[tokens[0]], r.nodeMap[tokens[1]])]
  {
    var tokens := Split(line);
    if |tokens| == 2 then
      var (st1, x) := Intern(st, tokens[0]);
      var (st2, y) := Intern(st1, tokens[1]);
      Loader(AddEdge(st2.graph, x, y), st2.nodeMap)
    else
      st
  }

  lemma StepKeepsConsistent(st: Loader, line: string)
    requires Consistent(st)
    ensures Consistent(Step(st, line))
  {
    var tokens := Split(line);
    if |tokens| == 2 {
      InternKeepsConsistent(st, tokens[0]);
      var (st1, x) := Intern(st, tokens[0]);
      InternKeepsConsistent(st1, tokens[1]);
      var (st2, y) := Intern(st1, tokens[1]);
      AddEdgeKeepsValid(st2.graph, x, y);
    }
  }

  /** The state after the loop of `load_edges` has read every line. */
  function Load(lines: seq<string>): (r: Loader)
    ensures InRange(r)
  {
    if lines == [] then Start
    else Step(Load(lines[..|lines| - 1]), lines[|lines| - 1])
  }

  /** After any number of lines the map is a bijection onto the nodes and
      the graph is valid. */
  lemma {:induction false} LoadConsistent(lines: seq<string>)
    ensures Consistent(Load(lines))
  {
    if lines != [] {
      LoadConsistent(lines[..|lines| - 1]);
      StepKeepsConsistent(Load(lines[..|lines| - 1]), lines[|lines| - 1]);
    }
  }

  /** `load_edges`, with the file already read into `lines`. */
  method LoadEdges(lines: seq<string>) returns (graph: Graph)
    ensures graph == Load(lines).graph
  {
    graph := EmptyGraph;
    var nodeMap: map<string, nat> := map[];
    var i := 0;
    assert lines[..0] == [];
    while i < |lines|
      invariant i <= |lines| && Loader(graph, nodeMap) == Load(lines[..i])
    {
      assert lines[..i + 1][..i] == lines[..i];
      graph, nodeMap := ReadLine(graph, nodeMap, lines[i]);
      i := i + 1;
    }
    assert lines[..|lines|] == lines;
  }

  /** One pass of the loop in `load_edges`: the line's two tokens are
      looked up or given new nodes, and the edge between them is added. */
  method ReadLine(graph0: Graph, nodeMap0: map<string, nat>, line: string)
    returns (graph: Graph, nodeMap: map<string, nat>)
    requires InRange(Loader(graph0, nodeMap0))
    ensures Loader(graph, nodeMap) == Step(Loader(graph0, nodeMap0), line)
  {
    graph, nodeMap := graph0, nodeMap0;
    var nodes := Split(line);
    if |nodes| == 2 {
      var u, v;
      graph, nodeMap, u := NodeFor(graph, nodeMap, nodes[0]);
      graph, nodeMap, v := NodeFor(graph, nodeMap, nodes[1]);
      graph := AddEdge(graph, u, v);
    }
  }

  /** `*node_map.entry(token).or_insert_with(|| graph.add_node(()))`. */
  method NodeFor(graph0: Graph, nodeMap0: map<string, nat>, token: string)
    returns (graph: Graph, nodeMap: map<string, nat>, x: nat)
    requires InRange(Loader(graph0, nodeMap0))
    ensures (Loader(graph, nodeMap), x) == Intern(Loader(graph0, nodeMap0), token)
  {
    if token in nodeMap0 {
      graph, nodeMap, x := graph0, nodeMap0, nodeMap0[token];
    } else {
      x := graph0.NodeCount();
      graph := AddNode(graph0);
      nodeMap := nodeMap0[token := x];
    }
  }

  /** The tokens of the lines that yield an edge. */
  ghost function Tokens(lines: seq<string>): set<string> {
    if lines == [] then {}
    else
      var line := lines[|lines| - 1];
      Tokens(lines[..|lines| - 1]) + (if IsEdgeLine(line) then {Split(line)[0], Split(line)[1]} else {})
  }

  /** The lines that yield an edge, in file order. */
  function EdgeLines(lines: seq<string>): seq<string> {
    if lines == [] then []
    else
      var line := lines[|lines| - 1];
      EdgeLines(lines[..|lines| - 1]) + (if IsEdgeLine(line) then [line] else [])
  }

  /** The map's keys are exactly the tokens of the edge lines, so the node
      count is the number of distinct such tokens. */
  lemma {:induction false} LoadNodeCount(lines: seq<string>)
    ensures Load(lines).nodeMap.Keys == Tokens(lines)
    ensures Load(lines).graph.NodeCount() == |Tokens(lines)|
  {
    if lines != [] {
      LoadNodeCount(lines[..|lines| - 1]);
    }
  }

  /** One edge per well-formed line. */
  lemma {:induction false} LoadEdgeCount(lines: seq<string>)
    ensures Load(lines).graph.EdgeCount() == |EdgeLines(lines)|
  {
    if lines != [] {
      LoadEdgeCount(lines[..|lines| - 1]);
    }
  }

  /** The i-th edge joins the indices of the two tokens of the i-th edge
      line: one edge per edge line, in order, duplicates kept. */
  lemma {:induction false} LoadEdgeList(lines: seq<string>)
    ensures var st := Load(lines);
            var el := EdgeLines(lines);
            && |st.graph.edges| == |el|
            && forall i :: 0 <= i < |el| ==>
                 && IsEdgeLine(el[i])
                 && Split(el[i])[0] in st.nodeMap && Split(el[i])[1] in st.nodeMap
                 && st.graph.edges[i] == Edge(st.nodeMap[Split(el[i])[0]], st.nodeMap[Split(el[i])[1]])
  {
    if lines != [] {
      var init := lines[..|lines| - 1];
      var line := lines[|lines| - 1];
      LoadEdgeList(init);
      var st0, el0 := Load(init), EdgeLines(init);
      var st, el := Load(lines), EdgeLines(lines);
      assert st == Step(st0, line);
      assert el == el0 + (if IsEdgeLine(line) then [line] else []);
      assert |st.graph.edges| == |el|;
      forall i | 0 <= i < |el|
        ensures && IsEdgeLine(el[i])
                && Split(el[i])[0] in st.nodeMap && Split(el[i])[1] in st.nodeMap
                && st.graph.edges[i] == Edge(st.nodeMap[Split(el[i])[0]], st.nodeMap[Split(el[i])[1]])
      {
        if i < |el0| {
          assert el[i] == el0[i];
          assert st.graph.edges[i] == st0.graph.edges[i];
        }
      }
    }
  }

  /** The map only grows: an entry made after `k` lines is still there,
      unchanged, at the end, and the edges of the first `k` lines are the
      first edges of the graph. */
  lemma {:induction false} LoadOnlyGrows(lines: seq<string>, k: nat)
    requires k <= |lines|
    ensures Extends(Load(lines[..k]).nodeMap, Load(lines).nodeMap)
    ensures Load(lines[..k]).graph.edges <= Load(lines).graph.edges
    ensures Load(lines[..k]).graph.NodeCount() <= Load(lines).graph.NodeCount()
    decreases |lines| - k
  {
    if k == |lines| {
      assert lines[..k] == lines;
    } else {
      var init := lines[..|lines| - 1];
      assert init[..k] == lines[..k];
      LoadOnlyGrows(init, k);
      LoadNodeCount(init);
      LoadNodeCount(lines);
      assert Tokens(init) <= Tokens(lines);
    }
  }

  /** A line that does not split into exactly two tokens, wherever it
      stands, adds no node and no edge and changes no index. */
  lemma {:induction false} MalformedLineIgnored(before: seq<string>, bad: string, after: seq<string>)
    requires !IsEdgeLine(bad)
    ensures Load(before + [bad] + after) == Load(before + after)
    decreases |after|
  {
    if after == [] {
      assert before + [bad] + after == before + [bad];
      assert before + after == before;
      LoadLast(before, bad);
    } else {
      var init, last := after[..|after| - 1], after[|after| - 1];
      MalformedLineIgnored(before, bad, init);
      assert before + [bad] + after == (before + [bad] + init) + [last];
      assert before + after == (before + init) + [last];
      LoadLast(before + [bad] + init, last);
      LoadLast(before + init, last);
    }
  }

  /** Loading one more line is one more step. */
  lemma LoadLast(lines: seq<string>, line: string)
    ensures Load(lines + [line]) == Step(Load(lines), line)
  {
    assert (lines + [line])[..|lines|] == lines;
  }

  /** A token not seen on any earlier edge line gets, as its index, the
      number of distinct tokens seen so far. */
  lemma FreshTokenIndex(lines: seq<string>, line: string)
    requires IsEdgeLine(line) && Split(line)[0] !in Tokens(lines)
    ensures Load(lines + [line]).nodeMap[Split(line)[0]] == |Tokens(lines)|
  {
    assert (lines + [line])[..|lines|] == lines;
    LoadNodeCount(lines);
  }

  /** The second token of an edge line, when it is new and differs from the
      first, gets the index after the one the first token holds: the number
      of distinct tokens seen so far, the first token included. */
  lemma FreshSecondTokenIndex(lines: seq<string>, line: string)
    requires IsEdgeLine(line) && Split(line)[1] !in Tokens(lines) + {Split(line)[0]}
    ensures Load(lines + [line]).nodeMap[Split(line)[1]] == |Tokens(lines) + {Split(line)[0]}|
  {
    assert (lines + [line])[..|lines|] == lines;
    LoadNodeCount(lines);
    LoadConsistent(lines);
    var st1 := Intern(Load(lines), Split(line)[0]).0;
    InternKeepsConsistent(Load(lines), Split(line)[0]);
    assert st1.nodeMap.Keys == Tokens(lines) + {Split(line)[0]};
  }

  lemma {:induction false} TokensIffOnEdgeLine(lines: seq<string>, token: string)
    ensures token in Tokens(lines) <==> exists i :: 0 <= i < |lines| && IsEdgeLine(lines[i]) && token in Split(lines[i])
  {
    if lines != [] {
      var init := lines[..|lines| - 1];
      TokensIffOnEdgeLine(init, token);
      if exists i :: 0 <= i < |lines| && IsEdgeLine(lines[i]) && token in Split(lines[i]) {
        var i :| 0 <= i < |lines| && IsEdgeLine(lines[i]) && token in Split(lines[i]);
        if i < |init| {
          assert init[i] == lines[i];
        } else {
          var tokens := Split(lines[i]);
          assert token == tokens[0] || token == tokens[1];
        }
      }
      if token in Tokens(lines) && token !in Tokens(init) {
        assert IsEdgeLine(lines[|lines| - 1]) && token in Split(lines[|lines| - 1]);
      }
    }
  }

  lemma {:induction false} EdgeLinesCount(lines: seq<string>, line: string)
    ensures multiset(EdgeLines(lines))[line] == if IsEdgeLine(line) then multiset(lines)[line] else 0
  {
    if lines != [] {
      var init := lines[..|lines| - 1];
      EdgeLinesCount(init, line);
      assert lines == init + [lines[|lines| - 1]];
    }
  }

  lemma TokensOrderIndependent(a: seq<string>, b: seq<string>)
    requires multiset(a) == multiset(b)
    ensures Tokens(a) == Tokens(b)
  {
    forall t ensures t in Tokens(a) ==> t in Tokens(b) {
      TokensIffOnEdgeLine(a, t);
      TokensIffOnEdgeLine(b, t);
      if t in Tokens(a) {
        var i :| 0 <= i < |a| && IsEdgeLine(a[i]) && t in Split(a[i]);
        assert a[i] in multiset(b);
        var j :| 0 <= j < |b| && b[j] == a[i];
      }
    }
    forall t ensures t in Tokens(b) ==> t in Tokens(a) {
      TokensIffOnEdgeLine(a, t);
      TokensIffOnEdgeLine(b, t);
      if t in Tokens(b) {
        var j :| 0 <= j < |b| && IsEdgeLine(b[j]) && t in Split(b[j]);
        assert b[j] in multiset(a);
        var i :| 0 <= i < |a| && a[i] == b[j];
      }
    }
  }

  lemma EdgeLinesOrderIndependent(a: seq<string>, b: seq<string>)
    requires multiset(a) == multiset(b)
    ensures |EdgeLines(a)| == |EdgeLines(b)|
  {
    forall line ensures multiset(EdgeLines(a))[line] == multiset(EdgeLines(b))[line] {
      EdgeLinesCount(a, line);
      EdgeLinesCount(b, line);
    }
    assert multiset(EdgeLines(a)) == multiset(EdgeLines(b));
    assert |EdgeLines(a)| == |multiset(EdgeLines(a))|;
  }

  /** Reordering the lines changes which index a token gets, but not the
      number of nodes or of edges. */
  lemma LoadCountsOrderIndependent(a: seq<string>, b: seq<string>)
    requires multiset(a) == multiset(b)
    ensures Load(a).graph.NodeCount() == Load(b).graph.NodeCount()
    ensures Load(a).graph.EdgeCount() == Load(b).graph.EdgeCount()
  {
    LoadNodeCount(a);
    LoadNodeCount(b);
    TokensOrderIndependent(a, b);
    LoadEdgeList(a);
    LoadEdgeList(b);
    EdgeLinesOrderIndependent(a, b);
  }
}
