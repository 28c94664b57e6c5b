# Graph statistics over an edge list, in Dafny

This project models the core of a small Rust program that reads a social
network as an edge-list file and reports statistics about it.

- **Loading.** Each line holding exactly two whitespace-separated tokens is an
  undirected edge between two named nodes. Every new name gets the next dense
  node index. Any other line is skipped.
- **Degree distribution.** This maps each degree to the number of nodes that
  have it. The printing helper lists the degrees in ascending order.
- **Degrees of separation.** A shortest-path search runs from every node with
  unit edge weights. The positive distances go into one sample, and the program
  reports the mean, the spread (through the population variance) and the median
  of that sample, each reported as 0 when the sample is empty.

There are two copies of the loader and the degree histogram. One is in
`main.rs` at the repository root and the other in `DS210Project2/src/main.rs`.
The two are the same code, so the same members model both, and the table cites
each file in turn.

## Modules

- `Text` (`text.dfy`) models `str::split_whitespace`. Whitespace is the Unicode
  `White_Space` property.
- `Graphs` (`graphs.dfy`) models the undirected graph as one neighbour list per
  node plus the list of edges in insertion order.
  - `AddNode` and `AddEdge` model the two graph calls that loading makes.
  - A parallel edge is kept and raises both degrees again.
- `Loading` (`loading.dfy`) models `load_edges`.
  - `Load` is the fold of one line step over the file.
  - `LoadEdges` is the loop itself, proved equal to that fold.
- `Degrees` (`degrees.dfy`) models `calculate_degree_distribution` as a loop
  proved against the histogram function. It also models the key collection and
  sort of `print_sorted_degrees`.
- `Sorting` (`sorting.dfy`) holds an in-place insertion sort on an array.
  - Its specification function is `SortedSeq`.
  - It is used both for the degree keys and for the median's `sort_by`.
- `Paths` (`paths.dfy`) defines walks, reachability and shortest distance.
  - `ShortestPaths` is a breadth-first search by levels.
  - It is proved to return exactly the reachable nodes, each with its
    shortest-walk length. That is what `dijkstra` with unit weights returns.
- `Separation` (`separation.dfy`) models the sample loop shared by the three
  statistics, the mean, the variance and the median. Each is a method proved
  equal to a specification function, and the properties of those functions are
  proved as lemmas.
- `SamplePairs` (`pairs.dfy`) characterises the sample in terms of pairs of
  nodes: which values occur, how often, and when it is empty.
- `Examples` (`examples.dfy`) proves the concrete scenarios of the program's
  unit tests.

Nothing checks that the two tokens of a line differ, so the line `x x` gives
one node with a self-loop (`Examples.SelfLoopX`).

## Model

| member | source | states |
|---|---|---|
| Text.Split | DS210Project2/src/main.rs:25 | every token produced is non-empty and contains no whitespace character |
| Text.SplitKeepsText | main.rs:24 | the tokens, concatenated, are exactly the line's non-whitespace characters in order: splitting drops the whitespace and nothing else |
| Text.SplitAtSeparator | DS210Project2/src/main.rs:25 | any whitespace character separates: the tokens of `a c b` are the tokens of `a` followed by those of `b` |
| Text.SplitWord | main.rs:24 | a single token with no whitespace splits into itself alone |
| Text.SplitTwoWords | DS210Project2/src/main.rs:25-26 | two tokens joined by one whitespace character split into exactly those two tokens, so the line passes the two-token test |
| Graphs.AddNode | DS210Project2/src/main.rs:27 | the new node's index is the old node count and its degree is 0; every other neighbour list and the edge list are unchanged |
| Graphs.AddNodeKeepsValid | main.rs:26 | adding a node keeps every neighbour list equal to what the edges incident to that node contribute |
| Graphs.AddEdge | DS210Project2/src/main.rs:29 | the edge is appended; `v` joins `u`'s list and `u` joins `v`'s (once for a self-loop); both endpoint degrees rise by one; all other lists are unchanged |
| Graphs.AddEdgeKeepsValid | main.rs:28 | adding an edge keeps the neighbour lists in agreement with the edge list |
| Graphs.NeighbourIffJoined | DS210Project2/src/main.rs:65 | `y` is among `x`'s neighbours if and only if some edge joins `x` and `y` |
| Graphs.NeighboursAreNodes | main.rs:64 | in a well-formed graph every neighbour is a node index |
| Graphs.AdjacencySymmetric | DS210Project2/src/main.rs:29 | the graph is undirected: `y` is in `x`'s list if and only if `x` is in `y`'s |
| Loading.Intern | DS210Project2/src/main.rs:27-28 | a known token returns its index and changes nothing; an unknown one gets index = old node count, adds exactly one node and extends the map by that entry only |
| Loading.NodeFor | main.rs:26-27 | the `entry(...).or_insert_with(add_node)` statement computes `Intern` on the map and the graph |
| Loading.InternKeepsConsistent | DS210Project2/src/main.rs:27 | interning keeps the map a bijection from the tokens seen onto the node indices, and keeps the graph well formed |
| Loading.Step | DS210Project2/src/main.rs:25-30 | a line without exactly two tokens leaves the state unchanged; otherwise the map gains exactly the two tokens and the edge list gains exactly one edge between their indices |
| Loading.ReadLine | main.rs:23-29 | one iteration of the read loop computes `Step` |
| Loading.StepKeepsConsistent | main.rs:25-28 | each line keeps the map a bijection onto the node indices and the graph well formed |
| Loading.Load | DS210Project2/src/main.rs:23-31 | every index stored in the map names a node of the graph |
| Loading.LoadConsistent | main.rs:17-32 | after any file the map is a bijection from the tokens onto `0 .. node_count - 1`, and the graph is well formed |
| Loading.LoadEdges | DS210Project2/src/main.rs:18-33 | the loop over the lines returns the graph of `Load`, the fold of `Step` over the file |
| Loading.LoadNodeCount | DS210Project2/src/main.rs:27-28 | the map's keys are exactly the tokens on well-formed lines, and the node count is the number of distinct such tokens |
| Loading.LoadEdgeCount | main.rs:28 | the edge count is the number of well-formed lines, repeated edges included |
| Loading.LoadEdgeList | DS210Project2/src/main.rs:29 | the i-th edge joins the indices of the two tokens of the i-th well-formed line, in that order |
| Loading.LoadOnlyGrows | main.rs:22-30 | reading more lines never changes an existing map entry; the edges of a prefix of the file are a prefix of the edges, and the node count never falls |
| Loading.MalformedLineIgnored | DS210Project2/src/main.rs:26 | inserting a line that does not have exactly two tokens anywhere in the file leaves the loaded graph and map unchanged |
| Loading.FreshTokenIndex | main.rs:26 | a line's first token, never seen before, gets the index equal to the number of distinct tokens read so far |
| Loading.FreshSecondTokenIndex | DS210Project2/src/main.rs:28 | a line's second token, never seen before and different from the first, gets the index equal to the number of distinct tokens read so far with the first token counted |
| Loading.TokensIffOnEdgeLine | DS210Project2/src/main.rs:25-28 | a token names a node if and only if it occurs on some line with exactly two tokens |
| Loading.EdgeLinesCount | main.rs:25 | each well-formed line is kept once per occurrence, and no other line is kept |
| Loading.TokensOrderIndependent | DS210Project2/src/main.rs:23 | the set of node names does not depend on the order of the lines |
| Loading.LoadCountsOrderIndependent | main.rs:22 | reordering the lines of a file changes neither the node count nor the edge count |
| Degrees.CalculateDegreeDistribution | DS210Project2/src/main.rs:62-69 | the loop over the nodes returns the histogram of the degrees of all nodes |
| Degrees.HistogramCounts | main.rs:63-65 | the count stored for degree `d` is the number of nodes of degree `d`, and `d` is a key if and only if some node has degree `d` |
| Degrees.HistogramTotal | DS210Project2/src/main.rs:66 | the counts add up to the number of nodes |
| Degrees.HistogramEmpty | main.rs:61-68 | the distribution is empty if and only if the graph has no nodes |
| Degrees.CollectKeys | DS210Project2/src/main.rs:72 | the collected vector holds every key of the distribution exactly once and nothing else |
| Degrees.SortedDegrees | DS210Project2/src/main.rs:71-79 | the degrees come out strictly ascending, are exactly the keys of the distribution, and there are as many of them as keys |
| Sorting.SortInPlace | DS210Project2/src/main.rs:73 | the array ends ascending and is a permutation of its old contents |
| Sorting.InsertAt | DS210Project2/src/stats.rs:79 | one insertion step extends the sorted prefix by one element, leaves the entries after it untouched and permutes the array |
| Sorting.Insert | DS210Project2/src/stats.rs:79 | inserting into an ascending sequence gives an ascending sequence with exactly one more copy of the element |
| Sorting.SortedSeq | DS210Project2/src/stats.rs:79 | the result is ascending and a permutation of the input |
| Sorting.SortedUnique | DS210Project2/src/stats.rs:79 | two ascending sequences with the same elements are equal, so the sorted order, and with it the median, is fully determined |
| Sorting.SortedHeadIsLeast | DS210Project2/src/stats.rs:81-87 | the first element of an ascending sequence is at most any of its elements |
| Sorting.SortedOnceEachIsStrict | DS210Project2/src/main.rs:72-73 | an ascending sequence without repeated elements is strictly increasing |
| Paths.ValidIsClosed | DS210Project2/src/stats.rs:11 | in a well-formed graph every neighbour is a node, which is all the search needs |
| Paths.BallIffWalk | DS210Project2/src/stats.rs:11 | a node lies within `k` steps of the start if and only if some walk of at most `k` steps reaches it |
| Paths.LayerIsShortest | DS210Project2/src/stats.rs:11 | a node first reached at step `k` has shortest distance `k` |
| Paths.ShortestUnique | DS210Project2/src/stats.rs:33 | the shortest distance between two nodes is unique |
| Paths.FirstBall | DS210Project2/src/stats.rs:11 | a reachable node lies in exactly one layer, the first one that contains it |
| Paths.DistanceIsShortest | DS210Project2/src/stats.rs:65 | `Distance` is the length of a shortest walk between the two nodes |
| Paths.DistanceZeroIffSource | DS210Project2/src/stats.rs:14 | the distance is 0 exactly for the start node, so `distance > 0` drops the start and nothing else |
| Paths.ReverseWalk | DS210Project2/src/stats.rs:11 | in an undirected graph a walk reversed is again a walk |
| Paths.ShortestSymmetric | DS210Project2/src/stats.rs:33 | a shortest distance from `s` to `t` is also one from `t` to `s` |
| Paths.ReachableSymmetric | DS210Project2/src/stats.rs:65 | reachability is symmetric |
| Paths.DistanceSymmetric | DS210Project2/src/stats.rs:11 | `Distance(s, t) == Distance(t, s)` |
| Paths.BallStep | DS210Project2/src/stats.rs:33 | the nodes within `k + 1` steps are those within `k` plus the neighbours of the nodes exactly `k` steps out, so a search only needs to expand its frontier |
| Paths.StableBallIsReachable | DS210Project2/src/stats.rs:65 | once a level adds no new node, the nodes found so far are exactly the reachable ones |
| Paths.LevelStep | DS210Project2/src/stats.rs:11 | expanding the frontier yields exactly the next ball, with every new node at the next level |
| Paths.NextLevel | DS210Project2/src/stats.rs:33 | one level of the search: found nodes become the next ball, the new frontier is the next layer, and distances stay layer numbers |
| Paths.SearchDone | DS210Project2/src/stats.rs:65 | when a layer is empty, the nodes found are exactly the reachable ones |
| Paths.LayersAreShortest | DS210Project2/src/stats.rs:11 | every layer number recorded by the search is a shortest distance |
| Paths.ShortestPaths | DS210Project2/src/stats.rs:11 | the search returns exactly the nodes reachable from the start, each mapped to its shortest-walk length |
| Separation.SearchResult | DS210Project2/src/stats.rs:33 | any map holding exactly the reachable nodes with their shortest distances equals `DistancesFrom`, so the search's result is determined |
| Separation.SampleStep | DS210Project2/src/stats.rs:34-38 | one search appends the positive distances from that node, in ascending order of target, to the sample |
| Separation.KeepPositive | DS210Project2/src/stats.rs:66-70 | the inner loop appends exactly the positive distances to the vector |
| Separation.SearchFrom | DS210Project2/src/stats.rs:65-70 | one outer iteration extends the sample collected from the earlier start nodes by this node's row |
| Separation.CollectSample | DS210Project2/src/stats.rs:29-39 | the collected vector is the separation sample of the graph |
| Separation.AddPositive | DS210Project2/src/stats.rs:13-18 | the inner loop adds the sum of the positive distances to the total and their number to the pair count |
| Separation.TotalFrom | DS210Project2/src/stats.rs:9-12 | after each outer iteration the total and pair count are the sum and length of the sample so far |
| Separation.AddRow | DS210Project2/src/stats.rs:15-16 | the sample's sum and length grow by those of one search's positive distances |
| Separation.MeanSeparation | DS210Project2/src/stats.rs:5-26 | the result is the mean of the separation sample (its sum over its length, 0 when empty) |
| Separation.VarianceSeparation | DS210Project2/src/stats.rs:28-54 | the result is the population variance of the separation sample, 0 when empty |
| Separation.MedianSeparation | DS210Project2/src/stats.rs:60-89 | the result is the median of the separation sample, 0 when empty |
| Separation.SortedMiddle | DS210Project2/src/stats.rs:78-88 | sorting a non-empty sample and reading the middle element (or averaging the two middle ones) gives its median |
| Separation.SortedMedian | DS210Project2/src/stats.rs:81-88 | the middle of any ascending arrangement of the sample is the sample's median |
| Separation.SumAppend | DS210Project2/src/stats.rs:15 | the sum of two concatenated samples is the sum of their sums |
| Separation.SumPermutation | DS210Project2/src/stats.rs:13 | the sum does not depend on the order in which distances are visited |
| Separation.MeanPermutation | DS210Project2/src/stats.rs:13 | the mean depends only on the multiset of distances, not on the map's iteration order |
| Separation.MedianPermutation | DS210Project2/src/stats.rs:66 | the median depends only on the multiset of distances |
| Separation.SquaredDeviationsPermutation | DS210Project2/src/stats.rs:52-53 | the sum of squared deviations does not depend on order |
| Separation.VariancePermutation | DS210Project2/src/stats.rs:34 | the variance depends only on the multiset of distances |
| Separation.SumBounds | DS210Project2/src/stats.rs:47 | if every entry lies in `[lo, hi]`, the sum lies in `[lo * n, hi * n]` |
| Separation.MeanBounds | DS210Project2/src/stats.rs:25 | the mean of a non-empty sample lies between any lower and upper bound of its entries |
| Separation.MedianBounds | DS210Project2/src/stats.rs:81-88 | the median of a non-empty sample lies between any lower and upper bound of its entries |
| Separation.SquaredDeviationsNonNegative | DS210Project2/src/stats.rs:52 | a sum of squared deviations is never negative |
| Separation.VarianceNonNegative | DS210Project2/src/stats.rs:50-54 | the variance is never negative, so its square root exists |
| Separation.VarianceZeroIffConstant | DS210Project2/src/stats.rs:47-54 | the variance is 0 if and only if all entries of the sample are equal |
| Separation.VariancePositive | DS210Project2/src/stats.rs:50-54 | a sample with two different entries has positive variance |
| Separation.VarianceZeroAtMean | DS210Project2/src/stats.rs:47-50 | for a non-empty sample the variance is 0 exactly when the squared deviations from the mean sum to 0 |
| Separation.MeanOfConstant | DS210Project2/src/stats.rs:25 | the mean of a sample whose entries are all equal is that entry |
| SamplePairs.PositiveCount | DS210Project2/src/stats.rs:13-14 | a positive value `d` occurs in one search's row once for each target at distance `d` |
| SamplePairs.PositiveAboveZero | DS210Project2/src/stats.rs:14 | every entry kept from one search is at least 1 |
| SamplePairs.SampleCount | DS210Project2/src/stats.rs:9-18 | a positive value `d` occurs in the sample once for each ordered pair of nodes at distance `d` |
| SamplePairs.PairsAtMembers | DS210Project2/src/stats.rs:32-39 | the pairs counted for `d > 0` are exactly the ordered pairs of different nodes, the second reachable from the first, at distance `d` |
| SamplePairs.SamplePositive | DS210Project2/src/stats.rs:35 | every entry of the sample is at least 1 |
| SamplePairs.SampleMembers | DS210Project2/src/stats.rs:64-70 | `x` occurs in the sample if and only if two different nodes are at distance `x` |
| SamplePairs.SwapClosedHalves | DS210Project2/src/stats.rs:64 | a set of pairs closed under swapping has twice as many elements as its pairs with the smaller node first |
| SamplePairs.PairsAtSwapClosed | DS210Project2/src/stats.rs:65 | in an undirected graph the pairs at a positive distance are closed under swapping |
| SamplePairs.SampleCountsTwice | DS210Project2/src/stats.rs:32-39 | each unordered pair of nodes at distance `d` contributes exactly two entries `d` to the sample |
| SamplePairs.SampleEmptyIffNoLinks | DS210Project2/src/stats.rs:42-44 | the sample is empty if and only if no node has a neighbour other than itself |
| SamplePairs.NoLinksStatistics | DS210Project2/src/stats.rs:21-23 | in a graph without such links the mean, the variance and the median are all 0 |
| Examples.ChainFile | DS210Project2/src/main.rs:134-141 | a file of three lines chaining four different tokens loads as 4 nodes and 3 edges |
| Examples.ThreeLineFile | DS210Project2/src/main.rs:134-141 | the file `1 2`, `2 3`, `3 4` loads as 4 nodes and 3 edges |
| Examples.SelfLoopLine | main.rs:25-28 | a line repeating one token gives one node and one self-loop edge |
| Examples.SelfLoopX | DS210Project2/src/main.rs:26-29 | the line `x x` gives one node with a self-loop |
| Examples.TriangleBuilt | DS210Project2/src/main.rs:150-156 | three `add_node` and three `add_edge` calls build the triangle |
| Examples.TriangleDistribution | DS210Project2/src/main.rs:158-161 | the triangle's degree distribution is `{2: 3}` |
| Examples.TriangleDegreeDistribution | DS210Project2/src/main.rs:158-161 | the distribution loop on the triangle returns `{2: 3}` |
| Examples.NeighbourDistance | DS210Project2/src/stats.rs:11 | a neighbour other than the start is reachable at distance 1 |
| Examples.TriangleSample | DS210Project2/src/main.rs:167-175 | the triangle's sample is non-empty and every entry is 1 |
| Examples.TriangleMean | DS210Project2/src/main.rs:175-178 | the mean separation of the triangle is 1.0 |
| Examples.TriangleMeanSeparation | DS210Project2/src/main.rs:175-178 | the mean loop on the triangle returns 1.0 |
| Examples.Path4Built | DS210Project2/src/main.rs:184-191 | four `add_node` and three `add_edge` calls build the path 0-1-2-3 |
| Examples.Path4Distance | DS210Project2/src/main.rs:189-191 | on the path, the distance between nodes `s` and `t` is the gap between their indices |
| Examples.Path4Sample | DS210Project2/src/main.rs:202-211 | the path's sample is `[1, 2, 3, 1, 1, 2, 2, 1, 1, 3, 2, 1]`, twelve entries |
| Examples.Path4Median | DS210Project2/src/main.rs:211-214 | the median separation of the path is 1.5 |
| Examples.Path4MedianSeparation | DS210Project2/src/main.rs:211-214 | the median method on the path returns 1.5 |
| Examples.Path4VariancePositive | DS210Project2/src/main.rs:193-196 | the variance of the path's sample is positive, so its standard deviation is positive |
| Examples.Path4VarianceSeparation | DS210Project2/src/main.rs:193-196 | the variance method on the path returns a positive value |
| Examples.Path3Built | DS210Project2/src/main.rs:220-225 | three `add_node` and two `add_edge` calls build the path 0-1-2 |
| Examples.Path3Distribution | DS210Project2/src/main.rs:227 | the path's degree distribution is `{1: 2, 2: 1}` |
| Examples.Path3SortedDegrees | DS210Project2/src/main.rs:227-230 | the path's degrees, sorted, are `[1, 2]` |

## Left out

- Reading files is not modelled: `File::open`, `BufReader::lines` and the
  panics of `expect`. The file arrives as a sequence of lines.
- `read_file`, `count_lines`, `analyze_files` and both `main` functions are left
  out. They are directory walking, line counting and console output.
- Printing is left out: the `println!` calls of `print_sorted_degrees` and
  `main`. Only the sorted key order is modelled.
- `plot_degree_distribution` is left out. It draws a chart through a plotting
  library.
- The petgraph `Graph` type is not modelled. It is replaced by the `Graphs`
  value type.
- Self-loops follow a rule of this model. An edge `(u, u)` puts `u` once into
  `u`'s neighbour list and raises its degree by one. This is not claimed to
  match petgraph's neighbour iteration for self-loops.
- The node type is not modelled. Nodes are plain indices, and the unit node
  and edge weights are dropped.
- Paths.ShortestPaths: petgraph's `dijkstra` with unit costs is replaced by a
  breadth-first search. The result is proved to hold the same nodes and the
  same shortest distances. Dijkstra's priority queue is not modelled.
- HashMap iteration order is not modelled.
  - `distances.values()` is modelled as ascending order of target node index.
  - The mean, the variance and the median are proved to depend only on the
    multiset of distances, so the order cannot change the results.
  - The order in which `keys()` yields the degrees is left open, and the sorted
    result is proved not to depend on it.
- Separation.VarianceSeparation: returns the population variance and not its
  square root. The standard deviation is the square root of this value, and
  square roots are not modelled.
- Floating point is not modelled. The statistics are exact reals, so `f64`
  rounding of the sum and the quotient is not captured, and neither is the
  conversion `distance as f64`.
- Separation.MeanSeparation: does not model the 32-bit overflow of the pair
  counter, because counters are unbounded naturals.
  - `pair_count` (`DS210Project2/src/stats.rs:7`) is an `i32` by integer-literal
    fallback. It overflows once one connected component has 46,342 nodes or
    more (n(n - 1) > 2^31 - 1).
  - A debug build then panics and a release build wraps.
- Integer widths are not modelled elsewhere either.
  - The distances from `dijkstra(.., |_| 1)` (`DS210Project2/src/stats.rs:11`)
    are `i32`.
  - petgraph's node indices are `u32`.
  - The degree counts are `usize`.
  - All of these are unbounded naturals in the model.
- The comparator `partial_cmp(...).unwrap()` cannot fail on these values. The
  median sorts natural numbers, which are all comparable.
- Separation.MeanSeparation: requires `Closed(g)` (every neighbour is a node).
  Every well-formed graph meets it (`Paths.ValidIsClosed`), and so does every
  loaded graph (`Loading.LoadConsistent`).
- Separation.VarianceSeparation: requires `Closed(g)`, for the same reason as
  `MeanSeparation`.
- Separation.MedianSeparation: requires `Closed(g)`, for the same reason as
  `MeanSeparation`.
- Whitespace is a fixed predicate over the characters with the Unicode
  `White_Space` property. Strings are sequences of characters; UTF-8 decoding
  and invalid input are not modelled.
