# Graph metrics engine, modelled in Dafny

This project models the metrics engine of a small Rust graph-analysis tool,
`src/graph_analysis.rs`. The engine works on an undirected graph whose nodes
are the indices `0 .. n`. Each node carries an integer payload (its external
id) and a neighbour list. The loader never removes duplicate edges, so a
neighbour may appear in a list several times, and both lists of an edge show
it equally often. The engine computes six metrics:

- hop distances by breadth-first search, from one source at a time;
- the sampled average shortest-path length;
- the degree histogram and the two-hop histogram;
- the densest subgraph found by greedy peeling;
- closeness centrality;
- betweenness centrality by Brandes' algorithm.

Every metric is a Dafny method. Each method is proved against a declarative
definition:

- the shortest hop distance is the least length of a walk along neighbour
  lists;
- a histogram is the multiset of the observed values;
- the edges inside a node set are counted over node pairs;
- the number of shortest paths and Brandes' dependency are defined by
  recursion over the levels of the shortest-path DAG. The path count is
  proved equal to the number of walks whose length is the hop distance, as
  counted by powers of the adjacency matrix.

Floating-point ratios are modelled as exact `real`s. Hash maps keyed by
payload are modelled as Dafny `map`s.

Files and modules:

- `graphs.dfy` (`Graphs`): the graph, its well-formedness (`Valid`), and
  re-keying of per-node scores by payload.
- `distances.dfy` (`Distances`): walks, `HopDistance`, the shared BFS loop and
  its invariant `BfsState`, and sums over a distance table.
- `average_path.dfy` (`AveragePath`): `average_shortest_path`.
- `distributions.dfy` (`Distributions`): `degree_distribution` and
  `two_hop_distribution`.
- `peeling.dfy` (`Peeling`): `SubgraphResult` and `densest_subgraph_peel`.
- `closeness.dfy` (`Closeness`): `closeness_centrality`.
- `betweenness.dfy` (`Betweenness`): `betweenness_centrality`.
- `path_graphs.dfy` (`PathGraphs`): the path graph `0 - 1 - ... - (n-1)`, its
  exact distances, closeness and betweenness for every `n`, and the values of
  the repository's path tests.
- `complete_graphs.dfy` (`CompleteGraphs`): the complete graph on `n` nodes,
  its closeness and betweenness, the triangle tests, and the peeling of a
  clique.

## Model

| member | source | states |
|---|---|---|
| Graphs.KeyByPayload | src/graph_analysis.rs:186 | The payload-keyed result has exactly one key per node payload, and the key of node `u` holds `u`'s score. Payloads are distinct, so no insertion overwrites another. |
| Distances.HopDistanceIsShortest | src/graph_analysis.rs:26-41 | The reference distance is a walk length that no shorter walk achieves. It is `Unreached` exactly when no walk exists. |
| Distances.ZeroHopsIsSource | src/graph_analysis.rs:28 | Distance 0 belongs to the source and to no other node. |
| Distances.NeighbourAtOneHop | src/graph_analysis.rs:34-38 | Every neighbour of the source is exactly one hop away. |
| Distances.LevelPredecessor | src/graph_analysis.rs:32-40 | A node `d > 0` hops away is listed by some neighbour that is `d - 1` hops away. This is the last hop of a shortest walk. |
| Distances.IsolatedReachesOnlyItself | src/graph_analysis.rs:32-40 | A node without neighbours reaches only itself. |
| Distances.BfsStep | src/graph_analysis.rs:34-40 | Scanning one neighbour: if it is unreached, it gets `du + 1` and is appended to the queue. Otherwise nothing changes. The BFS invariant is kept. |
| Distances.BfsScan | src/graph_analysis.rs:32-40 | Scanning the whole neighbour list of the popped node keeps the BFS invariant. |
| Distances.Bfs | src/graph_analysis.rs:26-41 | The table equals the shortest hop distances. The source gets 0 and unreachable nodes keep the sentinel. Each node is pushed at most once, exactly the reached nodes are pushed, and they are pushed in non-decreasing distance. |
| Distances.ReachedSumBounds | src/graph_analysis.rs:44-49 | Each counted distance is at least 1. So the summed distance is at least the pair count, and it is 0 exactly when no pair is counted. |
| Distances.ReachedCountIsSize | src/graph_analysis.rs:44-49 | The pair count is the number of nodes with a finite, positive distance. |
| Distances.SumReached | src/graph_analysis.rs:44-49 | One pass over the table sums and counts the entries with `0 < d < MAX`, and only those. |
| AveragePath.SampleSize | src/graph_analysis.rs:20 | The number of sources is `min(5, n)`. |
| AveragePath.SampledSumBounds | src/graph_analysis.rs:25-50 | Over the sampled sources, the summed distance is at least the number of reachable pairs. |
| AveragePath.SourceTotals | src/graph_analysis.rs:26-49 | One source contributes the sum of its finite, positive distances and the number of nodes it reaches. |
| AveragePath.SampledTotals | src/graph_analysis.rs:22-50 | The totals run over the first `min(5, n)` nodes as sources, each counting exactly its reachable pairs. |
| AveragePath.Mean | src/graph_analysis.rs:52 | The quotient is undefined exactly when there is no pair. Otherwise it is `total / pairs`, and it is at least 1 when the total is at least the pair count. |
| AveragePath.AverageShortestPath | src/graph_analysis.rs:18-53 | The result is the summed distance over the reachable pairs of the sampled sources divided by the pair count. With no pair (NaN in the source) it is `None`, and otherwise it is at least 1. |
| Distributions.HistogramAdd | src/graph_analysis.rs:123 | Adding one observation to its bucket gives the histogram of the longer observation list. |
| Distributions.HistogramTotal | src/graph_analysis.rs:121-124 | Every observation lands in exactly one bucket, so the counts sum to the number of observations. |
| Distributions.DegreeDistribution | src/graph_analysis.rs:117-126 | A node's degree is the length of its neighbour list, parallel edges included. The result maps each occurring degree to the number of nodes with that degree and has no other keys. Its counts sum to the node count. |
| Distributions.CountAt | src/graph_analysis.rs:152 | The count is the number of nodes whose distance is exactly `k`. |
| Distributions.ShortWalks | src/graph_analysis.rs:141-150 | Walks of 0, 1 and 2 hops are the node itself, its neighbours, and its neighbours' neighbours. |
| Distributions.TwoHopIff | src/graph_analysis.rs:152 | A node is exactly two hops away iff it is not the start, not a neighbour, and is a neighbour of a neighbour. |
| Distributions.TwoHopDistribution | src/graph_analysis.rs:129-157 | The result is the histogram, over all nodes, of the number of nodes exactly two hops away. Its counts sum to the node count. |
| Peeling.InternalEdges | src/graph_analysis.rs:75-84 | Counting neighbour-list entries inside the remaining set from both ends and halving gives the number of edges inside the set. |
| Peeling.DegreeSumHalves | src/graph_analysis.rs:84 | The in-set degree sum is exactly twice the in-set edge count, so the halving is exact. |
| Peeling.Handshake | src/graph_analysis.rs:77-84 | Every edge inside the set is counted once from each end. |
| Peeling.Degree | src/graph_analysis.rs:96-99 | A node's degree inside the remaining set counts the neighbour entries that lie in the set. |
| Peeling.FullDegree | src/graph_analysis.rs:96-99 | Inside the set of all nodes, the in-set degree is the full neighbour-list length. This is the degree the degree histogram reads at line 122. |
| Peeling.MinDegreeNode | src/graph_analysis.rs:93-107 | A node is chosen iff the set is non-empty. The chosen node is in the set and has the least in-set degree there. |
| Peeling.RecordRound | src/graph_analysis.rs:85-90 | Only a strictly larger density replaces the best, which keeps the best as the first round of greatest density. |
| Peeling.PeelStep | src/graph_analysis.rs:93-104 | Removing a minimum-degree node extends a valid peeling by one round. |
| Peeling.DensestSubgraphPeel | src/graph_analysis.rs:68-114 | The loop runs one round per node. It starts from all nodes and removes a node of least in-set degree each round. The result is the payload set and density of the first round of greatest density, or empty with density 0 when no density is positive. So the density is never below that of the whole graph, and a positive density is that of the node set whose payloads are returned. |
| Peeling.RoundSizes | src/graph_analysis.rs:73-108 | Round `i` starts with `n - i` nodes: each round removes exactly one node, so there are `n` rounds. |
| Peeling.PeelingRounds | src/graph_analysis.rs:70-104 | The first round holds all nodes, and no round holds anything but nodes. |
| Peeling.BestRound | src/graph_analysis.rs:72-113 | The kept density is at least that of the first round, the whole graph. Density 0 comes with the empty node set, and a positive density is that of a node set whose payloads are kept. |
| Peeling.PeelEdgeless | src/graph_analysis.rs:70-71 | On an edgeless graph the result is empty with density 0. |
| Closeness.NodeCloseness | src/graph_analysis.rs:168-185 | A node's score is `(n - 1) / sum` over its finite, positive distances, and 0 when the sum is 0. |
| Closeness.AllCloseness | src/graph_analysis.rs:167-187 | There is one score per node, in node order. |
| Closeness.ClosenessCentrality | src/graph_analysis.rs:161-190 | The payload-keyed map has one entry per node, holding that node's closeness. |
| Closeness.ReachesIffNeighbour | src/graph_analysis.rs:184 | A node reaches some other node iff its neighbour list is non-empty. |
| Closeness.ClosenessZeroIffIsolated | src/graph_analysis.rs:185 | Closeness is never negative, and it is 0 exactly for a node without neighbours. |
| Closeness.ReachesAllOthers | src/graph_analysis.rs:184 | A node reaching every node reaches `n - 1` others. |
| Closeness.ClosenessAtMostOneWhenConnected | src/graph_analysis.rs:184-185 | A node that reaches every node scores at most 1. |
| Closeness.ClosenessOneWhenAdjacentToAll | src/graph_analysis.rs:184-185 | A node adjacent to every other node scores exactly 1. |
| Betweenness.PathCountPositive | src/graph_analysis.rs:213-232 | A node has a shortest path from the source iff it is reached. |
| Betweenness.NoEdgeIntoSource | src/graph_analysis.rs:213-230 | No DAG edge enters the source, so the source keeps `sigma = 1` and no predecessors. |
| Betweenness.CountPaths | src/graph_analysis.rs:226-230 | When a neighbour lies one level below the popped node, its path count grows by the popped node's and the popped node is recorded as its predecessor. The invariants on `sigma` and `pred` are kept. |
| Betweenness.ScanStep | src/graph_analysis.rs:221-231 | One neighbour step of the forward phase keeps the BFS invariant and the invariants on `sigma` and `pred`. |
| Betweenness.ScanNeighbours | src/graph_analysis.rs:220-231 | After the whole neighbour list of the popped node `u` is scanned, the BFS invariant holds with that list fully processed, so every neighbour of `u` is queued at most one level below `u`. `sigma` has received `u`'s paths once per edge from `u` to the next level, and `pred` lists `u` once per such edge. The queue up to `u` is unchanged. |
| Betweenness.ForwardSearch | src/graph_analysis.rs:215-232 | When the queue is empty, every queued node has been popped. `sigma[x]` holds 1 for the source plus the paths received from all of `x`'s DAG predecessors, and `pred[x]` lists each predecessor once per edge. |
| Betweenness.ShortestPathDag | src/graph_analysis.rs:201-232 | After the forward phase, `sigma[w]` is `PathCount`, the number of shortest paths to `w` (see `PathCountIsWalkCount`). `pred[w]` holds each node one level above `w` once per edge between them, and nothing else. The stack holds each reached node once, in non-decreasing level order. |
| Betweenness.WalkCountPositive | src/graph_analysis.rs:220-231 | The adjacency-power walk count of `k` hops is positive exactly when a walk of `k` hops exists. |
| Betweenness.ShortestWalkCount | src/graph_analysis.rs:220-231 | The hop distance is the least walk length with a positive walk count. An unreached node has no walks of any length. |
| Betweenness.PathCountIsWalkCount | src/graph_analysis.rs:213-232 | The path count that `sigma` holds equals the number of walks from the source whose length is the hop distance, each hop counted once per parallel edge. It is 0 for an unreached node. |
| Betweenness.CreditSumIsProduct | src/graph_analysis.rs:239-242 | Adding a credit once per predecessor-list entry of `x` adds it as many times as `x` occurs in the list. |
| Betweenness.CreditPredecessors | src/graph_analysis.rs:239-242 | Every predecessor of the popped node gains one credit per occurrence in the predecessor list. |
| Betweenness.PopDependency | src/graph_analysis.rs:237-245 | Popping a node whose dependency is complete credits its predecessors and adds its dependency to its own score, unless it is the source. |
| Betweenness.Accumulate | src/graph_analysis.rs:234-246 | After the accumulation phase, every node other than the source has gained its dependency on the source, and the source has gained nothing. |
| Betweenness.UnreachedDependency | src/graph_analysis.rs:237-245 | A node the source does not reach has dependency 0. |
| Betweenness.AddSourceDependencies | src/graph_analysis.rs:200-246 | One source's forward and accumulation phases add that source's dependency to every node except the source itself. |
| Betweenness.BetweennessScores | src/graph_analysis.rs:196-247 | Each node's score is its dependency summed over all sources other than itself. Ordered pairs are counted, so the score is not halved. |
| Betweenness.BetweennessCentrality | src/graph_analysis.rs:192-253 | The payload-keyed map has one entry per node, holding its betweenness. |
| Betweenness.BetweennessNonNegative | src/graph_analysis.rs:235-246 | No betweenness score is negative. |
| Betweenness.LeafNoDependency | src/graph_analysis.rs:235-246 | A node with at most one neighbour entry has dependency 0 on every other source. |
| Betweenness.LeafBetweenness | src/graph_analysis.rs:196-246 | A node with at most one neighbour entry has betweenness 0. |
| Graphs.IndexKeyed | src/graph_analysis.rs:186 | When payload `u` sits at node `u`, the payload-keyed map has exactly the keys `0 .. n` and key `u` holds node `u`'s score. |
| Distributions.HistogramUnique | src/graph_analysis.rs:121-124 | A list of observations has only one histogram, so a histogram is fixed by the multiset of observed values. |
| PathGraphs.PathValid | tests/test_centrality.rs:23-34 | The path graph `0 - 1 - ... - (n-1)` is a well-formed graph for every `n`. |
| PathGraphs.PathDistance | src/graph_analysis.rs:26-41 | On a path, the hop distance between `s` and `t` is `|s - t|`: no walk is shorter and the straight walk has that length. |
| PathGraphs.PathTwoHop | src/graph_analysis.rs:141-152 | On a path, the nodes exactly two hops from `u` are `u - 2` and `u + 2`, where they exist. |
| PathGraphs.PathThreeDegrees | tests/test_distribution.rs:8-20 | On the path 0-1-2 the degree histogram is `{1: 2, 2: 1}`. |
| PathGraphs.PathThreeTwoHops | tests/test_distribution.rs:23-35 | On the path 0-1-2 the two-hop histogram is `{0: 1, 1: 2}`. |
| PathGraphs.PathCloseness | src/graph_analysis.rs:168-185 | On a path of `n >= 2` nodes, node `u` scores `(n - 1)` divided by `1 + ... + u` plus `1 + ... + (n - 1 - u)`. |
| PathGraphs.PathFourCloseness | tests/test_centrality.rs:54-62 | On the path 0-1-2-3 closeness is 0.5 at both ends and 0.75 at the two middle nodes. |
| PathGraphs.PathCountOne | src/graph_analysis.rs:226-230 | On a path there is exactly one shortest path between any two nodes. |
| PathGraphs.PathDependency | src/graph_analysis.rs:237-245 | On a path, a node `v` other than the source `s` has dependency equal to the number of nodes beyond it, seen from `s`. |
| PathGraphs.PathBetweenness | src/graph_analysis.rs:196-247 | On a path of `n` nodes, node `v` has betweenness `2 * v * (n - 1 - v)`. Each unordered pair of nodes on opposite sides is counted twice. |
| PathGraphs.PathFourBetweenness | tests/test_centrality.rs:64-72 | On the path 0-1-2-3 betweenness is 0 at both ends and 4 at the two middle nodes. |
| CompleteGraphs.CompleteValid | tests/test_centrality.rs:9-19 | The complete graph on `n` nodes is a well-formed graph for every `n`. |
| CompleteGraphs.CompleteCloseness | src/graph_analysis.rs:184-185 | In a complete graph of at least two nodes every node has closeness 1. |
| CompleteGraphs.CompleteNoDependency | src/graph_analysis.rs:237-245 | In a complete graph every node has dependency 0 on every other source: no shortest path has an inner node. |
| CompleteGraphs.CompleteBetweenness | src/graph_analysis.rs:196-247 | In a complete graph every node has betweenness 0. |
| CompleteGraphs.TriangleCloseness | tests/test_centrality.rs:36-43 | In the triangle every closeness score is 1. |
| CompleteGraphs.TriangleBetweenness | tests/test_centrality.rs:45-52 | In the triangle every betweenness score is 0. |
| CompleteGraphs.CompleteDegreeIn | src/graph_analysis.rs:96-99 | In a complete graph a node of a set `r` has `|r| - 1` neighbours inside `r`. |
| CompleteGraphs.CliqueDensity | src/graph_analysis.rs:75-84 | A non-empty node set of a complete graph has density `(|r| - 1) / 2`. |
| CompleteGraphs.CliqueDensest | src/graph_analysis.rs:75-90 | In a clique of at least two nodes, a node set at least as dense as the whole graph is the whole graph, of density `(n - 1) / 2`. So the first round of the peeling is its densest. |
| CompleteGraphs.CliquePeel | src/graph_analysis.rs:68-114 | Peeling a clique of `n >= 2` nodes returns all `n` payloads with density `(n - 1) / 2`. |

## Left out

- Loading, CLI and timing are not part of this model: `src/io.rs` (gzip,
  CSV parsing, file I/O), `src/main.rs`, `src/utils.rs` and `src/lib.rs`. The
  model takes the built adjacency as input.
- `src/stats.rs` (`mle_power_law_exponent`) is not part of this model. It is
  one floating-point formula with a natural logarithm, which has no exact
  counterpart over `real`.
- IEEE-754 arithmetic: every `f64` is an exact `real`. The `0.0 / 0.0` of
  `average_shortest_path` on a graph without reachable pairs is `None`.
  Brandes' `sigma` is an exact `nat` rather than an `f64`.
- Integer widths: `usize` distances and counts are unbounded `nat`s. Both the
  `usize::MAX` sentinel and Brandes' `-1` are the `Unreached` constructor of
  `Dist`. Brandes' `dist` is an `i32` (line 204), so `dv + 1` (line 223)
  would overflow at a node 2^31 - 1 hops from the source; the model's
  distances are unbounded and do not wrap. `usize` is taken to be 64 bits,
  where the distance sum `sum_d` (line 184) cannot overflow; on a 32-bit
  target it would, for example at an end node of a path of 92,683 nodes.
- Peeling.InternalEdges: `edge_count` (line 75) has no type annotation, so
  Rust's integer fallback makes it an `i32`. The in-set degree sum it
  accumulates (line 80) passes 2^31 - 1 once the remaining set holds 2^30
  edges. A debug build panics there, and a release build wraps to a wrong or
  negative density that the `>` at line 87 then compares. The model's count
  is an unbounded `nat`, so the densities that `Peeling.RecordRound` and
  `Peeling.DensestSubgraphPeel` compare never wrap.
- Hash-map and hash-set iteration order: histograms and score maps are Dafny
  `map`s, and the remaining set of the peeling is a `set`. The `nodes` of
  `SubgraphResult` is a `set` of payloads too. The source's `Vec` lists them
  in hash-set order, and since payloads are distinct it holds no repeats.
- Self-loops: `Valid` excludes them. The loader adds one for an input line
  `u u`, and the metrics' handling of such an edge is outside this model.
- Peeling.MinDegreeNode: the model picks the first least-degree node in
  node order. The source picks whichever least-degree node the hash set
  yields first, so the contracts promise only "some node of least degree".
- Peeling.DensestSubgraphPeel: Charikar's 2-approximation guarantee is not
  proved, only that the result is the best round of the peeling.
- Betweenness.PathCountIsWalkCount: shortest walks are counted by the
  adjacency-power recurrence `WalkCount`, not by listing node sequences. With
  parallel edges a walk counts once per choice of edge, as `sigma` does.
- Betweenness.Dependency: the dependency is defined by Brandes' recursion over
  the shortest-path DAG. The model does not prove that this recursion equals
  the sum of pair dependencies over all targets.
- petgraph's neighbour order: a neighbour list is a `seq` in a fixed but
  arbitrary order. None of the results depend on it.
