/**
  Betweenness centrality by Brandes' algorithm (`betweenness_centrality`,
  `graph_analysis.rs` lines 192-253).

  For each source `s` a forward phase runs the BFS while counting shortest
  paths (`sigma`) and recording predecessor lists (`pred`); an accumulation
  phase then pops the nodes in reverse BFS order and propagates the
  dependencies `delta` back along the predecessor lists.  Each node other
  than `s` is credited with its dependency.

  The specification side defines the same quantities from shortest hop
  distances alone: the shortest-path DAG, the number of shortest paths
  `PathCount`, and the dependency `Dependency` by Brandes' recursion over
  the next level of the DAG.  Parallel edges count once per occurrence, as
  they do in the source's neighbour iteration.
*/
module Betweenness {
  import opened Graphs
  import opened Distances

  // ---------------------------------------------------------------------
  // The shortest-path DAG from `s`
  // ---------------------------------------------------------------------

  /** The level of a node in the BFS from `s` (0 when not reached). */
  ghost function Level(g: Graph, s: nat, v: nat): nat {
    match HopDistance(g, s, v)
    case Unreached => 0
    case Hops(d) => d
  }

  /** The multiplicity of the DAG edge `v -> w`: the occurrences of `w` in
      `v`'s neighbour list when `w` lies exactly one level below the reached
      node `v`. */
  ghost function EdgeMult(g: Graph, s: nat, v: nat, w: nat): nat {
    if v < |g.adj| && w < |g.adj| && HopDistance(g, s, v).Hops?
       && HopDistance(g, s, w) == Hops(Level(g, s, v) + 1)
    then multiset(g.adj[v])[w]
    else 0
  }

  /** The number of shortest paths from `s` to `w`, parallel edges counted
      separately. */
  ghost function PathCount(g: Graph, s: nat, w: nat): nat
    decreases Level(g, s, w), 1, 0
  {
    match HopDistance(g, s, w)
    case Unreached => 0
    case Hops(d) => if d == 0 then 1 else PathsVia(g, s, w, |g.adj|)
  }

  /** The shortest paths to `w` whose last hop leaves a node below `k`. */
  ghost function PathsVia(g: Graph, s: nat, w: nat, k: nat): nat
    decreases Level(g, s, w), 0, k
  {
    if k == 0 then 0
    else
      var v := k - 1;
      PathsVia(g, s, w, v) + (if EdgeMult(g, s, v, w) > 0 then EdgeMult(g, s, v, w) * PathCount(g, s, v) else 0)
  }

  /** The nodes strictly below `v` in the BFS from `s`. */
  ghost function Deeper(g: Graph, s: nat, v: nat): set<nat> {
    set x: nat | x < |g.adj| && HopDistance(g, s, x).Hops? && HopDistance(g, s, x).d > Level(g, s, v)
  }

  lemma DeeperShrinks(g: Graph, s: nat, v: nat, w: nat)
    requires EdgeMult(g, s, v, w) > 0
    ensures Deeper(g, s, w) < Deeper(g, s, v)
  {
    assert w in Deeper(g, s, v) && w !in Deeper(g, s, w);
  }

  /** Brandes' dependency of `s` on `v`: the share of shortest paths from
      `s` that pass through `v`, summed over their ends. */
  ghost function Dependency(g: Graph, s: nat, v: nat): (r: real)
    ensures r >= 0.0
    decreases Deeper(g, s, v), 1, 0
  {
    DependencyVia(g, s, v, |g.adj|)
  }

  /** The part of `Dependency(g, s, v)` owed to the DAG successors below `k`. */
  ghost function DependencyVia(g: Graph, s: nat, v: nat, k: nat): (r: real)
    ensures r >= 0.0
    decreases Deeper(g, s, v), 0, k
  {
    if k == 0 then 0.0 else DependencyVia(g, s, v, k - 1) + Share(g, s, v, k - 1)
  }

  /** What `v` owes to its successor `w`: for each DAG edge `v -> w`, the
      fraction of `w`'s shortest paths that come through `v`, times `w`'s own
      dependency plus one. */
  ghost function Share(g: Graph, s: nat, v: nat, w: nat): (r: real)
    ensures r >= 0.0
    decreases Deeper(g, s, v), 0, 0
  {
    var m := EdgeMult(g, s, v, w);
    if m > 0 && PathCount(g, s, w) > 0 then
      DeeperShrinks(g, s, v, w);
      Repeat(m, Credit(g, s, v, w))
    else 0.0
  }

  /** `c` added up `m` times: one credit per parallel DAG edge, as the
      accumulation phase adds one per predecessor entry. */
  function Repeat(m: nat, c: real): (r: real)
    ensures c >= 0.0 ==> r >= 0.0
    ensures c == 0.0 ==> r == 0.0
  {
    if m == 0 then 0.0 else Repeat(m - 1, c) + c
  }

  /** The factor the accumulation phase adds per predecessor entry. */
  ghost function Credit(g: Graph, s: nat, v: nat, w: nat): (r: real)
    requires PathCount(g, s, w) > 0
    ensures r >= 0.0
    decreases Deeper(g, s, w), 2, 0
  {
    var ratio := PathCount(g, s, v) as real / PathCount(g, s, w) as real;
    ratio * (1.0 + Dependency(g, s, w))
  }

  /** Betweenness of `v`: its dependencies summed over the sources `s < k`
      other than `v` itself. */
  ghost function BetweennessFrom(g: Graph, v: nat, k: nat): real {
    if k == 0 then 0.0
    else BetweennessFrom(g, v, k - 1) + (if k - 1 != v then Dependency(g, k - 1, v) else 0.0)
  }

  ghost function BetweennessScore(g: Graph, v: nat): real {
    BetweennessFrom(g, v, |g.adj|)
  }

  // ---------------------------------------------------------------------
  // Facts about the DAG
  // ---------------------------------------------------------------------

  lemma {:induction false} PathsViaAtLeast(g: Graph, s: nat, w: nat, k: nat, v: nat)
    requires v < k
    ensures PathsVia(g, s, w, k) >= EdgeMult(g, s, v, w) * PathCount(g, s, v)
  {
    if v < k - 1 {
      PathsViaAtLeast(g, s, w, k - 1, v);
    }
  }

  /** Every reached node has a shortest path; unreached nodes have none. */
  lemma {:induction false} PathCountPositive(g: Graph, s: nat, w: nat)
    ensures PathCount(g, s, w) > 0 <==> HopDistance(g, s, w).Hops?
    decreases Level(g, s, w)
  {
    match HopDistance(g, s, w)
    case Unreached =>
    case Hops(d) =>
      if d > 0 {
        LevelPredecessor(g, s, w, d);
        var v :| 0 <= v < |g.adj| && w in g.adj[v] && HopDistance(g, s, v) == Hops(d - 1);
        PathCountPositive(g, s, v);
        HopDistanceIsShortest(g, s, w);
        var p :| WalkBetween(g, p, s, w, d);
        assert w < |g.adj|;
        assert EdgeMult(g, s, v, w) > 0;
        PathsViaAtLeast(g, s, w, |g.adj|, v);
      }
  }

  /** The source has no DAG edge into it. */
  lemma NoEdgeIntoSource(g: Graph, s: nat, v: nat)
    requires s < |g.adj|
    ensures EdgeMult(g, s, v, s) == 0
  {
    ZeroHopsIsSource(g, s, s);
  }

  /** An unreached node has no DAG edge out of or into it. */
  lemma NoEdgeAtUnreached(g: Graph, s: nat, v: nat, w: nat)
    requires HopDistance(g, s, v).Unreached?
    ensures EdgeMult(g, s, v, w) == 0 && EdgeMult(g, s, w, v) == 0
  {
  }

  // ---------------------------------------------------------------------
  // The DAG over tables
  // ---------------------------------------------------------------------

  // The loop invariants below speak about a table `D` of hop distances and
  // a table `P` of path counts instead of `HopDistance` and `PathCount`
  // themselves; `Tables` ties the two together.

  /** The path counts of all nodes. */
  ghost function PathCounts(g: Graph, s: nat): (r: seq<nat>)
    ensures |r| == |g.adj|
    ensures forall x :: 0 <= x < |g.adj| ==> r[x] == PathCount(g, s, x)
  {
    seq(|g.adj|, (x: int) requires 0 <= x => PathCount(g, s, x))
  }

  /** `EdgeMult`, read off a distance table. */
  ghost function Mult(g: Graph, D: seq<Dist>, v: nat, w: nat): nat {
    if v < |g.adj| && w < |g.adj| && v < |D| && w < |D| && D[v].Hops? && D[w] == Hops(D[v].d + 1)
    then multiset(g.adj[v])[w]
    else 0
  }

  ghost predicate Tables(g: Graph, s: nat, D: seq<Dist>, P: seq<nat>) {
    D == HopDistances(g, s) && P == PathCounts(g, s)
  }

  lemma MultIsEdgeMult(g: Graph, s: nat, D: seq<Dist>, P: seq<nat>, v: nat, w: nat)
    requires Tables(g, s, D, P)
    ensures Mult(g, D, v, w) == EdgeMult(g, s, v, w)
  {
  }

  /** `PathsVia`, read off the tables. */
  ghost function PathsViaT(g: Graph, D: seq<Dist>, P: seq<nat>, x: nat, k: nat): nat
    requires k <= |P|
  {
    if k == 0 then 0 else PathsViaT(g, D, P, x, k - 1) + Mult(g, D, k - 1, x) * P[k - 1]
  }

  lemma {:induction false} PathsViaIsTable(g: Graph, s: nat, D: seq<Dist>, P: seq<nat>, x: nat, k: nat)
    requires Tables(g, s, D, P) && k <= |g.adj|
    ensures PathsViaT(g, D, P, x, k) == PathsVia(g, s, x, k)
  {
    if k > 0 {
      PathsViaIsTable(g, s, D, P, x, k - 1);
      MultIsEdgeMult(g, s, D, P, k - 1, x);
      PathsViaStep(g, s, x, k);
      assert P[k - 1] == PathCount(g, s, k - 1);
    }
  }

  /** The guard in `PathsVia` only matters for termination: a missing edge
      contributes nothing either way. */
  lemma PathsViaStep(g: Graph, s: nat, x: nat, k: nat)
    requires k > 0
    ensures PathsVia(g, s, x, k) == PathsVia(g, s, x, k - 1) + EdgeMult(g, s, k - 1, x) * PathCount(g, s, k - 1)
  {
  }

  /** The source's initialisation of a node's path count, and its final
      value in terms of its DAG predecessors. */
  lemma PathCountTable(g: Graph, s: nat, D: seq<Dist>, P: seq<nat>, x: nat)
    requires Tables(g, s, D, P) && s < |g.adj| && x < |g.adj|
    ensures P[x] == (if x == s then 1 else 0) + PathsViaT(g, D, P, x, |g.adj|)
  {
    PathsViaIsTable(g, s, D, P, x, |g.adj|);
    ZeroHopsIsSource(g, s, x);
    match HopDistance(g, s, x)
    case Unreached =>
      forall v | 0 <= v < |g.adj|
        ensures EdgeMult(g, s, v, x) == 0
      {
        NoEdgeAtUnreached(g, s, x, v);
      }
      PathsViaNone(g, s, x, |g.adj|);
    case Hops(d) =>
      if d == 0 {
        forall v | 0 <= v < |g.adj|
          ensures EdgeMult(g, s, v, x) == 0
        {
          NoEdgeIntoSource(g, s, v);
        }
        PathsViaNone(g, s, x, |g.adj|);
      }
  }

  lemma {:induction false} PathsViaNone(g: Graph, s: nat, x: nat, k: nat)
    requires forall v :: 0 <= v < k ==> EdgeMult(g, s, v, x) == 0
    ensures PathsVia(g, s, x, k) == 0
  {
    if k > 0 {
      PathsViaNone(g, s, x, k - 1);
    }
  }

  // ---------------------------------------------------------------------
  // Forward phase
  // ---------------------------------------------------------------------

  /** The path counts `x` has received from the popped nodes `done`
      below `k`. */
  ghost function PathsFrom(g: Graph, D: seq<Dist>, P: seq<nat>, x: nat, done: seq<nat>, k: nat): nat
    requires k <= |P|
  {
    if k == 0 then 0
    else
      var v := k - 1;
      PathsFrom(g, D, P, x, done, v) + (if v in done then Mult(g, D, v, x) * P[v] else 0)
  }

  lemma {:induction false} PathsFromAppend(g: Graph, D: seq<Dist>, P: seq<nat>, x: nat, done: seq<nat>,
                                           u: nat, k: nat)
    requires u !in done && k <= |P|
    ensures PathsFrom(g, D, P, x, done + [u], k) ==
            PathsFrom(g, D, P, x, done, k) + (if u < k then Mult(g, D, u, x) * P[u] else 0)
  {
    if k > 0 {
      PathsFromAppend(g, D, P, x, done, u, k - 1);
    }
  }

  /** Once every DAG predecessor of `x` is popped, `x` has received all its
      paths. */
  lemma {:induction false} PathsFromComplete(g: Graph, D: seq<Dist>, P: seq<nat>, x: nat, done: seq<nat>,
                                             k: nat)
    requires k <= |P|
    requires forall v :: 0 <= v < k && Mult(g, D, v, x) > 0 ==> v in done
    ensures PathsFrom(g, D, P, x, done, k) == PathsViaT(g, D, P, x, k)
  {
    if k > 0 {
      PathsFromComplete(g, D, P, x, done, k - 1);
    }
  }

  /** The occurrences of `x` among the scanned neighbours of the current node
      `u` that count as DAG edges `u -> x`. */
  ghost function Pending(D: seq<Dist>, u: nat, scanned: seq<nat>, x: nat): nat {
    if u < |D| && x < |D| && D[u].Hops? && D[x] == Hops(D[u].d + 1) then multiset(scanned)[x] else 0
  }

  /** `sigma[x]` holds the paths received from the popped nodes and from the
      scanned part of the current node `u`'s list.  With nothing scanned, `u`
      plays no part. */
  ghost predicate SigmaInv(g: Graph, s: nat, D: seq<Dist>, P: seq<nat>, sigma: seq<nat>,
                           done: seq<nat>, u: nat, scanned: seq<nat>)
  {
    && |sigma| == |g.adj| && |P| == |g.adj| && u < |g.adj|
    && forall x :: 0 <= x < |g.adj| ==>
         sigma[x] == (if x == s then 1 else 0) + PathsFrom(g, D, P, x, done, |g.adj|)
                     + Pending(D, u, scanned, x) * P[u]
  }

  /** `pred[x]` lists each popped `v` once per DAG edge `v -> x`, and the
      current node once per scanned DAG edge. */
  ghost predicate PredInv(g: Graph, D: seq<Dist>, pred: seq<seq<nat>>, done: seq<nat>, u: nat,
                          scanned: seq<nat>)
  {
    && |pred| == |g.adj|
    && (forall x, v :: 0 <= x < |g.adj| && v in pred[x] ==> v < |g.adj|)
    && forall x, v :: 0 <= x < |g.adj| && 0 <= v < |g.adj| ==>
         multiset(pred[x])[v] == (if v in done then Mult(g, D, v, x) else 0)
                                 + (if v == u then Pending(D, u, scanned, x) else 0)
  }

  /** Scanning one more neighbour `w` of `u` that lies one level below `u`
      (lines 226-228): `w` receives `u`'s paths. */
  lemma SigmaScanHit(g: Graph, s: nat, D: seq<Dist>, P: seq<nat>, sigma: seq<nat>, done: seq<nat>,
                     u: nat, scanned: seq<nat>, w: nat)
    requires w < |g.adj| && w != u && Pending(D, u, [w], w) > 0
    requires SigmaInv(g, s, D, P, sigma, done, u, scanned) && sigma[u] == P[u]
    ensures SigmaInv(g, s, D, P, sigma[w := sigma[w] + sigma[u]], done, u, scanned + [w])
  {
    var scanned' := scanned + [w];
    var sigma' := sigma[w := sigma[w] + sigma[u]];
    forall x | 0 <= x < |g.adj|
      ensures sigma'[x] == (if x == s then 1 else 0) + PathsFrom(g, D, P, x, done, |g.adj|)
                           + Pending(D, u, scanned', x) * P[u]
    {
      PendingScan(D, u, scanned, w, x);
      if x == w {
        MulSucc(Pending(D, u, scanned, x), P[u]);
      }
    }
  }

  /** Scanning `w` adds one pending DAG edge into `w` when `u -> w` is one,
      and none into any other node. */
  lemma PendingScan(D: seq<Dist>, u: nat, scanned: seq<nat>, w: nat, x: nat)
    ensures Pending(D, u, scanned + [w], x) ==
            Pending(D, u, scanned, x) + (if x == w then Pending(D, u, [w], w) else 0)
  {
    assert multiset(scanned + [w]) == multiset(scanned) + multiset{w};
  }

  lemma MulSucc(a: nat, b: nat)
    ensures (a + 1) * b == a * b + b
  {
  }

  /** Scanning a neighbour that is not one level below `u` changes no count. */
  lemma SigmaScanMiss(g: Graph, s: nat, D: seq<Dist>, P: seq<nat>, sigma: seq<nat>, done: seq<nat>,
                      u: nat, scanned: seq<nat>, w: nat)
    requires Pending(D, u, [w], w) == 0
    requires SigmaInv(g, s, D, P, sigma, done, u, scanned)
    ensures SigmaInv(g, s, D, P, sigma, done, u, scanned + [w])
  {
    assert multiset(scanned + [w]) == multiset(scanned) + multiset{w};
    forall x | 0 <= x < |g.adj|
      ensures Pending(D, u, scanned + [w], x) == Pending(D, u, scanned, x)
    {
    }
  }

  lemma PredScan(g: Graph, D: seq<Dist>, pred: seq<seq<nat>>, done: seq<nat>, u: nat,
                 scanned: seq<nat>, w: nat)
    requires u < |g.adj| && w < |g.adj| && u !in done
    requires PredInv(g, D, pred, done, u, scanned)
    ensures var pred' := if Pending(D, u, [w], w) > 0 then pred[w := pred[w] + [u]] else pred;
            PredInv(g, D, pred', done, u, scanned + [w])
  {
    assert multiset(scanned + [w]) == multiset(scanned) + multiset{w};
    assert multiset(pred[w] + [u]) == multiset(pred[w]) + multiset{u};
  }

  /** Popping: once `u`'s list is scanned, `u` joins the popped nodes. */
  lemma SigmaPop(g: Graph, s: nat, D: seq<Dist>, P: seq<nat>, sigma: seq<nat>, done: seq<nat>, u: nat)
    requires u !in done && u < |g.adj| && u < |D| && D[u].Hops?
    requires SigmaInv(g, s, D, P, sigma, done, u, g.adj[u])
    ensures SigmaInv(g, s, D, P, sigma, done + [u], u, [])
  {
    forall x | 0 <= x < |g.adj|
      ensures PathsFrom(g, D, P, x, done + [u], |g.adj|) ==
              PathsFrom(g, D, P, x, done, |g.adj|) + Pending(D, u, g.adj[u], x) * P[u]
    {
      PathsFromAppend(g, D, P, x, done, u, |g.adj|);
    }
  }

  lemma PredPop(g: Graph, D: seq<Dist>, pred: seq<seq<nat>>, done: seq<nat>, u: nat)
    requires u < |g.adj| && u !in done && u < |D| && D[u].Hops?
    requires PredInv(g, D, pred, done, u, g.adj[u])
    ensures PredInv(g, D, pred, done + [u], u, [])
  {
  }

  /** With nothing scanned the current node does not matter. */
  lemma SwitchCurrent(g: Graph, s: nat, D: seq<Dist>, P: seq<nat>, sigma: seq<nat>, pred: seq<seq<nat>>,
                      done: seq<nat>, u: nat, u': nat)
    requires u' < |g.adj|
    requires SigmaInv(g, s, D, P, sigma, done, u, []) && PredInv(g, D, pred, done, u, [])
    ensures SigmaInv(g, s, D, P, sigma, done, u', []) && PredInv(g, D, pred, done, u', [])
  {
  }

  /** A node whose DAG predecessors are all popped holds its final count. */
  lemma SigmaSettled(g: Graph, s: nat, D: seq<Dist>, P: seq<nat>, sigma: seq<nat>, done: seq<nat>,
                     u: nat, x: nat)
    requires Tables(g, s, D, P) && s < |g.adj| && x < |g.adj|
    requires SigmaInv(g, s, D, P, sigma, done, u, [])
    requires forall v :: 0 <= v < |g.adj| && Mult(g, D, v, x) > 0 ==> v in done
    ensures sigma[x] == P[x]
  {
    PathsFromComplete(g, D, P, x, done, |g.adj|);
    PathCountTable(g, s, D, P, x);
  }

  lemma {:induction false} PathsFromNothing(g: Graph, D: seq<Dist>, P: seq<nat>, x: nat, k: nat)
    requires k <= |P|
    ensures PathsFrom(g, D, P, x, [], k) == 0
  {
    if k > 0 {
      PathsFromNothing(g, D, P, x, k - 1);
    }
  }

  /** Before the first pop: only the source holds a path (lines 208-214). */
  lemma DagInit(g: Graph, s: nat, D: seq<Dist>, P: seq<nat>)
    requires s < |g.adj| && |P| == |g.adj|
    ensures SigmaInv(g, s, D, P, seq(|g.adj|, x => if x == s then 1 else 0), [], s, [])
    ensures PredInv(g, D, seq(|g.adj|, _ => []), [], s, [])
  {
    forall x | 0 <= x < |g.adj|
      ensures PathsFrom(g, D, P, x, [], |g.adj|) == 0
    {
      PathsFromNothing(g, D, P, x, |g.adj|);
    }
  }

  /** After the last pop every reached node is popped, so every count is
      final and every predecessor list complete. */
  lemma DagFinal(g: Graph, s: nat, D: seq<Dist>, P: seq<nat>, sigma: seq<nat>, pred: seq<seq<nat>>,
                 order: seq<nat>)
    requires Tables(g, s, D, P) && s < |g.adj|
    requires forall v :: 0 <= v < |g.adj| && D[v].Hops? ==> v in order
    requires SigmaInv(g, s, D, P, sigma, order, s, []) && PredInv(g, D, pred, order, s, [])
    ensures forall x :: 0 <= x < |g.adj| ==> sigma[x] == PathCount(g, s, x)
    ensures forall x, v :: 0 <= x < |g.adj| && 0 <= v < |g.adj| ==>
              multiset(pred[x])[v] == EdgeMult(g, s, v, x)
  {
    forall x | 0 <= x < |g.adj|
      ensures sigma[x] == PathCount(g, s, x)
    {
      SigmaSettled(g, s, D, P, sigma, order, s, x);
    }
    forall x, v | 0 <= x < |g.adj| && 0 <= v < |g.adj|
      ensures multiset(pred[x])[v] == EdgeMult(g, s, v, x)
    {
      MultIsEdgeMult(g, s, D, P, v, x);
    }
  }

  /** The forward phase while the popped node `u = order[head]`, `du` hops
      from the source, is scanned up to neighbour `j`. */
  ghost predicate ScanState(g: Graph, s: nat, D: seq<Dist>, P: seq<nat>, dist: seq<Dist>, order: seq<nat>,
                            head: nat, j: nat, sigma: seq<nat>, pred: seq<seq<nat>>, u: nat, du: nat)
  {
    && BfsState(g, s, dist, order, head, j)
    && head < |order| && u == order[head] && u < |g.adj| && j <= |g.adj[u]| && u !in order[..head]
    && dist[u] == Hops(du) && u < |D| && D[u] == Hops(du)
    && SigmaInv(g, s, D, P, sigma, order[..head], u, g.adj[u][..j])
    && PredInv(g, D, pred, order[..head], u, g.adj[u][..j])
    && sigma[u] == P[u]
  }

  /** The node about to be popped has received all its paths: its DAG
      predecessors lie one level up and are popped already. */
  lemma SettleCurrent(g: Graph, s: nat, D: seq<Dist>, P: seq<nat>, dist: seq<Dist>, order: seq<nat>,
                      head: nat, sigma: seq<nat>, pred: seq<seq<nat>>)
    requires Tables(g, s, D, P) && s < |g.adj|
    requires BfsState(g, s, dist, order, head, 0) && head < |order|
    requires SigmaInv(g, s, D, P, sigma, order[..head], s, []) && PredInv(g, D, pred, order[..head], s, [])
    ensures order[head] < |g.adj| == |dist| && dist[order[head]].Hops?
    ensures ScanState(g, s, D, P, dist, order, head, 0, sigma, pred, order[head], dist[order[head]].d)
  {
    BfsStateFacts(g, s, dist, order, head, 0);
    var u := order[head];
    BfsExact(g, s, dist, order, head, 0, u);
    SwitchCurrent(g, s, D, P, sigma, pred, order[..head], s, u);
    forall v | 0 <= v < |g.adj| && Mult(g, D, v, u) > 0
      ensures v in order[..head]
    {
      BfsPoppedBelow(g, s, dist, order, head, 0, v);
    }
    SigmaSettled(g, s, D, P, sigma, order[..head], u, u);
    assert g.adj[u][..0] == [];
  }

  /** Popping: the fully scanned node joins the popped ones. */
  lemma PopCurrent(g: Graph, s: nat, D: seq<Dist>, P: seq<nat>, dist: seq<Dist>, order: seq<nat>,
                   head: nat, sigma: seq<nat>, pred: seq<seq<nat>>, u: nat, du: nat)
    requires u < |g.adj| && ScanState(g, s, D, P, dist, order, head, |g.adj[u]|, sigma, pred, u, du)
    ensures BfsState(g, s, dist, order, head + 1, 0)
    ensures SigmaInv(g, s, D, P, sigma, order[..head + 1], s, [])
    ensures PredInv(g, D, pred, order[..head + 1], s, [])
  {
    BfsAdvance(g, s, dist, order, head);
    assert g.adj[u][..|g.adj[u]|] == g.adj[u];
    SigmaPop(g, s, D, P, sigma, order[..head], u);
    PredPop(g, D, pred, order[..head], u);
    assert order[..head + 1] == order[..head] + [u];
    SwitchCurrent(g, s, D, P, sigma, pred, order[..head + 1], u, s);
  }

  /** Scanning neighbour `j` of `u` (lines 221-229): discover it if it is
      unreached; if it lies one level below `u`, pass on `u`'s paths and list
      `u` among its predecessors. */
  method ScanStep(g: Graph, s: nat, ghost D: seq<Dist>, ghost P: seq<nat>, dist0: seq<Dist>, order0: seq<nat>,
                  head: nat, j: nat, sigma0: seq<nat>, pred0: seq<seq<nat>>, u: nat, du: nat)
    returns (dist: seq<Dist>, order: seq<nat>, sigma: seq<nat>, pred: seq<seq<nat>>)
    requires Valid(g) && |D| == |g.adj| && |P| == |g.adj|
    requires forall v :: 0 <= v < |g.adj| ==> D[v] == HopDistance(g, s, v)
    requires ScanState(g, s, D, P, dist0, order0, head, j, sigma0, pred0, u, du) && j < |g.adj[u]|
    ensures ScanState(g, s, D, P, dist, order, head, j + 1, sigma, pred, u, du)
    ensures order[..head + 1] == order0[..head + 1]
  {
    ghost var done := order0[..head];
    var w := g.adj[u][j];
    dist, order := BfsStepExact(g, s, dist0, order0, head, j, u, du);
    PrefixKept(order0, order, head + 1);
    PrefixKept(order0, order, head);
    TakeOneMore(g.adj[u], j);
    sigma, pred := CountPaths(g, s, D, P, done, u, g.adj[u][..j], w, dist[w] == Hops(du + 1), sigma0, pred0);
  }

  /** The path-counting part of a scan step (lines 226-229): a neighbour `w`
      one level below `u` receives `u`'s paths and lists `u` once more. */
  method CountPaths(g: Graph, s: nat, ghost D: seq<Dist>, ghost P: seq<nat>, ghost done: seq<nat>, u: nat,
                    ghost scanned: seq<nat>, w: nat, below: bool, sigma0: seq<nat>, pred0: seq<seq<nat>>)
    returns (sigma: seq<nat>, pred: seq<seq<nat>>)
    requires u < |g.adj| && w < |g.adj| && w != u && u !in done
    requires below <==> Pending(D, u, [w], w) > 0
    requires SigmaInv(g, s, D, P, sigma0, done, u, scanned) && PredInv(g, D, pred0, done, u, scanned)
    requires sigma0[u] == P[u]
    ensures SigmaInv(g, s, D, P, sigma, done, u, scanned + [w]) && PredInv(g, D, pred, done, u, scanned + [w])
    ensures sigma[u] == P[u]
  {
    PredScan(g, D, pred0, done, u, scanned, w);
    if below {
      SigmaScanHit(g, s, D, P, sigma0, done, u, scanned, w);
      sigma := sigma0[w := sigma0[w] + sigma0[u]];
      pred := pred0[w := pred0[w] + [u]];
    } else {
      SigmaScanMiss(g, s, D, P, sigma0, done, u, scanned, w);
      sigma, pred := sigma0, pred0;
    }
  }

  /** Scanning the popped node `u = order[head]` (lines 220-231): each
      neighbour not yet reached is discovered, and each neighbour one level
      below `u` receives `u`'s paths and lists `u` as a predecessor. */
  method ScanNeighbours(g: Graph, s: nat, ghost D: seq<Dist>, ghost P: seq<nat>,
                        dist0: seq<Dist>, order0: seq<nat>, head: nat, sigma0: seq<nat>, pred0: seq<seq<nat>>)
    returns (dist: seq<Dist>, order: seq<nat>, sigma: seq<nat>, pred: seq<seq<nat>>)
    requires Valid(g) && |D| == |g.adj| && |P| == |g.adj|
    requires forall v :: 0 <= v < |g.adj| ==> D[v] == HopDistance(g, s, v)
    requires head < |order0| && order0[head] < |g.adj| == |dist0| && dist0[order0[head]].Hops?
    requires ScanState(g, s, D, P, dist0, order0, head, 0, sigma0, pred0, order0[head], dist0[order0[head]].d)
    ensures head < |order| && order[..head + 1] == order0[..head + 1] && order[head] == order0[head]
    ensures ScanState(g, s, D, P, dist, order, head, |g.adj[order0[head]]|, sigma, pred,
                      order0[head], dist0[order0[head]].d)
  {
    dist, order, sigma, pred := dist0, order0, sigma0, pred0;
    var u := order[head];
    var du := dist[u].d;
    for j := 0 to |g.adj[u]|
      invariant ScanState(g, s, D, P, dist, order, head, j, sigma, pred, u, du)
      invariant order[..head + 1] == order0[..head + 1]
    {
      dist, order, sigma, pred := ScanStep(g, s, D, P, dist, order, head, j, sigma, pred, u, du);
    }
  }

  /** Brandes' forward phase from `s` (lines 201-232): a BFS that also
      counts shortest paths and records, for each node, its DAG predecessors
      once per edge.  `stack` lists the nodes in the order they were popped. */
  method ShortestPathDag(g: Graph, s: nat) returns (sigma: seq<nat>, pred: seq<seq<nat>>, stack: seq<nat>)
    requires Valid(g) && s < |g.adj|
    ensures |sigma| == |g.adj| && forall x :: 0 <= x < |g.adj| ==> sigma[x] == PathCount(g, s, x)
    ensures |pred| == |g.adj| && forall x, v :: 0 <= x < |g.adj| && v in pred[x] ==> v < |g.adj|
    ensures forall x, v :: 0 <= x < |g.adj| && 0 <= v < |g.adj| ==>
              multiset(pred[x])[v] == EdgeMult(g, s, v, x)
    ensures forall i, k :: 0 <= i < k < |stack| ==> stack[i] != stack[k]
    ensures forall v: nat :: v in stack <==> v < |g.adj| && HopDistance(g, s, v).Hops?
    ensures forall i, k :: 0 <= i <= k < |stack| ==> Level(g, s, stack[i]) <= Level(g, s, stack[k])
  {
    ghost var D := HopDistances(g, s);
    ghost var P := PathCounts(g, s);
    var dist, order;
    dist, order, sigma, pred := ForwardSearch(g, s, D, P);
    stack := order;
    DagDone(g, s, D, P, dist, order, sigma, pred);
  }

  /** The search loop of the forward phase (lines 215-232), run until the
      queue is empty. */
  method ForwardSearch(g: Graph, s: nat, ghost D: seq<Dist>, ghost P: seq<nat>)
    returns (dist: seq<Dist>, order: seq<nat>, sigma: seq<nat>, pred: seq<seq<nat>>)
    requires Valid(g) && s < |g.adj| && Tables(g, s, D, P)
    ensures BfsState(g, s, dist, order, |order|, 0)
    ensures SigmaInv(g, s, D, P, sigma, order, s, []) && PredInv(g, D, pred, order, s, [])
  {
    var n := |g.adj|;
    dist := InitialDist(n, s);
    sigma := seq(n, x => if x == s then 1 else 0);
    pred := seq(n, _ => []);
    order := [s];
    BfsInit(g, s);
    DagInit(g, s, D, P);
    var head := 0;
    assert order[..head] == [];
    while head < |order|
      invariant BfsState(g, s, dist, order, head, 0)
      invariant SigmaInv(g, s, D, P, sigma, order[..head], s, []) && PredInv(g, D, pred, order[..head], s, [])
      decreases n - head
    {
      BfsStateFacts(g, s, dist, order, head, 0);
      SettleCurrent(g, s, D, P, dist, order, head, sigma, pred);
      var u := order[head];
      ghost var du := dist[u].d;
      dist, order, sigma, pred := ScanNeighbours(g, s, D, P, dist, order, head, sigma, pred);
      PopCurrent(g, s, D, P, dist, order, head, sigma, pred, u, du);
      head := head + 1;
    }
    assert order[..head] == order;
  }

  /** The forward phase's result, once the queue is empty. */
  lemma DagDone(g: Graph, s: nat, D: seq<Dist>, P: seq<nat>, dist: seq<Dist>, order: seq<nat>,
                sigma: seq<nat>, pred: seq<seq<nat>>)
    requires Tables(g, s, D, P) && s < |g.adj|
    requires BfsState(g, s, dist, order, |order|, 0)
    requires SigmaInv(g, s, D, P, sigma, order, s, []) && PredInv(g, D, pred, order, s, [])
    ensures forall x :: 0 <= x < |g.adj| ==> sigma[x] == PathCount(g, s, x)
    ensures forall x, v :: 0 <= x < |g.adj| && 0 <= v < |g.adj| ==>
              multiset(pred[x])[v] == EdgeMult(g, s, v, x)
    ensures forall v: nat :: v in order <==> v < |g.adj| && HopDistance(g, s, v).Hops?
    ensures forall i, k :: 0 <= i <= k < |order| ==> Level(g, s, order[i]) <= Level(g, s, order[k])
  {
    BfsFinish(g, s, dist, order);
    DagFinal(g, s, D, P, sigma, pred, order);
  }

  // ---------------------------------------------------------------------
  // Accumulation phase
  // ---------------------------------------------------------------------

  /** The dependencies of all nodes. */
  ghost function Dependencies(g: Graph, s: nat): (r: seq<real>)
    ensures |r| == |g.adj|
    ensures forall x :: 0 <= x < |g.adj| ==> r[x] == Dependency(g, s, x)
  {
    seq(|g.adj|, (x: int) requires 0 <= x => Dependency(g, s, x))
  }

  /** `Credit`, read off the tables (0 when `w` has no path). */
  ghost function CreditT(P: seq<nat>, Dep: seq<real>, v: nat, w: nat): real
    requires v < |P| && w < |P| && w < |Dep|
  {
    if P[w] == 0 then 0.0 else P[v] as real / P[w] as real * (1.0 + Dep[w])
  }

  /** `Share`, read off the tables. */
  ghost function ShareT(g: Graph, D: seq<Dist>, P: seq<nat>, Dep: seq<real>, v: nat, w: nat): real
    requires v < |P| && w < |P| && w < |Dep|
  {
    Repeat(Mult(g, D, v, w), CreditT(P, Dep, v, w))
  }

  /** `DependencyVia`, read off the tables. */
  ghost function DependencyViaT(g: Graph, D: seq<Dist>, P: seq<nat>, Dep: seq<real>, v: nat, k: nat): real
    requires v < |P| && k <= |P| && k <= |Dep|
  {
    if k == 0 then 0.0 else DependencyViaT(g, D, P, Dep, v, k - 1) + ShareT(g, D, P, Dep, v, k - 1)
  }

  lemma ShareIsTable(g: Graph, s: nat, D: seq<Dist>, P: seq<nat>, Dep: seq<real>, v: nat, w: nat)
    requires Tables(g, s, D, P) && Dep == Dependencies(g, s) && v < |g.adj| && w < |g.adj|
    ensures ShareT(g, D, P, Dep, v, w) == Share(g, s, v, w)
  {
    MultIsEdgeMult(g, s, D, P, v, w);
    if P[w] > 0 {
      assert CreditT(P, Dep, v, w) == Credit(g, s, v, w);
    }
  }

  lemma {:induction false} DependencyViaIsTable(g: Graph, s: nat, D: seq<Dist>, P: seq<nat>, Dep: seq<real>,
                                                v: nat, k: nat)
    requires Tables(g, s, D, P) && Dep == Dependencies(g, s) && v < |g.adj| && k <= |g.adj|
    ensures DependencyViaT(g, D, P, Dep, v, k) == DependencyVia(g, s, v, k)
  {
    if k > 0 {
      DependencyViaIsTable(g, s, D, P, Dep, v, k - 1);
      ShareIsTable(g, s, D, P, Dep, v, k - 1);
    }
  }

  /** The dependency `x` has received from the popped nodes `popped` below
      `k`. */
  ghost function DeltaFrom(g: Graph, D: seq<Dist>, P: seq<nat>, Dep: seq<real>, x: nat, popped: seq<nat>,
                           k: nat): real
    requires x < |P| && k <= |P| && k <= |Dep|
  {
    if k == 0 then 0.0
    else
      var w := k - 1;
      DeltaFrom(g, D, P, Dep, x, popped, w) + (if w in popped then ShareT(g, D, P, Dep, x, w) else 0.0)
  }

  lemma {:induction false} DeltaFromNothing(g: Graph, D: seq<Dist>, P: seq<nat>, Dep: seq<real>, x: nat,
                                            k: nat)
    requires x < |P| && k <= |P| && k <= |Dep|
    ensures DeltaFrom(g, D, P, Dep, x, [], k) == 0.0
  {
    if k > 0 {
      DeltaFromNothing(g, D, P, Dep, x, k - 1);
    }
  }

  lemma {:induction false} DeltaFromPrepend(g: Graph, D: seq<Dist>, P: seq<nat>, Dep: seq<real>, x: nat,
                                            w: nat, popped: seq<nat>, k: nat)
    requires x < |P| && w < |P| && k <= |P| && |P| <= |Dep| && w !in popped
    ensures DeltaFrom(g, D, P, Dep, x, [w] + popped, k) ==
            DeltaFrom(g, D, P, Dep, x, popped, k) + (if w < k then ShareT(g, D, P, Dep, x, w) else 0.0)
  {
    if k > 0 {
      DeltaFromPrepend(g, D, P, Dep, x, w, popped, k - 1);
    }
  }

  /** Once every DAG successor of `x` is popped, `x` holds its dependency. */
  lemma {:induction false} DeltaFromComplete(g: Graph, D: seq<Dist>, P: seq<nat>, Dep: seq<real>, x: nat,
                                             popped: seq<nat>, k: nat)
    requires x < |P| && k <= |P| && k <= |Dep|
    requires forall w :: 0 <= w < k && Mult(g, D, x, w) > 0 ==> w in popped
    ensures DeltaFrom(g, D, P, Dep, x, popped, k) == DependencyViaT(g, D, P, Dep, x, k)
  {
    if k > 0 {
      DeltaFromComplete(g, D, P, Dep, x, popped, k - 1);
    }
  }

  /** A node without DAG successors below `k` owes nothing to them. */
  lemma {:induction false} NoSuccessorNoDependency(g: Graph, s: nat, v: nat, k: nat)
    requires forall w :: 0 <= w < k ==> EdgeMult(g, s, v, w) == 0
    ensures DependencyVia(g, s, v, k) == 0.0
  {
    if k > 0 {
      NoSuccessorNoDependency(g, s, v, k - 1);
    }
  }

  /** An unreached node has no DAG successor, so nothing depends on it. */
  lemma UnreachedDependency(g: Graph, s: nat, v: nat)
    requires HopDistance(g, s, v).Unreached?
    ensures Dependency(g, s, v) == 0.0
  {
    forall w | 0 <= w < |g.adj|
      ensures EdgeMult(g, s, v, w) == 0
    {
      NoEdgeAtUnreached(g, s, v, w);
    }
    NoSuccessorNoDependency(g, s, v, |g.adj|);
  }

  /** The level of `v` in a distance table (0 when not reached). */
  ghost function LevelT(D: seq<Dist>, v: nat): nat {
    if v < |D| && D[v].Hops? then D[v].d else 0
  }

  /** What the forward phase hands to the accumulation phase, over the
      tables: the path counts, one predecessor entry per DAG edge, and every
      reached node once on the stack, in non-decreasing level. */
  ghost predicate DagResult(g: Graph, D: seq<Dist>, P: seq<nat>, sigma: seq<nat>, pred: seq<seq<nat>>,
                            stack: seq<nat>)
  {
    && |D| == |g.adj| && |P| == |g.adj| && |sigma| == |g.adj| && |pred| == |g.adj|
    && (forall x :: 0 <= x < |g.adj| ==> sigma[x] == P[x])
    && (forall x, v :: 0 <= x < |g.adj| && v in pred[x] ==> v < |g.adj|)
    && (forall x, v :: 0 <= x < |g.adj| && 0 <= v < |g.adj| ==> multiset(pred[x])[v] == Mult(g, D, v, x))
    && (forall i, k :: 0 <= i < k < |stack| ==> stack[i] != stack[k])
    && (forall v: nat :: v in stack <==> v < |g.adj| && D[v].Hops?)
    && (forall v :: v in stack ==> P[v] > 0)
    && (forall i, k :: 0 <= i <= k < |stack| ==> LevelT(D, stack[i]) <= LevelT(D, stack[k]))
  }

  lemma DagResultOfSpec(g: Graph, s: nat, D: seq<Dist>, P: seq<nat>, sigma: seq<nat>, pred: seq<seq<nat>>,
                        stack: seq<nat>)
    requires Tables(g, s, D, P)
    requires |sigma| == |g.adj| && forall x :: 0 <= x < |g.adj| ==> sigma[x] == PathCount(g, s, x)
    requires |pred| == |g.adj| && forall x, v :: 0 <= x < |g.adj| && v in pred[x] ==> v < |g.adj|
    requires forall x, v :: 0 <= x < |g.adj| && 0 <= v < |g.adj| ==>
               multiset(pred[x])[v] == EdgeMult(g, s, v, x)
    requires forall i, k :: 0 <= i < k < |stack| ==> stack[i] != stack[k]
    requires forall v: nat :: v in stack <==> v < |g.adj| && HopDistance(g, s, v).Hops?
    requires forall i, k :: 0 <= i <= k < |stack| ==> Level(g, s, stack[i]) <= Level(g, s, stack[k])
    ensures DagResult(g, D, P, sigma, pred, stack)
  {
    forall x, v | 0 <= x < |g.adj| && 0 <= v < |g.adj|
      ensures multiset(pred[x])[v] == Mult(g, D, v, x)
    {
      MultIsEdgeMult(g, s, D, P, v, x);
    }
    forall v | v in stack
      ensures P[v] > 0
    {
      PathCountPositive(g, s, v);
    }
  }

  /** The accumulation phase after popping `stack[i..]`: each node holds the
      dependency received from the popped nodes, and each popped node other
      than `s` has been credited with its own. */
  ghost predicate AccState(g: Graph, s: nat, D: seq<Dist>, P: seq<nat>, Dep: seq<real>, stack: seq<nat>,
                           i: nat, delta: seq<real>, cb0: seq<real>, cb: seq<real>)
  {
    && i <= |stack| && |P| == |g.adj| && |Dep| == |g.adj|
    && |delta| == |g.adj| && |cb0| == |g.adj| && |cb| == |g.adj|
    && (forall x :: 0 <= x < |g.adj| ==> delta[x] == DeltaFrom(g, D, P, Dep, x, stack[i..], |g.adj|))
    && (forall x :: 0 <= x < |g.adj| ==>
          cb[x] == cb0[x] + (if x in stack[i..] && x != s then Dep[x] else 0.0))
  }

  /** The node popped next has received the dependency of all its DAG
      successors: they lie one level down, later on the stack. */
  lemma PopSettled(g: Graph, s: nat, D: seq<Dist>, P: seq<nat>, Dep: seq<real>, sigma: seq<nat>,
                   pred: seq<seq<nat>>, stack: seq<nat>, i: nat, delta: seq<real>, cb0: seq<real>, cb: seq<real>)
    requires Tables(g, s, D, P) && Dep == Dependencies(g, s) && DagResult(g, D, P, sigma, pred, stack)
    requires AccState(g, s, D, P, Dep, stack, i, delta, cb0, cb) && 0 < i
    ensures stack[i - 1] < |g.adj| && stack[i - 1] !in stack[i..] && P[stack[i - 1]] > 0
    ensures delta[stack[i - 1]] == Dep[stack[i - 1]]
  {
    var w := stack[i - 1];
    assert w in stack;
    forall x | 0 <= x < |g.adj| && Mult(g, D, w, x) > 0
      ensures x in stack[i..]
    {
      assert x in stack;
      var k :| 0 <= k < |stack| && stack[k] == x;
    }
    DeltaFromComplete(g, D, P, Dep, w, stack[i..], |g.adj|);
    DependencyViaIsTable(g, s, D, P, Dep, w, |g.adj|);
  }

  /** `c` summed once per occurrence of `x` in `xs`. */
  function CreditSum(xs: seq<nat>, x: nat, c: real): real {
    if xs == [] then 0.0
    else CreditSum(xs[..|xs| - 1], x, c) + (if xs[|xs| - 1] == x then c else 0.0)
  }

  lemma {:induction false} CreditSumIsProduct(xs: seq<nat>, x: nat, c: real)
    ensures CreditSum(xs, x, c) == Repeat(multiset(xs)[x], c)
  {
    if xs != [] {
      var init: seq<nat>, last: nat := xs[..|xs| - 1], xs[|xs| - 1];
      assert xs == init + [last];
      assert multiset(xs) == multiset(init) + multiset{last};
      CreditSumIsProduct(init, x, c);
    }
  }

  /** The inner loop of the accumulation phase (lines 237-240): every
      predecessor entry `v` of `w` receives `credit[v]`, which is
      `sigma[v] / sigma[w] * (1 + dw)`. */
  method CreditPredecessors(ghost credit: seq<real>, sigma: seq<nat>, preds: seq<nat>, w: nat, dw: real,
                            delta0: seq<real>)
    returns (delta: seq<real>)
    requires |sigma| == |credit| == |delta0| && w < |sigma| && sigma[w] > 0
    requires forall x :: 0 <= x < |sigma| ==> credit[x] == sigma[x] as real / sigma[w] as real * (1.0 + dw)
    requires forall v :: v in preds ==> v < |sigma|
    ensures |delta| == |delta0|
    ensures forall x :: 0 <= x < |sigma| ==> delta[x] == delta0[x] + Repeat(multiset(preds)[x], credit[x])
  {
    delta := delta0;
    for j := 0 to |preds|
      invariant |delta| == |delta0|
      invariant forall x :: 0 <= x < |sigma| ==> delta[x] == delta0[x] + CreditSum(preds[..j], x, credit[x])
    {
      var v := preds[j];
      assert v in preds;
      var c := (sigma[v] as real / sigma[w] as real) * (1.0 + dw);
      assert preds[..j + 1][..j] == preds[..j];
      delta := delta[v := delta[v] + c];
    }
    assert preds[..|preds|] == preds;
    forall x | 0 <= x < |sigma|
      ensures delta[x] == delta0[x] + Repeat(multiset(preds)[x], credit[x])
    {
      CreditSumIsProduct(preds, x, credit[x]);
    }
  }

  /** The credits `w`'s predecessors receive. */
  ghost function Credits(P: seq<nat>, Dep: seq<real>, w: nat): (r: seq<real>)
    requires w < |P| && |P| <= |Dep|
    ensures |r| == |P|
  {
    seq(|P|, (x: int) requires 0 <= x < |P| => CreditT(P, Dep, x, w))
  }

  lemma CreditsAgree(P: seq<nat>, Dep: seq<real>, sigma: seq<nat>, w: nat, dw: real)
    requires |sigma| == |P| == |Dep| && w < |P| && P[w] > 0 && dw == Dep[w]
    requires forall x :: 0 <= x < |P| ==> sigma[x] == P[x]
    ensures forall x :: 0 <= x < |P| ==>
              Credits(P, Dep, w)[x] == sigma[x] as real / sigma[w] as real * (1.0 + dw)
  {
  }

  /** After crediting `w`'s predecessors, every node holds the dependency
      received from the popped nodes including `w`. */
  lemma PopDelta(g: Graph, D: seq<Dist>, P: seq<nat>, Dep: seq<real>, pred: seq<seq<nat>>, popped: seq<nat>,
                 w: nat, delta0: seq<real>, delta: seq<real>)
    requires |P| == |g.adj| == |Dep| == |pred| == |delta0| == |delta| && w < |g.adj| && w !in popped
    requires forall x :: 0 <= x < |g.adj| ==> multiset(pred[w])[x] == Mult(g, D, x, w)
    requires forall x :: 0 <= x < |g.adj| ==> delta0[x] == DeltaFrom(g, D, P, Dep, x, popped, |g.adj|)
    requires forall x :: 0 <= x < |g.adj| ==>
               delta[x] == delta0[x] + Repeat(multiset(pred[w])[x], Credits(P, Dep, w)[x])
    ensures forall x :: 0 <= x < |g.adj| ==> delta[x] == DeltaFrom(g, D, P, Dep, x, [w] + popped, |g.adj|)
    ensures delta[w] == delta0[w]
  {
    forall x | 0 <= x < |g.adj|
      ensures delta[x] == DeltaFrom(g, D, P, Dep, x, [w] + popped, |g.adj|)
    {
      DeltaFromPrepend(g, D, P, Dep, x, w, popped, |g.adj|);
    }
    assert Mult(g, D, w, w) == 0;
  }

  /** Popping `w = stack[i - 1]` (lines 235-245): credit its predecessors,
      then credit `w` itself unless it is the source. */
  method PopDependency(g: Graph, s: nat, ghost D: seq<Dist>, ghost P: seq<nat>, ghost Dep: seq<real>,
                       sigma: seq<nat>, pred: seq<seq<nat>>, stack: seq<nat>, i: nat,
                       delta0: seq<real>, ghost cb0: seq<real>, cb1: seq<real>)
    returns (delta: seq<real>, cb: seq<real>)
    requires Tables(g, s, D, P) && Dep == Dependencies(g, s) && DagResult(g, D, P, sigma, pred, stack)
    requires AccState(g, s, D, P, Dep, stack, i, delta0, cb0, cb1) && 0 < i
    ensures AccState(g, s, D, P, Dep, stack, i - 1, delta, cb0, cb)
  {
    var w := stack[i - 1];
    PopSettled(g, s, D, P, Dep, sigma, pred, stack, i, delta0, cb0, cb1);
    var dw := delta0[w];
    CreditsAgree(P, Dep, sigma, w, dw);
    delta := CreditPredecessors(Credits(P, Dep, w), sigma, pred[w], w, dw, delta0);
    PopDelta(g, D, P, Dep, pred, stack[i..], w, delta0, delta);
    assert stack[i - 1..] == [w] + stack[i..];
    cb := cb1;
    if w != s {
      cb := cb[w := cb[w] + delta[w]];
    }
  }

  /** Brandes' accumulation phase for the source `s` (lines 234-246): every
      node other than `s` is credited with its dependency on `s`. */
  method Accumulate(g: Graph, s: nat, ghost D: seq<Dist>, ghost P: seq<nat>, sigma: seq<nat>,
                    pred: seq<seq<nat>>, stack: seq<nat>, cb0: seq<real>)
    returns (cb: seq<real>)
    requires s < |g.adj| && Tables(g, s, D, P) && DagResult(g, D, P, sigma, pred, stack)
    requires |cb0| == |g.adj|
    ensures |cb| == |g.adj|
    ensures forall x :: 0 <= x < |g.adj| ==>
              cb[x] == cb0[x] + (if x != s then Dependency(g, s, x) else 0.0)
  {
    ghost var Dep := Dependencies(g, s);
    var delta := seq(|g.adj|, _ => 0.0);
    cb := cb0;
    var i: nat := |stack|;
    forall x | 0 <= x < |g.adj|
      ensures DeltaFrom(g, D, P, Dep, x, stack[i..], |g.adj|) == 0.0
    {
      assert stack[i..] == [];
      DeltaFromNothing(g, D, P, Dep, x, |g.adj|);
    }
    while i > 0
      invariant AccState(g, s, D, P, Dep, stack, i, delta, cb0, cb)
    {
      delta, cb := PopDependency(g, s, D, P, Dep, sigma, pred, stack, i, delta, cb0, cb);
      i := i - 1;
    }
    AccDone(g, s, D, P, Dep, sigma, pred, stack, delta, cb0, cb);
  }

  lemma AccDone(g: Graph, s: nat, D: seq<Dist>, P: seq<nat>, Dep: seq<real>, sigma: seq<nat>,
                pred: seq<seq<nat>>, stack: seq<nat>, delta: seq<real>, cb0: seq<real>, cb: seq<real>)
    requires Tables(g, s, D, P) && Dep == Dependencies(g, s) && DagResult(g, D, P, sigma, pred, stack)
    requires AccState(g, s, D, P, Dep, stack, 0, delta, cb0, cb)
    ensures forall x :: 0 <= x < |g.adj| ==>
              cb[x] == cb0[x] + (if x != s then Dependency(g, s, x) else 0.0)
  {
    assert stack[0..] == stack;
    forall x | 0 <= x < |g.adj| && x !in stack
      ensures Dependency(g, s, x) == 0.0
    {
      UnreachedDependency(g, s, x);
    }
  }

  // ---------------------------------------------------------------------
  // The whole algorithm
  // ---------------------------------------------------------------------

  /** One iteration of the loop over sources (lines 200-246). */
  method AddSourceDependencies(g: Graph, s: nat, cb0: seq<real>) returns (cb: seq<real>)
    requires Valid(g) && s < |g.adj| && |cb0| == |g.adj|
    ensures |cb| == |g.adj|
    ensures forall x :: 0 <= x < |g.adj| ==>
              cb[x] == cb0[x] + (if x != s then Dependency(g, s, x) else 0.0)
  {
    ghost var D := HopDistances(g, s);
    ghost var P := PathCounts(g, s);
    var sigma, pred, stack := ShortestPathDag(g, s);
    DagResultOfSpec(g, s, D, P, sigma, pred, stack);
    cb := Accumulate(g, s, D, P, sigma, pred, stack, cb0);
  }

  /** The scores of all nodes, in node order (lines 196-247). */
  method BetweennessScores(g: Graph) returns (cb: seq<real>)
    requires Valid(g)
    ensures |cb| == |g.adj|
    ensures forall v :: 0 <= v < |g.adj| ==> cb[v] == BetweennessScore(g, v)
  {
    cb := seq(|g.adj|, _ => 0.0);
    for s := 0 to |g.adj|
      invariant |cb| == |g.adj|
      invariant forall v :: 0 <= v < |g.adj| ==> cb[v] == BetweennessFrom(g, v, s)
    {
      cb := AddSourceDependencies(g, s, cb);
    }
  }

  /** `betweenness_centrality`: payload -> betweenness, one entry per node. */
  method BetweennessCentrality(g: Graph) returns (betweenness: map<nat, real>)
    requires Valid(g)
    ensures betweenness.Keys == Payloads(g, AllNodes(g))
    ensures forall u :: 0 <= u < |g.adj| ==> betweenness[g.payload[u]] == BetweennessScore(g, u)
  {
    var cb := BetweennessScores(g);
    betweenness := KeyByPayload(g, cb);
  }

  // ---------------------------------------------------------------------
  // Properties of the score
  // ---------------------------------------------------------------------

  lemma {:induction false} BetweennessFromNonNegative(g: Graph, v: nat, k: nat)
    ensures BetweennessFrom(g, v, k) >= 0.0
  {
    if k > 0 {
      BetweennessFromNonNegative(g, v, k - 1);
    }
  }

  /** No score is negative. */
  lemma BetweennessNonNegative(g: Graph, v: nat)
    ensures BetweennessScore(g, v) >= 0.0
  {
    BetweennessFromNonNegative(g, v, |g.adj|);
  }

  /** A node with at most one neighbour entry lies on no shortest path
      between two other nodes: its one neighbour is where its shortest paths
      come from, never where they go. */
  lemma LeafNoDependency(g: Graph, s: nat, v: nat)
    requires Valid(g) && s < |g.adj| && v < |g.adj| && |g.adj[v]| <= 1 && s != v
    ensures Dependency(g, s, v) == 0.0
  {
    match HopDistance(g, s, v)
    case Unreached =>
      UnreachedDependency(g, s, v);
    case Hops(d) =>
      ZeroHopsIsSource(g, s, v);
      LevelPredecessor(g, s, v, d);
      var u :| 0 <= u < |g.adj| && v in g.adj[u] && HopDistance(g, s, u) == Hops(d - 1);
      assert multiset(g.adj[v])[u] == multiset(g.adj[u])[v] > 0;
      assert g.adj[v] == [u];
      forall w | 0 <= w < |g.adj|
        ensures EdgeMult(g, s, v, w) == 0
      {
      }
      NoSuccessorNoDependency(g, s, v, |g.adj|);
  }

  lemma {:induction false} LeafBetweennessFrom(g: Graph, v: nat, k: nat)
    requires Valid(g) && v < |g.adj| && |g.adj[v]| <= 1 && k <= |g.adj|
    ensures BetweennessFrom(g, v, k) == 0.0
  {
    if k > 0 {
      LeafBetweennessFrom(g, v, k - 1);
      if k - 1 != v {
        LeafNoDependency(g, k - 1, v);
      }
    }
  }

  /** A node of degree at most one has betweenness 0. */
  lemma LeafBetweenness(g: Graph, v: nat)
    requires Valid(g) && v < |g.adj| && |g.adj[v]| <= 1
    ensures BetweennessScore(g, v) == 0.0
  {
    LeafBetweennessFrom(g, v, |g.adj|);
  }

  // ---------------------------------------------------------------------
  // Path counts are shortest-walk counts
  // ---------------------------------------------------------------------

  /** The walks of `k` hops from `s` to `w`, a hop counted once per entry of
      the neighbour list it follows: entry `(s, w)` of the `k`-th power of the
      adjacency matrix.  Nothing here refers to distances. */
  function WalkCount(g: Graph, s: nat, w: nat, k: nat): nat
    decreases k, 1, 0
  {
    if k == 0 then (if w == s then 1 else 0) else WalksInto(g, s, w, k - 1, |g.adj|)
  }

  /** The walks of `k + 1` hops from `s` to `w` whose last hop leaves a node
      below `m`. */
  function WalksInto(g: Graph, s: nat, w: nat, k: nat, m: nat): nat
    requires m <= |g.adj|
    decreases k, 2, m
  {
    if m == 0 then 0
    else WalksInto(g, s, w, k, m - 1) + multiset(g.adj[m - 1])[w] * WalkCount(g, s, m - 1, k)
  }

  lemma {:induction false} WalksIntoPositive(g: Graph, s: nat, w: nat, k: nat, m: nat)
    requires m <= |g.adj| && WalksInto(g, s, w, k, m) > 0
    ensures exists v :: 0 <= v < m && multiset(g.adj[v])[w] > 0 && WalkCount(g, s, v, k) > 0
  {
    var v := m - 1;
    if WalksInto(g, s, w, k, v) > 0 {
      WalksIntoPositive(g, s, w, k, v);
    } else {
      assert multiset(g.adj[v])[w] * WalkCount(g, s, v, k) > 0;
    }
  }

  lemma {:induction false} WalksIntoAtLeast(g: Graph, s: nat, w: nat, k: nat, m: nat, v: nat)
    requires v < m <= |g.adj|
    ensures WalksInto(g, s, w, k, m) >= multiset(g.adj[v])[w] * WalkCount(g, s, v, k)
  {
    if v < m - 1 {
      WalksIntoAtLeast(g, s, w, k, m - 1, v);
    }
  }

  /** A walk count is positive exactly when such a walk exists. */
  lemma WalkCountPositive(g: Graph, s: nat, w: nat, k: nat)
    requires Valid(g) && s < |g.adj| && w < |g.adj|
    ensures WalkCount(g, s, w, k) > 0 <==> HasWalk(g, s, w, k)
  {
    if WalkCount(g, s, w, k) > 0 {
      CountedWalkExists(g, s, w, k);
    }
    if HasWalk(g, s, w, k) {
      WalkIsCounted(g, s, w, k);
    }
  }

  lemma {:induction false} CountedWalkExists(g: Graph, s: nat, w: nat, k: nat)
    requires Valid(g) && s < |g.adj| && w < |g.adj| && WalkCount(g, s, w, k) > 0
    ensures HasWalk(g, s, w, k)
    decreases k
  {
    if k == 0 {
      assert WalkBetween(g, [s], s, w, 0);
    } else {
      WalksIntoPositive(g, s, w, k - 1, |g.adj|);
      var v :| 0 <= v < |g.adj| && multiset(g.adj[v])[w] > 0 && WalkCount(g, s, v, k - 1) > 0;
      CountedWalkExists(g, s, v, k - 1);
      assert w in g.adj[v];
      WalkExtend(g, s, v, k - 1, w);
    }
  }

  lemma {:induction false} WalkIsCounted(g: Graph, s: nat, w: nat, k: nat)
    requires Valid(g) && s < |g.adj| && w < |g.adj| && HasWalk(g, s, w, k)
    ensures WalkCount(g, s, w, k) > 0
    decreases k
  {
    var p :| WalkBetween(g, p, s, w, k);
    if k > 0 {
      var v := p[k - 1];
      assert WalkBetween(g, p[..k], s, v, k - 1);
      WalkIsCounted(g, s, v, k - 1);
      assert w in g.adj[v];
      WalksIntoAtLeast(g, s, w, k - 1, |g.adj|, v);
      MulPositive(multiset(g.adj[v])[w], WalkCount(g, s, v, k - 1));
    }
  }

  lemma MulPositive(a: nat, b: nat)
    requires a > 0 && b > 0
    ensures a * b > 0
  {
  }

  /** The hop distance is the least walk length with a positive walk count. */
  lemma ShortestWalkCount(g: Graph, s: nat, w: nat)
    requires Valid(g) && s < |g.adj| && w < |g.adj|
    ensures HopDistance(g, s, w).Unreached? ==> forall k: nat :: WalkCount(g, s, w, k) == 0
    ensures HopDistance(g, s, w).Hops? ==>
              WalkCount(g, s, w, HopDistance(g, s, w).d) > 0 &&
              forall k: nat :: k < HopDistance(g, s, w).d ==> WalkCount(g, s, w, k) == 0
  {
    HopDistanceIsShortest(g, s, w);
    forall k: nat
      ensures WalkCount(g, s, w, k) > 0 <==> HasWalk(g, s, w, k)
    {
      WalkCountPositive(g, s, w, k);
    }
  }

  /** `sigma`'s reference count is the number of shortest walks: the walks
      from `s` to `w` whose length is the hop distance. */
  lemma {:induction false} PathCountIsWalkCount(g: Graph, s: nat, w: nat)
    requires Valid(g) && s < |g.adj| && w < |g.adj|
    ensures HopDistance(g, s, w).Hops? ==>
              PathCount(g, s, w) == WalkCount(g, s, w, HopDistance(g, s, w).d)
    ensures HopDistance(g, s, w).Unreached? ==> PathCount(g, s, w) == 0
    decreases Level(g, s, w), 1, 0
  {
    match HopDistance(g, s, w)
    case Unreached =>
    case Hops(d) =>
      if d == 0 {
        ZeroHopsIsSource(g, s, w);
      } else {
        PathsViaIsWalksInto(g, s, w, d, |g.adj|);
      }
  }

  lemma {:induction false} PathsViaIsWalksInto(g: Graph, s: nat, w: nat, d: nat, m: nat)
    requires Valid(g) && s < |g.adj| && w < |g.adj| && m <= |g.adj|
    requires HopDistance(g, s, w) == Hops(d) && d > 0
    ensures PathsVia(g, s, w, m) == WalksInto(g, s, w, d - 1, m)
    decreases d, 0, m
  {
    if m > 0 {
      PathsViaIsWalksInto(g, s, w, d, m - 1);
      LastHop(g, s, w, d, m - 1);
    }
  }

  /** The walks whose last hop leaves `v`: none unless `v` lies one level
      above `w`, and then one per DAG edge and shortest walk to `v`. */
  lemma {:induction false} LastHop(g: Graph, s: nat, w: nat, d: nat, v: nat)
    requires Valid(g) && s < |g.adj| && w < |g.adj| && v < |g.adj|
    requires HopDistance(g, s, w) == Hops(d) && d > 0
    ensures (if EdgeMult(g, s, v, w) > 0 then EdgeMult(g, s, v, w) * PathCount(g, s, v) else 0)
            == multiset(g.adj[v])[w] * WalkCount(g, s, v, d - 1)
    decreases d, 0, v
  {
    if multiset(g.adj[v])[w] > 0 {
      assert w in g.adj[v];
      HopDistanceIsShortest(g, s, v);
      WalkCountPositive(g, s, v, d - 1);
      match HopDistance(g, s, v)
      case Unreached =>
      case Hops(dv) =>
        WalkExtend(g, s, v, dv, w);
        HopDistanceIsShortest(g, s, w);
        assert d <= dv + 1;
        if dv == d - 1 {
          PathCountIsWalkCount(g, s, v);
        }
    }
  }
}
