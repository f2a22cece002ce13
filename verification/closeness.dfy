/**
  Closeness centrality (`closeness_centrality`, `graph_analysis.rs`
  lines 159-190): for each node `u`, a BFS from `u`, then
  `(n - 1) / sum`, where `sum` adds the finite, positive distances from `u`;
  a node whose sum is zero scores `0`.  The numerator is the node count of the
  whole graph, not the number of nodes `u` reaches, so a node in a small
  component of a larger graph can score above `1`.
*/
module Closeness {
  import opened Graphs
  import opened Distances

  /** The closeness of `u`, from its shortest hop distances. */
  ghost function ClosenessScore(g: Graph, u: nat): real {
    var sum := ReachedSum(HopDistances(g, u));
    if sum > 0 then (|g.adj| - 1) as real / sum as real else 0.0
  }

  /** The score of one node (lines 168-185). */
  method NodeCloseness(g: Graph, u: nat) returns (c: real)
    requires Valid(g) && u < |g.adj|
    ensures c == ClosenessScore(g, u)
  {
    var dist, _ := Bfs(g, u);
    var sum, _ := SumReached(dist);
    c := if sum > 0 then (|g.adj| - 1) as real / sum as real else 0.0;
  }

  /** The scores of all nodes, in node order. */
  method AllCloseness(g: Graph) returns (scores: seq<real>)
    requires Valid(g)
    ensures |scores| == |g.adj|
    ensures forall u :: 0 <= u < |g.adj| ==> scores[u] == ClosenessScore(g, u)
  {
    scores := [];
    for u := 0 to |g.adj|
      invariant |scores| == u
      invariant forall v :: 0 <= v < u ==> scores[v] == ClosenessScore(g, v)
    {
      var c := NodeCloseness(g, u);
      scores := scores + [c];
    }
  }

  /** `closeness_centrality`: payload -> closeness, one entry per node,
      inserted in node order. */
  method ClosenessCentrality(g: Graph) returns (closeness: map<nat, real>)
    requires Valid(g)
    ensures closeness.Keys == Payloads(g, AllNodes(g))
    ensures forall u :: 0 <= u < |g.adj| ==> closeness[g.payload[u]] == ClosenessScore(g, u)
  {
    var scores := AllCloseness(g);
    closeness := KeyByPayload(g, scores);
  }

  // ---------------------------------------------------------------------
  // Properties of the score
  // ---------------------------------------------------------------------

  /** Without a neighbour `u` reaches nothing; with one it reaches at least
      that neighbour. */
  lemma ReachesIffNeighbour(g: Graph, u: nat)
    requires Valid(g) && u < |g.adj|
    ensures ReachedCount(HopDistances(g, u)) == 0 <==> g.adj[u] == []
  {
    var dist := HopDistances(g, u);
    ReachedCountIsSize(dist);
    if g.adj[u] != [] {
      var v := g.adj[u][0];
      assert v in g.adj[u];
      NeighbourAtOneHop(g, u, v);
      assert v in ReachedSet(dist);
    } else {
      forall t | t in ReachedSet(dist)
        ensures false
      {
        IsolatedReachesOnlyItself(g, u, t);
        ZeroHopsIsSource(g, u, t);
      }
      assert ReachedSet(dist) == {};
    }
  }

  /** Closeness is never negative, and it is zero exactly for a node without
      neighbours. */
  lemma ClosenessZeroIffIsolated(g: Graph, u: nat)
    requires Valid(g) && u < |g.adj|
    ensures ClosenessScore(g, u) >= 0.0
    ensures ClosenessScore(g, u) == 0.0 <==> g.adj[u] == []
  {
    var dist := HopDistances(g, u);
    ReachesIffNeighbour(g, u);
    ReachedSumBounds(dist);
    if g.adj[u] != [] {
      assert g.adj[u][0] in g.adj[u];
      assert |g.adj| >= 2;
    }
  }

  /** A node reaching every node reaches `n - 1` others. */
  lemma ReachesAllOthers(g: Graph, u: nat)
    requires Valid(g) && u < |g.adj|
    requires forall t :: 0 <= t < |g.adj| ==> HopDistance(g, u, t).Hops?
    ensures ReachedCount(HopDistances(g, u)) == |g.adj| - 1
  {
    var dist := HopDistances(g, u);
    ReachedCountIsSize(dist);
    forall t: nat | t < |g.adj|
      ensures t in ReachedSet(dist) <==> t != u
    {
      ZeroHopsIsSource(g, u, t);
    }
    assert ReachedSet(dist) == AllNodes(g) - {u};
  }

  /** When `u` reaches every node, the sum is at least `n - 1` and the score is
      at most `1`. */
  lemma ClosenessAtMostOneWhenConnected(g: Graph, u: nat)
    requires Valid(g) && u < |g.adj|
    requires forall t :: 0 <= t < |g.adj| ==> HopDistance(g, u, t).Hops?
    ensures ClosenessScore(g, u) <= 1.0
  {
    var dist := HopDistances(g, u);
    ReachesAllOthers(g, u);
    ReachedSumBounds(dist);
    var sum := ReachedSum(dist);
    if sum > 0 {
      assert (|g.adj| - 1) as real <= sum as real;
      QuotientAtMostOne((|g.adj| - 1) as real, sum as real);
    }
  }

  lemma QuotientAtMostOne(a: real, b: real)
    requires 0.0 < b && a <= b
    ensures a / b <= 1.0
  {
  }

  /** When every other node is a neighbour of `u`, the score is exactly `1`. */
  lemma ClosenessOneWhenAdjacentToAll(g: Graph, u: nat)
    requires Valid(g) && u < |g.adj| && |g.adj| >= 2
    requires forall t :: 0 <= t < |g.adj| && t != u ==> t in g.adj[u]
    ensures ClosenessScore(g, u) == 1.0
  {
    var dist := HopDistances(g, u);
    OneHopToAll(g, u);
    ReachedSumOfOnes(dist, u);
    QuotientOne((|g.adj| - 1) as real);
  }

  lemma QuotientOne(a: real)
    requires 0.0 < a
    ensures a / a == 1.0
  {
  }

  lemma OneHopToAll(g: Graph, u: nat)
    requires Valid(g) && u < |g.adj|
    requires forall t :: 0 <= t < |g.adj| && t != u ==> t in g.adj[u]
    ensures forall t :: 0 <= t < |g.adj| ==>
              HopDistance(g, u, t) == if t == u then Hops(0) else Hops(1)
  {
    forall t | 0 <= t < |g.adj|
      ensures HopDistance(g, u, t) == if t == u then Hops(0) else Hops(1)
    {
      ZeroHopsIsSource(g, u, t);
      if t != u {
        NeighbourAtOneHop(g, u, t);
      }
    }
  }

  /** A table holding `0` at `u` and `1` everywhere else sums to `|dist| - 1`. */
  lemma {:induction false} ReachedSumOfOnes(dist: seq<Dist>, u: nat)
    requires u < |dist|
    requires forall t :: 0 <= t < |dist| ==> dist[t] == if t == u then Hops(0) else Hops(1)
    ensures ReachedSum(dist) == |dist| - 1
    decreases |dist|
  {
    var init := dist[..|dist| - 1];
    if u < |dist| - 1 {
      ReachedSumOfOnes(init, u);
    } else {
      AllOnes(init);
    }
  }

  lemma {:induction false} AllOnes(dist: seq<Dist>)
    requires forall t :: 0 <= t < |dist| ==> dist[t] == Hops(1)
    ensures ReachedSum(dist) == |dist|
    decreases |dist|
  {
    if dist != [] {
      AllOnes(dist[..|dist| - 1]);
    }
  }
}
