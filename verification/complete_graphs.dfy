/**
  Complete graphs, where every node is a neighbour of every other: the
  triangle of `tests/test_centrality.rs` and the k-cliques on which the
  densest-subgraph peeling keeps every node.
*/
module CompleteGraphs {
  import opened Graphs
  import opened Distances
  import opened Closeness
  import opened Betweenness
  import opened Peeling

  /** The nodes below `k` other than `i`, in increasing order. */
  function Others(i: nat, k: nat): seq<nat> {
    if k == 0 then []
    else
      var j: nat := k - 1;
      if j == i then Others(i, j) else Others(i, j) + [j]
  }

  /** The complete graph on `n` nodes; node `i` has payload `i`. */
  function CompleteGraph(n: nat): Graph {
    Graph(seq(n, (i: int) requires 0 <= i => Others(i, n)),
          seq(n, (i: int) requires 0 <= i => i as nat))
  }

  /** Every other node below `k` occurs once. */
  lemma OthersCount(i: nat, k: nat, v: nat)
    ensures multiset(Others(i, k))[v] == if v < k && v != i then 1 else 0
    ensures v in Others(i, k) <==> v < k && v != i
  {
    OthersMultiplicity(i, k, v);
    assert v in Others(i, k) <==> v in multiset(Others(i, k));
  }

  lemma {:induction false} OthersMultiplicity(i: nat, k: nat, v: nat)
    ensures multiset(Others(i, k))[v] == if v < k && v != i then 1 else 0
  {
    if k > 0 {
      var j: nat := k - 1;
      OthersMultiplicity(i, j, v);
      if j != i {
        var prev := Others(i, j);
        assert Others(i, k) == prev + [j];
        assert multiset(prev + [j]) == multiset(prev) + multiset{j};
      }
    }
  }

  /** The complete graph is a graph the loader can build. */
  lemma CompleteValid(n: nat)
    ensures Valid(CompleteGraph(n))
  {
    var g := CompleteGraph(n);
    forall u, v | 0 <= u < n && 0 <= v < n
      ensures multiset(g.adj[u])[v] == multiset(g.adj[v])[u]
    {
      OthersCount(u, n, v);
      OthersCount(v, n, u);
    }
    forall u, v | 0 <= u < n && v in g.adj[u]
      ensures v < n
    {
      OthersCount(u, n, v);
    }
    forall u | 0 <= u < n
      ensures u !in g.adj[u]
    {
      OthersCount(u, n, u);
    }
    assert forall u, v :: 0 <= u < v < n ==> g.payload[u] != g.payload[v];
  }

  lemma AdjacentToAll(n: nat, u: nat)
    requires u < n
    ensures forall t :: 0 <= t < n && t != u ==> t in CompleteGraph(n).adj[u]
  {
    forall t | 0 <= t < n && t != u
      ensures t in CompleteGraph(n).adj[u]
    {
      OthersCount(u, n, t);
    }
  }

  // ---------------------------------------------------------------------
  // Centralities
  // ---------------------------------------------------------------------

  /** Every node of a complete graph with at least two nodes has closeness 1. */
  lemma CompleteCloseness(n: nat, u: nat)
    requires 2 <= n && u < n
    ensures ClosenessScore(CompleteGraph(n), u) == 1.0
  {
    CompleteValid(n);
    AdjacentToAll(n, u);
    ClosenessOneWhenAdjacentToAll(CompleteGraph(n), u);
  }

  /** Every node is one hop from the source, so the shortest-path DAG has no
      edge out of a node other than the source. */
  lemma CompleteNoDependency(n: nat, s: nat, v: nat)
    requires s < n && v < n && s != v
    ensures Dependency(CompleteGraph(n), s, v) == 0.0
  {
    var g := CompleteGraph(n);
    CompleteValid(n);
    AdjacentToAll(n, s);
    OneHopToAll(g, s);
    forall w | 0 <= w < n
      ensures EdgeMult(g, s, v, w) == 0
    {
    }
    NoSuccessorNoDependency(g, s, v, n);
  }

  lemma {:induction false} CompleteBetweennessFrom(n: nat, v: nat, k: nat)
    requires v < n && k <= n
    ensures BetweennessFrom(CompleteGraph(n), v, k) == 0.0
  {
    if k > 0 {
      CompleteBetweennessFrom(n, v, k - 1);
      if k - 1 != v {
        CompleteNoDependency(n, k - 1, v);
      }
    }
  }

  /** No node of a complete graph lies between two others. */
  lemma CompleteBetweenness(n: nat, v: nat)
    requires v < n
    ensures BetweennessScore(CompleteGraph(n), v) == 0.0
  {
    CompleteBetweennessFrom(n, v, n);
  }

  /** A map whose keys are `0 .. 3`, written out. */
  lemma ThreeEntries(m: map<nat, real>, scores: seq<real>)
    requires |scores| == 3
    requires forall x: nat :: x in m <==> x < 3
    requires forall u: nat :: u < 3 ==> m[u] == scores[u]
    ensures m == map[0 := scores[0], 1 := scores[1], 2 := scores[2]]
  {
    assert m.Keys == {0, 1, 2};
  }

  lemma TrianglePayloads()
    ensures forall u :: 0 <= u < |CompleteGraph(3).adj| ==> CompleteGraph(3).payload[u] == u
  {
  }

  /** The closeness test on the triangle: every node scores 1. */
  method TriangleCloseness() returns (closeness: map<nat, real>)
    ensures closeness == map[0 := 1.0, 1 := 1.0, 2 := 1.0]
  {
    CompleteValid(3);
    closeness := ClosenessCentrality(CompleteGraph(3));
    var expected := [1.0, 1.0, 1.0];
    forall u | 0 <= u < 3
      ensures ClosenessScore(CompleteGraph(3), u) == expected[u]
    {
      CompleteCloseness(3, u);
    }
    TrianglePayloads();
    IndexKeyed(CompleteGraph(3), closeness, expected);
    ThreeEntries(closeness, expected);
  }

  /** The betweenness test on the triangle: every node scores 0. */
  method TriangleBetweenness() returns (betweenness: map<nat, real>)
    ensures betweenness == map[0 := 0.0, 1 := 0.0, 2 := 0.0]
  {
    CompleteValid(3);
    betweenness := BetweennessCentrality(CompleteGraph(3));
    var expected := [0.0, 0.0, 0.0];
    forall u | 0 <= u < 3
      ensures BetweennessScore(CompleteGraph(3), u) == expected[u]
    {
      CompleteBetweenness(3, u);
    }
    TrianglePayloads();
    IndexKeyed(CompleteGraph(3), betweenness, expected);
    ThreeEntries(betweenness, expected);
  }

  // ---------------------------------------------------------------------
  // Densest subgraph
  // ---------------------------------------------------------------------

  /** The members of `r` below `k`, counted. */
  function InBelow(r: set<nat>, k: nat): nat {
    if k == 0 then 0 else InBelow(r, k - 1) + (if k - 1 in r then 1 else 0)
  }

  lemma {:induction false} InBelowIsSize(r: set<nat>, k: nat)
    ensures InBelow(r, k) == |set x | x in r && x < k|
  {
    if k > 0 {
      InBelowIsSize(r, k - 1);
      var below := set x | x in r && x < k - 1;
      assert (set x | x in r && x < k) == below + (if k - 1 in r then {k - 1} else {});
    }
  }

  /** Counting the members of `r` in the list of nodes other than `i`. */
  lemma {:induction false} OthersCountIn(i: nat, k: nat, r: set<nat>)
    ensures CountIn(Others(i, k), r) == InBelow(r, k) - (if i < k && i in r then 1 else 0)
  {
    if k > 0 {
      var j: nat := k - 1;
      OthersCountIn(i, j, r);
      if j != i {
        var xs := Others(i, k);
        assert xs[..|xs| - 1] == Others(i, j);
      }
    }
  }

  /** In a complete graph every member of a node set `r` has all the other
      members of `r` as neighbours. */
  lemma CompleteDegreeIn(n: nat, u: nat, r: set<nat>)
    requires u < n && u in r && forall v :: v in r ==> v < n
    ensures DegreeIn(CompleteGraph(n), u, r) == |r| - 1
  {
    OthersCountIn(u, n, r);
    InBelowIsSize(r, n);
    assert (set x | x in r && x < n) == r;
  }

  lemma {:induction false} CompleteDegreeSum(n: nat, r: set<nat>, k: nat)
    requires k <= n && forall v :: v in r ==> v < n
    ensures DegreeSum(CompleteGraph(n), r, k) == InBelow(r, k) * (|r| - 1)
  {
    if k > 0 {
      CompleteDegreeSum(n, r, k - 1);
      if k - 1 in r {
        CompleteDegreeIn(n, k - 1, r);
      }
    }
  }

  /** `m (m - 1) / 2` edges over `m` nodes. */
  lemma CliqueRatio(e: nat, m: nat)
    requires 0 < m && 2 * e == m * (m - 1)
    ensures e as real / m as real == (m - 1) as real / 2.0
  {
    assert (2 * e) as real == m as real * (m - 1) as real;
  }

  /** Every non-empty node set of a complete graph has density
      `(|r| - 1) / 2`. */
  lemma CliqueDensity(n: nat, r: set<nat>)
    requires r != {} && forall v :: v in r ==> v < n
    ensures Density(CompleteGraph(n), r) == (|r| - 1) as real / 2.0
  {
    var g := CompleteGraph(n);
    CompleteValid(n);
    DegreeSumHalves(g, r);
    CompleteDegreeSum(n, r, n);
    InBelowIsSize(r, n);
    assert (set x | x in r && x < n) == r;
    CliqueRatio(EdgesWithin(g, r), |r|);
  }

  /** In a k-clique with `k >= 2`, the only node set at least as dense as
      the whole graph is the whole graph, of density `(k - 1) / 2`: every
      smaller set is sparser. */
  lemma CliqueDensest(n: nat, r: set<nat>)
    requires 2 <= n && r <= AllNodes(CompleteGraph(n))
    requires Density(CompleteGraph(n), AllNodes(CompleteGraph(n))) <= Density(CompleteGraph(n), r)
    ensures r == AllNodes(CompleteGraph(n))
    ensures Density(CompleteGraph(n), r) == (n - 1) as real / 2.0
  {
    var all := AllNodes(CompleteGraph(n));
    CliqueDensity(n, all);
    assert r != {};
    CliqueDensity(n, r);
    assert |r| >= |all|;
    SubsetSameSize(r, all);
  }

  lemma SubsetSameSize(r: set<nat>, s: set<nat>)
    requires r <= s && |r| >= |s|
    ensures r == s
  {
    if r != s {
      var x :| x in s && x !in r;
      SubsetSize(r, s - {x});
    }
  }

  lemma {:induction false} SubsetSize(a: set<nat>, b: set<nat>)
    requires a <= b
    ensures |a| <= |b|
    decreases |a|
  {
    if a != {} {
      var x :| x in a;
      SubsetSize(a - {x}, b - {x});
    }
  }

  /** `densest_subgraph_peel` on a k-clique returns all `k` nodes with density
      `(k - 1) / 2`. */
  method CliquePeel(n: nat) returns (res: SubgraphResult)
    requires 2 <= n
    ensures forall x: nat :: x in res.nodes <==> x < n
    ensures res.density == (n - 1) as real / 2.0
  {
    CompleteValid(n);
    ghost var rounds, removed;
    res, rounds, removed := DensestSubgraphPeel(CompleteGraph(n));
    ghost var all := AllNodes(CompleteGraph(n));
    CliqueDensity(n, all);
    ghost var r :| r <= all && Density(CompleteGraph(n), r) == res.density
             && res.nodes == Payloads(CompleteGraph(n), r);
    CliqueDensest(n, r);
    CliquePayloads(n);
  }

  lemma CliquePayloads(n: nat)
    ensures forall x: nat :: x in Payloads(CompleteGraph(n), AllNodes(CompleteGraph(n))) <==> x < n
  {
    var g := CompleteGraph(n);
    forall x: nat | x < n
      ensures x in Payloads(g, AllNodes(g))
    {
      assert g.payload[x] == x;
    }
  }
}
