/**
  The path graphs `0 - 1 - ... - (n-1)` the repository's tests use
  (`tests/test_centrality.rs` and `tests/test_distribution.rs`), with every
  metric worked out on them: shortest distances, closeness, betweenness and
  the two histograms.
*/
module PathGraphs {
  import opened Graphs
  import opened Distances
  import opened Distributions
  import opened Closeness
  import opened Betweenness

  /** The neighbour list of node `i` on the path with `n` nodes. */
  function PathNeighbours(i: nat, n: nat): seq<nat> {
    (if i > 0 then [i - 1] else []) + (if i + 1 < n then [i + 1] else [])
  }

  /** The path with `n` nodes; node `i` has payload `i`. */
  function PathGraph(n: nat): Graph {
    Graph(seq(n, (i: int) requires 0 <= i => PathNeighbours(i, n)),
          seq(n, (i: int) requires 0 <= i => i as nat))
  }

  /** The number of hops between two nodes of a path. */
  function Gap(s: nat, t: nat): nat {
    if s <= t then t - s else s - t
  }

  /** Each neighbour list holds the adjacent nodes, once each. */
  lemma PathNeighboursCount(i: nat, n: nat, v: nat)
    requires i < n
    ensures multiset(PathNeighbours(i, n))[v] == if v < n && Gap(i, v) == 1 then 1 else 0
    ensures v in PathNeighbours(i, n) <==> v < n && Gap(i, v) == 1
  {
  }

  /** The path is a graph the loader can build. */
  lemma PathValid(n: nat)
    ensures Valid(PathGraph(n))
  {
    var g := PathGraph(n);
    forall u, v | 0 <= u < n && 0 <= v < n
      ensures multiset(g.adj[u])[v] == multiset(g.adj[v])[u]
    {
      PathNeighboursCount(u, n, v);
      PathNeighboursCount(v, n, u);
    }
    forall u, v | 0 <= u < n && v in g.adj[u]
      ensures v < n
    {
      PathNeighboursCount(u, n, v);
    }
    forall u | 0 <= u < n
      ensures u !in g.adj[u]
    {
      PathNeighboursCount(u, n, u);
    }
    assert forall u, v :: 0 <= u < v < n ==> g.payload[u] != g.payload[v];
  }

  /** A walk moves one node along the path per hop. */
  lemma {:induction false} WalkSpan(n: nat, p: seq<nat>, s: nat, t: nat, k: nat)
    requires WalkBetween(PathGraph(n), p, s, t, k)
    ensures Gap(s, t) <= k
  {
    if k > 0 {
      var g := PathGraph(n);
      var v := p[k - 1];
      assert WalkBetween(g, p[..k], s, v, k - 1);
      WalkSpan(n, p[..k], s, v, k - 1);
      PathNeighboursCount(v, n, t);
    }
  }

  /** The walk straight along the path. */
  lemma StraightWalk(n: nat, s: nat, t: nat)
    requires s < n && t < n
    ensures HasWalk(PathGraph(n), s, t, Gap(s, t))
  {
    var g := PathGraph(n);
    if s <= t {
      var p := seq(t - s + 1, (i: int) requires 0 <= i => (s + i) as nat);
      forall i | 0 <= i < |p| - 1
        ensures p[i + 1] in g.adj[p[i]]
      {
        PathNeighboursCount(p[i], n, p[i + 1]);
      }
      assert WalkBetween(g, p, s, t, Gap(s, t));
    } else {
      var p := seq(s - t + 1, (i: int) requires 0 <= i <= s => (s - i) as nat);
      forall i | 0 <= i < |p| - 1
        ensures p[i + 1] in g.adj[p[i]]
      {
        PathNeighboursCount(p[i], n, p[i + 1]);
      }
      assert WalkBetween(g, p, s, t, Gap(s, t));
    }
  }

  /** The shortest distance between two nodes of a path is their gap. */
  lemma PathDistance(n: nat, s: nat, t: nat)
    requires s < n && t < n
    ensures HopDistance(PathGraph(n), s, t) == Hops(Gap(s, t))
  {
    var g := PathGraph(n);
    StraightWalk(n, s, t);
    forall k: nat | k < Gap(s, t) && HasWalk(g, s, t, k)
      ensures false
    {
      var p :| WalkBetween(g, p, s, t, k);
      WalkSpan(n, p, s, t, k);
    }
    HopDistanceUnique(g, s, t, Hops(Gap(s, t)));
  }

  /** The shortest distances from `u` on a path: the gaps. */
  lemma PathDistances(n: nat, u: nat)
    requires u < n
    ensures HopDistances(PathGraph(n), u) == GapTable(u, n)
  {
    forall t | 0 <= t < n
      ensures HopDistances(PathGraph(n), u)[t] == GapTable(u, n)[t]
    {
      PathDistance(n, u, t);
    }
  }

  // ---------------------------------------------------------------------
  // Closeness
  // ---------------------------------------------------------------------

  /** The gaps from `u` to the nodes `0 .. k`, as a distance table. */
  function GapTable(u: nat, k: nat): seq<Dist> {
    seq(k, (t: int) requires 0 <= t => Hops(Gap(u, t)))
  }

  /** `0 + 1 + ... + m`. */
  function Tri(m: nat): nat {
    if m == 0 then 0 else Tri(m - 1) + m
  }

  /** The gaps from `u` to the nodes `0 .. k`, summed. */
  function GapSum(u: nat, k: nat): nat {
    if k == 0 then 0 else GapSum(u, k - 1) + Gap(u, k - 1)
  }

  lemma {:induction false} GapTableSum(u: nat, k: nat)
    ensures ReachedSum(GapTable(u, k)) == GapSum(u, k)
  {
    if k > 0 {
      assert GapTable(u, k)[..k - 1] == GapTable(u, k - 1);
      GapTableSum(u, k - 1);
    }
  }

  /** The nodes before `u` are `u, u - 1, ..., u - k + 1` hops away. */
  lemma {:induction false} GapSumBefore(u: nat, k: nat)
    requires k <= u
    ensures GapSum(u, k) + Tri(u - k) == Tri(u)
  {
    if k > 0 {
      GapSumBefore(u, k - 1);
    }
  }

  /** Past `u` the gaps are `1, 2, ..., k - 1 - u`. */
  lemma {:induction false} GapSumAfter(u: nat, k: nat)
    requires u < k
    ensures GapSum(u, k) == Tri(u) + Tri(k - 1 - u)
  {
    if k == u + 1 {
      GapSumBefore(u, u);
    } else {
      GapSumAfter(u, k - 1);
    }
  }

  /** On the path with `n >= 2` nodes, node `u` has closeness
      `(n - 1) / (1 + ... + u  +  1 + ... + (n - 1 - u))`. */
  lemma PathCloseness(n: nat, u: nat)
    requires u < n
    ensures ClosenessScore(PathGraph(n), u) ==
            if n >= 2 then (n - 1) as real / (Tri(u) + Tri(n - 1 - u)) as real else 0.0
  {
    PathDistances(n, u);
    GapTableSum(u, n);
    GapSumAfter(u, n);
    if n >= 2 {
      assert Tri(u) + Tri(n - 1 - u) > 0 by {
        if u == 0 { assert Tri(n - 1) >= n - 1; }
      }
    }
  }

  /** The closeness scores of the path `0 - 1 - 2 - 3`: the ends are 1, 2
      and 3 hops from the others, the inner nodes 1, 1 and 2. */
  lemma PathFourScore(u: nat)
    requires u < 4
    ensures ClosenessScore(PathGraph(4), u) == if u == 0 || u == 3 then 0.5 else 0.75
  {
    PathCloseness(4, u);
    var sum := Tri(u) + Tri(3 - u);
    assert Tri(1) == 1 && Tri(2) == 3 && Tri(3) == 6;
    assert sum == if u == 0 || u == 3 then 6 else 4;
  }

  lemma PathFourScores(scores: seq<real>)
    requires scores == [0.5, 0.75, 0.75, 0.5]
    ensures forall u :: 0 <= u < 4 ==> ClosenessScore(PathGraph(4), u) == scores[u]
  {
    forall u | 0 <= u < 4
      ensures ClosenessScore(PathGraph(4), u) == scores[u]
    {
      PathFourScore(u);
    }
  }

  /** A map whose keys are `0 .. 4`, written out. */
  lemma FourEntries(m: map<nat, real>, scores: seq<real>)
    requires |scores| == 4
    requires forall x: nat :: x in m <==> x < 4
    requires forall u: nat :: u < 4 ==> m[u] == scores[u]
    ensures m == map[0 := scores[0], 1 := scores[1], 2 := scores[2], 3 := scores[3]]
  {
    assert m.Keys == {0, 1, 2, 3};
  }

  /** The closeness test on the path `0 - 1 - 2 - 3`: the ends score `0.5`
      and the inner nodes `0.75`. */
  method PathFourCloseness() returns (closeness: map<nat, real>)
    ensures closeness == map[0 := 0.5, 1 := 0.75, 2 := 0.75, 3 := 0.5]
  {
    PathValid(4);
    closeness := ClosenessCentrality(PathGraph(4));
    var expected := [0.5, 0.75, 0.75, 0.5];
    PathFourScores(expected);
    IndexKeyed(PathGraph(4), closeness, expected);
    FourEntries(closeness, expected);
  }

  // ---------------------------------------------------------------------
  // Betweenness
  // ---------------------------------------------------------------------

  /** `w` is the neighbour of `v` one step further from `s`. */
  predicate Outward(s: nat, v: nat, w: nat) {
    (s <= v && w == v + 1) || (v <= s && w + 1 == v)
  }

  /** The DAG from `s` points away from `s` along the path, one edge each. */
  lemma PathEdgeMult(n: nat, s: nat, v: nat, w: nat)
    requires s < n && v < n && w < n
    ensures EdgeMult(PathGraph(n), s, v, w) == if Outward(s, v, w) then 1 else 0
  {
    PathDistance(n, s, v);
    PathDistance(n, s, w);
    PathNeighboursCount(v, n, w);
  }

  /** Paths into `w` arriving only from `v0`. */
  lemma {:induction false} PathsViaSingle(g: Graph, s: nat, w: nat, v0: nat, k: nat)
    requires forall v :: 0 <= v < k && v != v0 ==> EdgeMult(g, s, v, w) == 0
    ensures PathsVia(g, s, w, k) == if v0 < k then EdgeMult(g, s, v0, w) * PathCount(g, s, v0) else 0
  {
    if k > 0 {
      PathsViaSingle(g, s, w, v0, k - 1);
      PathsViaStep(g, s, w, k);
    }
  }

  /** On a path every reached node has exactly one shortest path. */
  lemma {:induction false} PathCountOne(n: nat, s: nat, w: nat)
    requires s < n && w < n
    ensures PathCount(PathGraph(n), s, w) == 1
    decreases Gap(s, w)
  {
    var g := PathGraph(n);
    PathDistance(n, s, w);
    if w != s {
      var v0 := if s < w then w - 1 else w + 1;
      forall v | 0 <= v < n && v != v0
        ensures EdgeMult(g, s, v, w) == 0
      {
        PathEdgeMult(n, s, v, w);
      }
      PathsViaSingle(g, s, w, v0, n);
      PathEdgeMult(n, s, v0, w);
      PathCountOne(n, s, v0);
    }
  }

  /** Dependency on `v` owed to `w0` alone. */
  lemma {:induction false} DependencyViaSingle(g: Graph, s: nat, v: nat, w0: nat, k: nat)
    requires forall w :: 0 <= w < k && w != w0 ==> EdgeMult(g, s, v, w) == 0
    ensures DependencyVia(g, s, v, k) == if w0 < k then Share(g, s, v, w0) else 0.0
  {
    if k > 0 {
      DependencyViaSingle(g, s, v, w0, k - 1);
    }
  }

  /** A single DAG edge between nodes with one shortest path each passes on
      the successor's dependency plus one. */
  lemma SingleShare(g: Graph, s: nat, v: nat, w: nat)
    requires EdgeMult(g, s, v, w) == 1 && PathCount(g, s, v) == 1 && PathCount(g, s, w) == 1
    ensures Share(g, s, v, w) == 1.0 + Dependency(g, s, w)
  {
    assert Share(g, s, v, w) == Repeat(1, Credit(g, s, v, w));
  }

  /** On a path, `s` depends on `v` for exactly the nodes beyond `v`. */
  lemma {:induction false} PathDependency(n: nat, s: nat, v: nat)
    requires s < n && v < n && s != v
    ensures Dependency(PathGraph(n), s, v) == (if s < v then n - 1 - v else v) as real
    decreases if s < v then n - v else v
  {
    var g := PathGraph(n);
    var w0: nat := if s < v then v + 1 else if v > 0 then v - 1 else n;
    forall w | 0 <= w < n && w != w0
      ensures EdgeMult(g, s, v, w) == 0
    {
      PathEdgeMult(n, s, v, w);
    }
    if w0 < n {
      DependencyViaSingle(g, s, v, w0, n);
      PathEdgeMult(n, s, v, w0);
      PathCountOne(n, s, v);
      PathCountOne(n, s, w0);
      SingleShare(g, s, v, w0);
      PathDependency(n, s, w0);
      assert Dependency(g, s, v) == 1.0 + Dependency(g, s, w0);
    } else {
      NoSuccessorNoDependency(g, s, v, n);
    }
  }

  lemma {:induction false} PathBetweennessFrom(n: nat, v: nat, k: nat)
    requires v < n && k <= n
    ensures BetweennessFrom(PathGraph(n), v, k) ==
            (if k <= v then k * (n - 1 - v) else v * (n - 1 - v) + (k - 1 - v) * v) as real
  {
    if k > 0 {
      PathBetweennessFrom(n, v, k - 1);
      if k - 1 != v {
        PathDependency(n, k - 1, v);
      }
    }
  }

  /** On the path with `n` nodes, node `v` lies on `2 v (n - 1 - v)` shortest
      paths between ordered pairs of other nodes: every node before it to
      every node after it, and back. */
  lemma PathBetweenness(n: nat, v: nat)
    requires v < n
    ensures BetweennessScore(PathGraph(n), v) == (2 * v * (n - 1 - v)) as real
  {
    PathBetweennessFrom(n, v, n);
  }

  /** The betweenness test on the path `0 - 1 - 2 - 3`: the ends score 0 and
      the inner nodes 4, counting ordered pairs. */
  lemma PathFourBetweennessScore(u: nat)
    requires u < 4
    ensures BetweennessScore(PathGraph(4), u) == if u == 0 || u == 3 then 0.0 else 4.0
  {
    if u == 0 {
      PathBetweenness(4, 0);
    } else if u == 1 {
      PathBetweenness(4, 1);
    } else if u == 2 {
      PathBetweenness(4, 2);
    } else {
      PathBetweenness(4, 3);
    }
  }

  lemma PathFourBetweennessScores(scores: seq<real>)
    requires scores == [0.0, 4.0, 4.0, 0.0]
    ensures forall u :: 0 <= u < 4 ==> BetweennessScore(PathGraph(4), u) == scores[u]
  {
    forall u | 0 <= u < 4
      ensures BetweennessScore(PathGraph(4), u) == scores[u]
    {
      PathFourBetweennessScore(u);
    }
  }

  method PathFourBetweenness() returns (betweenness: map<nat, real>)
    ensures betweenness == map[0 := 0.0, 1 := 4.0, 2 := 4.0, 3 := 0.0]
  {
    PathValid(4);
    betweenness := BetweennessCentrality(PathGraph(4));
    var expected := [0.0, 4.0, 4.0, 0.0];
    PathFourBetweennessScores(expected);
    IndexKeyed(PathGraph(4), betweenness, expected);
    FourEntries(betweenness, expected);
  }

  // ---------------------------------------------------------------------
  // Histograms
  // ---------------------------------------------------------------------

  /** The nodes exactly two hops from `u` on a path: `u - 2` and `u + 2`,
      when they exist. */
  lemma PathTwoHop(n: nat, u: nat)
    requires u < n
    ensures AtLevel(HopDistances(PathGraph(n), u), 2) ==
            (if u >= 2 then {u - 2} else {}) + (if u + 2 < n then {u + 2} else {})
  {
    PathDistances(n, u);
  }

  /** Degrees `1, 2, 1`: two nodes of degree 1, one of degree 2. */
  lemma PathThreeDegreeCounts()
    ensures Degrees(PathGraph(3)) == [1, 2, 1]
    ensures IsHistogramOf(map[1 := 2, 2 := 1], [1, 2, 1])
  {
    assert multiset([1, 2, 1]) == multiset{1, 1, 2};
  }

  /** The degree histogram test on the path `0 - 1 - 2`. */
  method PathThreeDegrees() returns (h: map<nat, nat>)
    ensures h == map[1 := 2, 2 := 1]
  {
    h := DegreeDistribution(PathGraph(3));
    PathThreeDegreeCounts();
    HistogramUnique(h, map[1 := 2, 2 := 1], [1, 2, 1]);
  }

  /** Two-hop counts `1, 0, 1`: the ends see each other two hops away. */
  lemma PathThreeTwoHopCounts()
    ensures TwoHopCounts(PathGraph(3)) == [1, 0, 1]
    ensures IsHistogramOf(map[0 := 1, 1 := 2], [1, 0, 1])
  {
    forall u | 0 <= u < 3
      ensures TwoHopCounts(PathGraph(3))[u] == [1, 0, 1][u]
    {
      PathTwoHop(3, u);
    }
    assert multiset([1, 0, 1]) == multiset{0, 1, 1};
  }

  /** The two-hop histogram test on the path `0 - 1 - 2`. */
  method PathThreeTwoHops() returns (h: map<nat, nat>)
    ensures h == map[0 := 1, 1 := 2]
  {
    PathValid(3);
    h := TwoHopDistribution(PathGraph(3));
    PathThreeTwoHopCounts();
    HistogramUnique(h, map[0 := 1, 1 := 2], [1, 0, 1]);
  }
}
