/**
  The degree histogram and the two-hop histogram (`graph_analysis.rs`,
  lines 116-157).  A histogram maps an observed value to the number of nodes
  that show it; it is a `map` because the source returns a hash map whose
  iteration order carries no meaning.
*/
module Distributions {
  import opened Graphs
  import opened Distances

  // ---------------------------------------------------------------------
  // Histograms
  // ---------------------------------------------------------------------

  /** `h` maps each value occurring in `xs` to its number of occurrences, and
      has no other keys. */
  ghost predicate IsHistogramOf(h: map<nat, nat>, xs: seq<nat>) {
    && (forall k :: k in h <==> k in xs)
    && (forall k :: k in h ==> h[k] == multiset(xs)[k])
  }

  /** The sum of a histogram's counts. */
  ghost function SumValues(h: map<nat, nat>): nat
    decreases |h|
  {
    if h == map[] then 0
    else
      var k :| k in h;
      assert (h - {k}).Keys == h.Keys - {k};
      h[k] + SumValues(h - {k})
  }

  lemma {:induction false} SumValuesRemove(h: map<nat, nat>, k: nat)
    requires k in h
    ensures SumValues(h) == h[k] + SumValues(h - {k})
    decreases |h|
  {
    var j :| j in h && SumValues(h) == h[j] + SumValues(h - {j});
    if j != k {
      assert (h - {j}).Keys == h.Keys - {j};
      assert (h - {k}).Keys == h.Keys - {k};
      SumValuesRemove(h - {j}, k);
      SumValuesRemove(h - {k}, j);
      assert h - {j} - {k} == h - {k} - {j};
    }
  }

  /** One more observation of `x`. */
  lemma HistogramAdd(h: map<nat, nat>, xs: seq<nat>, x: nat)
    requires IsHistogramOf(h, xs)
    ensures IsHistogramOf(h[x := (if x in h then h[x] else 0) + 1], xs + [x])
  {
    assert multiset(xs + [x]) == multiset(xs) + multiset{x};
  }

  /** The observations determine their histogram. */
  lemma HistogramUnique(h: map<nat, nat>, h': map<nat, nat>, xs: seq<nat>)
    requires IsHistogramOf(h, xs) && IsHistogramOf(h', xs)
    ensures h == h'
  {
    assert h.Keys == h'.Keys;
  }

  /** Every observation lands in exactly one bucket, so the counts add up to
      the number of observations. */
  lemma {:induction false} HistogramTotal(h: map<nat, nat>, xs: seq<nat>)
    requires IsHistogramOf(h, xs)
    ensures SumValues(h) == |xs|
    decreases |xs|
  {
    if xs == [] {
      assert h.Keys == {};
    } else {
      var x := xs[|xs| - 1];
      var init := xs[..|xs| - 1];
      assert xs == init + [x];
      HistogramDrop(h, init, x);
      SumValuesRemove(h, x);
      if h[x] == 1 {
        HistogramTotal(h - {x}, init);
      } else {
        var h' := h[x := h[x] - 1];
        HistogramTotal(h', init);
        SumValuesRemove(h', x);
        assert h' - {x} == h - {x};
      }
    }
  }

  /** Taking back the last observation `x`: its bucket loses one count, and
      disappears when that was its only one. */
  lemma HistogramDrop(h: map<nat, nat>, xs: seq<nat>, x: nat)
    requires IsHistogramOf(h, xs + [x])
    ensures x in h && h[x] >= 1
    ensures IsHistogramOf(if h[x] == 1 then h - {x} else h[x := h[x] - 1], xs)
  {
    assert multiset(xs + [x]) == multiset(xs) + multiset{x};
    assert x in xs + [x];
  }

  // ---------------------------------------------------------------------
  // Degree histogram
  // ---------------------------------------------------------------------

  /** Every node's degree (neighbour-list length, parallel edges included). */
  function Degrees(g: Graph): (r: seq<nat>)
    ensures |r| == |g.adj|
    ensures forall u :: 0 <= u < |g.adj| ==> r[u] == |g.adj[u]|
  {
    seq(|g.adj|, (u: int) requires 0 <= u < |g.adj| => |g.adj[u]|)
  }

  /** `degree_distribution`: degree -> number of nodes with that degree. */
  method DegreeDistribution(g: Graph) returns (h: map<nat, nat>)
    ensures IsHistogramOf(h, Degrees(g))
    ensures SumValues(h) == |g.adj|
  {
    h := map[];
    ghost var degrees := Degrees(g);
    for u := 0 to |g.adj|
      invariant IsHistogramOf(h, degrees[..u])
    {
      var deg := |g.adj[u]|;
      HistogramAdd(h, degrees[..u], deg);
      h := h[deg := (if deg in h then h[deg] else 0) + 1];
      assert degrees[..u + 1] == degrees[..u] + [deg];
    }
    assert degrees[..|g.adj|] == degrees;
    HistogramTotal(h, degrees);
  }

  // ---------------------------------------------------------------------
  // Two-hop histogram
  // ---------------------------------------------------------------------

  /** The nodes whose entry in `dist` is exactly `k` hops. */
  function AtLevel(dist: seq<Dist>, k: nat): set<nat> {
    set t: nat | t < |dist| && dist[t] == Hops(k)
  }

  /** How many entries of `dist` are exactly `k` hops (the source's
      `filter(|&&d| d == k).count()`). */
  function CountAt(dist: seq<Dist>, k: nat): (r: nat)
    ensures r == |AtLevel(dist, k)|
  {
    if dist == [] then 0
    else
      var init := dist[..|dist| - 1];
      var r' := CountAt(init, k);
      var last := |dist| - 1;
      assert last !in AtLevel(init, k);
      assert AtLevel(dist, k) == AtLevel(init, k) + (if dist[last] == Hops(k) then {last} else {});
      r' + (if dist[last] == Hops(k) then 1 else 0)
  }

  /** The number of nodes at shortest distance exactly 2 from `u`. */
  ghost function TwoHopCount(g: Graph, u: nat): nat {
    |AtLevel(HopDistances(g, u), 2)|
  }

  ghost function TwoHopCounts(g: Graph): (r: seq<nat>)
    ensures |r| == |g.adj|
  {
    seq(|g.adj|, (u: int) requires 0 <= u => TwoHopCount(g, u))
  }

  /** Walks of at most two hops, spelled out. */
  lemma ShortWalks(g: Graph, u: nat, t: nat)
    requires Valid(g) && u < |g.adj| && t < |g.adj|
    ensures HasWalk(g, u, t, 0) <==> t == u
    ensures HasWalk(g, u, t, 1) <==> t in g.adj[u]
    ensures HasWalk(g, u, t, 2) <==> exists v :: v in g.adj[u] && t in g.adj[v]
  {
    if t == u {
      assert WalkBetween(g, [u], u, t, 0);
    }
    if t in g.adj[u] {
      assert WalkBetween(g, [u, t], u, t, 1);
    }
    if HasWalk(g, u, t, 1) {
      var p :| WalkBetween(g, p, u, t, 1);
      assert p[1] in g.adj[p[0]];
    }
    if HasWalk(g, u, t, 2) {
      var p :| WalkBetween(g, p, u, t, 2);
      assert p[1] in g.adj[u] && t in g.adj[p[1]];
    }
    if exists v :: v in g.adj[u] && t in g.adj[v] {
      var v :| v in g.adj[u] && t in g.adj[v];
      assert v < |g.adj|;
      assert WalkBetween(g, [u, v, t], u, t, 2);
    }
  }

  /** "Exactly two hops" means: not the node itself, not a neighbour, but a
      neighbour of a neighbour. */
  lemma TwoHopIff(g: Graph, u: nat, t: nat)
    requires Valid(g) && u < |g.adj| && t < |g.adj|
    ensures HopDistance(g, u, t) == Hops(2) <==>
            t != u && t !in g.adj[u] && exists v :: v in g.adj[u] && t in g.adj[v]
  {
    ShortWalks(g, u, t);
    if t != u && t !in g.adj[u] && exists v :: v in g.adj[u] && t in g.adj[v] {
      forall k: nat | k < 2
        ensures !HasWalk(g, u, t, k)
      {
      }
      HopDistanceUnique(g, u, t, Hops(2));
    }
  }

  /** `two_hop_distribution`: for every node, a BFS and a count of the nodes
      at distance exactly 2; then the histogram of those counts. */
  method TwoHopDistribution(g: Graph) returns (h: map<nat, nat>)
    requires Valid(g)
    ensures IsHistogramOf(h, TwoHopCounts(g))
    ensures SumValues(h) == |g.adj|
  {
    h := map[];
    ghost var counts := TwoHopCounts(g);
    for u := 0 to |g.adj|
      invariant IsHistogramOf(h, counts[..u])
    {
      var dist, _ := Bfs(g, u);
      var twoHop := CountAt(dist, 2);
      assert twoHop == counts[u];
      HistogramAdd(h, counts[..u], twoHop);
      h := h[twoHop := (if twoHop in h then h[twoHop] else 0) + 1];
      assert counts[..u + 1] == counts[..u] + [twoHop];
    }
    assert counts[..|g.adj|] == counts;
    HistogramTotal(h, counts);
  }
}
