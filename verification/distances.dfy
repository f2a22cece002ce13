/**
  Hop distances from one start node.

  The declarative side defines the shortest hop distance as the least length
  of a walk along neighbour lists.  The operational side is the FIFO
  breadth-first search that the metrics engine runs from every source (the
  same loop is written out three times in `graph_analysis.rs` and a fourth
  time, extended, in Brandes' forward phase).  The loop invariant `BfsState`
  and the lemmas that step it are shared by `Bfs` here and by the forward
  phase in module `Betweenness`.
*/
module Distances {
  import opened Graphs

  /** A hop count, or the mark of a node not reached from the source (the
      source writes `usize::MAX`, and `-1` in Brandes' forward phase). */
  datatype Dist = Unreached | Hops(d: nat)

  // ---------------------------------------------------------------------
  // Declarative specification
  // ---------------------------------------------------------------------

  /** `p` is a walk: a non-empty node sequence in which each node is a
      neighbour of the one before it. */
  ghost predicate IsWalk(g: Graph, p: seq<nat>) {
    && |p| >= 1
    && (forall i :: 0 <= i < |p| ==> p[i] < |g.adj|)
    && (forall i :: 0 <= i < |p| - 1 ==> p[i + 1] in g.adj[p[i]])
  }

  /** `p` is a walk of `k` hops from `s` to `t`. */
  ghost predicate WalkBetween(g: Graph, p: seq<nat>, s: nat, t: nat, k: nat) {
    IsWalk(g, p) && |p| == k + 1 && p[0] == s && p[k] == t
  }

  ghost predicate HasWalk(g: Graph, s: nat, t: nat, k: nat) {
    exists p :: WalkBetween(g, p, s, t, k)
  }

  /** `r` is the shortest hop distance from `s` to `t`: the least walk
      length, or `Unreached` when no walk exists. */
  ghost predicate IsHopDistance(g: Graph, s: nat, t: nat, r: Dist) {
    match r
    case Unreached => forall k: nat :: !HasWalk(g, s, t, k)
    case Hops(d) => HasWalk(g, s, t, d) && forall k: nat :: k < d ==> !HasWalk(g, s, t, k)
  }

  lemma {:induction false} LeastWalk(g: Graph, s: nat, t: nat, k: nat)
    requires HasWalk(g, s, t, k)
    ensures exists d: nat :: d <= k && HasWalk(g, s, t, d) &&
                             forall j: nat :: j < d ==> !HasWalk(g, s, t, j)
  {
    if exists j: nat :: j < k && HasWalk(g, s, t, j) {
      var j: nat :| j < k && HasWalk(g, s, t, j);
      LeastWalk(g, s, t, j);
    }
  }

  /** The shortest hop distance from `s` to `t`. */
  ghost function HopDistance(g: Graph, s: nat, t: nat): Dist {
    if exists k: nat :: HasWalk(g, s, t, k) then
      var k: nat :| HasWalk(g, s, t, k);
      LeastWalk(g, s, t, k);
      var d: nat :| HasWalk(g, s, t, d) && forall j: nat :: j < d ==> !HasWalk(g, s, t, j);
      Hops(d)
    else
      Unreached
  }

  /** `HopDistance` is the least walk length, or `Unreached` when there is no
      walk at all. */
  lemma HopDistanceIsShortest(g: Graph, s: nat, t: nat)
    ensures IsHopDistance(g, s, t, HopDistance(g, s, t))
  {
  }

  /** The distance table from `s`, indexed by node. */
  ghost function HopDistances(g: Graph, s: nat): (r: seq<Dist>)
    ensures |r| == |g.adj|
    ensures forall t :: 0 <= t < |g.adj| ==> r[t] == HopDistance(g, s, t)
  {
    seq(|g.adj|, (t: int) requires 0 <= t => HopDistance(g, s, t))
  }

  lemma HopDistanceUnique(g: Graph, s: nat, t: nat, r: Dist)
    requires IsHopDistance(g, s, t, r)
    ensures HopDistance(g, s, t) == r
  {
    HopDistanceIsShortest(g, s, t);
  }

  /** Distance 0 is the source itself and nothing else. */
  lemma ZeroHopsIsSource(g: Graph, s: nat, t: nat)
    requires s < |g.adj|
    ensures HopDistance(g, s, t) == Hops(0) <==> t == s
  {
    if t == s {
      assert WalkBetween(g, [s], s, s, 0);
      HopDistanceUnique(g, s, s, Hops(0));
    }
  }

  /** A neighbour is one hop away. */
  lemma NeighbourAtOneHop(g: Graph, s: nat, t: nat)
    requires Valid(g) && s < |g.adj| && t in g.adj[s]
    ensures HopDistance(g, s, t) == Hops(1)
  {
    assert t < |g.adj| && t != s;
    assert WalkBetween(g, [s, t], s, t, 1);
    HopDistanceUnique(g, s, t, Hops(1));
  }

  /** The second node of a walk of at least one hop is a neighbour of the first. */
  lemma FirstStep(g: Graph, p: seq<nat>, s: nat, t: nat, k: nat)
    requires WalkBetween(g, p, s, t, k) && k > 0
    ensures p[1] in g.adj[s]
  {
  }

  /** A walk that leaves `s` starts with a neighbour of `s`: a node without
      neighbours reaches only itself. */
  lemma IsolatedReachesOnlyItself(g: Graph, s: nat, t: nat)
    requires s < |g.adj| && g.adj[s] == []
    ensures HopDistance(g, s, t).Hops? ==> t == s
  {
    HopDistanceIsShortest(g, s, t);
    if HopDistance(g, s, t).Hops? {
      var k := HopDistance(g, s, t).d;
      var p :| WalkBetween(g, p, s, t, k);
      if k > 0 {
        FirstStep(g, p, s, t, k);
        assert false;
      }
    }
  }

  lemma WalkExtend(g: Graph, s: nat, u: nat, k: nat, w: nat)
    requires HasWalk(g, s, u, k) && u < |g.adj| && w in g.adj[u] && w < |g.adj|
    ensures HasWalk(g, s, w, k + 1)
  {
    var p :| WalkBetween(g, p, s, u, k);
    assert WalkBetween(g, p + [w], s, w, k + 1);
  }

  /** A node `d > 0` hops from `s` has a neighbour `d - 1` hops from `s`
      listing it: the last hop of a shortest walk. */
  lemma LevelPredecessor(g: Graph, s: nat, w: nat, d: nat)
    requires HopDistance(g, s, w) == Hops(d) && d > 0
    ensures exists v :: 0 <= v < |g.adj| && w in g.adj[v] && HopDistance(g, s, v) == Hops(d - 1)
  {
    HopDistanceIsShortest(g, s, w);
    var p :| WalkBetween(g, p, s, w, d);
    var v := p[d - 1];
    assert WalkBetween(g, p[..d], s, v, d - 1);
    forall k: nat | k < d - 1 && HasWalk(g, s, v, k)
      ensures false
    {
      WalkExtend(g, s, v, k, w);
    }
    HopDistanceUnique(g, s, v, Hops(d - 1));
    assert w in g.adj[v];
  }

  // ---------------------------------------------------------------------
  // The breadth-first search loop
  // ---------------------------------------------------------------------

  /** Number of entries still marked unreached. */
  function UnreachedCount(dist: seq<Dist>): nat {
    if dist == [] then 0
    else (if dist[0].Unreached? then 1 else 0) + UnreachedCount(dist[1..])
  }

  lemma {:induction false} UnreachedCountMark(dist: seq<Dist>, w: nat, x: nat)
    requires w < |dist| && dist[w].Unreached?
    ensures UnreachedCount(dist[w := Hops(x)]) + 1 == UnreachedCount(dist)
  {
    if w > 0 {
      assert dist[w := Hops(x)][1..] == dist[1..][w - 1 := Hops(x)];
      UnreachedCountMark(dist[1..], w - 1, x);
    } else {
      assert dist[w := Hops(x)][1..] == dist[1..];
    }
  }

  lemma {:induction false} AllUnreachedCount(n: nat)
    ensures UnreachedCount(seq(n, _ => Unreached)) == n
  {
    if n > 0 {
      assert seq(n, _ => Unreached)[1..] == seq(n - 1, _ => Unreached);
      AllUnreachedCount(n - 1);
    }
  }

  /** The first `j` entries of `v`'s neighbour list have been scanned: each is
      reached, at most one hop further from the source than `v`. */
  ghost predicate ScannedUpTo(g: Graph, dist: seq<Dist>, v: nat, j: nat) {
    && v < |g.adj| && v < |dist| && j <= |g.adj[v]| && dist[v].Hops?
    && forall w :: w in g.adj[v][..j] ==>
         w < |dist| && dist[w].Hops? && dist[w].d <= dist[v].d + 1
  }

  /** The nodes pushed so far are exactly the reached ones, each pushed once,
      the source first. */
  ghost predicate Pushed(g: Graph, s: nat, dist: seq<Dist>, order: seq<nat>) {
    && s < |g.adj| && |dist| == |g.adj|
    && 0 < |order| && order[0] == s
    && dist[s] == Hops(0)
    && (forall i :: 0 <= i < |order| ==> order[i] < |g.adj| && dist[order[i]].Hops?)
    && (forall v :: 0 <= v < |dist| && dist[v].Hops? ==> v in order)
    && (forall i, k :: 0 <= i < k < |order| ==> order[i] != order[k])
    && |order| + UnreachedCount(dist) == |g.adj|
  }

  /** The push order is sorted by distance and the queue `order[head..]`
      spans at most one level. */
  ghost predicate Layered(g: Graph, s: nat, dist: seq<Dist>, order: seq<nat>, head: nat)
    requires Pushed(g, s, dist, order)
  {
    && head <= |order|
    && (forall i, k :: 0 <= i <= k < |order| ==> dist[order[i]].d <= dist[order[k]].d)
    && (head < |order| ==> dist[order[|order| - 1]].d <= dist[order[head]].d + 1)
  }

  /** Each recorded distance is the length of some walk from `s`. */
  ghost predicate Witnessed(g: Graph, s: nat, dist: seq<Dist>) {
    forall v :: 0 <= v < |dist| && dist[v].Hops? ==> HasWalk(g, s, v, dist[v].d)
  }

  /** The popped nodes `order[..head]` are fully scanned and the current node
      `order[head]` is scanned up to neighbour `j`. */
  ghost predicate Scanned(g: Graph, dist: seq<Dist>, order: seq<nat>, head: nat, j: nat)
    requires head <= |order|
    requires forall i :: 0 <= i < |order| ==> order[i] < |g.adj|
  {
    && (forall i :: 0 <= i < head ==> ScannedUpTo(g, dist, order[i], |g.adj[order[i]]|))
    && (head < |order| ==> ScannedUpTo(g, dist, order[head], j))
    && (head == |order| ==> j == 0)
  }

  /** The state of the search from `s` while the node `order[head]` is being
      scanned up to neighbour `j`.  `order` is every node ever pushed, in push
      order; the FIFO queue is `order[head..]` and the nodes popped so far are
      `order[..head]`. */
  ghost predicate BfsState(g: Graph, s: nat, dist: seq<Dist>, order: seq<nat>, head: nat, j: nat) {
    && Pushed(g, s, dist, order)
    && Layered(g, s, dist, order, head)
    && Witnessed(g, s, dist)
    && Scanned(g, dist, order, head, j)
  }

  function InitialDist(n: nat, s: nat): (dist: seq<Dist>)
    requires s < n
    ensures |dist| == n && dist[s] == Hops(0)
    ensures forall v :: 0 <= v < n && v != s ==> dist[v] == Unreached
  {
    seq(n, _ => Unreached)[s := Hops(0)]
  }

  lemma BfsInit(g: Graph, s: nat)
    requires Valid(g) && s < |g.adj|
    ensures BfsState(g, s, InitialDist(|g.adj|, s), [s], 0, 0)
  {
    var dist := InitialDist(|g.adj|, s);
    AllUnreachedCount(|g.adj|);
    UnreachedCountMark(seq(|g.adj|, _ => Unreached), s, 0);
    assert WalkBetween(g, [s], s, s, 0);
    forall v | 0 <= v < |dist| && dist[v].Hops?
      ensures v in [s] && HasWalk(g, s, v, dist[v].d)
    {
      assert v == s;
    }
  }

  /** The state a discovery leads to: `w` gets distance `d` and is pushed. */
  ghost predicate DiscoveryStep(g: Graph, dist: seq<Dist>, order: seq<nat>, head: nat, j: nat,
                                dist': seq<Dist>, order': seq<nat>)
  {
    && head < |order| && order[head] < |g.adj| && order[head] < |dist| && dist[order[head]].Hops?
    && j < |g.adj[order[head]]|
    && var w := g.adj[order[head]][j];
       && w < |dist| && dist[w].Unreached?
       && dist' == dist[w := Hops(dist[order[head]].d + 1)]
       && order' == order + [w]
  }

  lemma DiscoverPushed(g: Graph, s: nat, dist: seq<Dist>, order: seq<nat>, head: nat, j: nat,
                       dist': seq<Dist>, order': seq<nat>)
    requires Valid(g) && Pushed(g, s, dist, order)
    requires DiscoveryStep(g, dist, order, head, j, dist', order')
    ensures Pushed(g, s, dist', order')
  {
    var w := g.adj[order[head]][j];
    assert w in g.adj[order[head]];
    assert w !in order;
    UnreachedCountMark(dist, w, dist[order[head]].d + 1);
  }

  lemma DiscoverLayered(g: Graph, s: nat, dist: seq<Dist>, order: seq<nat>, head: nat, j: nat,
                        dist': seq<Dist>, order': seq<nat>)
    requires Valid(g) && Pushed(g, s, dist, order) && Layered(g, s, dist, order, head)
    requires DiscoveryStep(g, dist, order, head, j, dist', order')
    requires Pushed(g, s, dist', order')
    ensures Layered(g, s, dist', order', head)
  {
    var w := g.adj[order[head]][j];
    assert w !in order;
    forall i | 0 <= i < |order|
      ensures dist'[order'[i]] == dist[order[i]]
    {
    }
    forall i, k | 0 <= i <= k < |order'|
      ensures dist'[order'[i]].d <= dist'[order'[k]].d
    {
      if k == |order| && i < |order| {
        assert dist[order[i]].d <= dist[order[|order| - 1]].d;
      }
    }
  }

  lemma DiscoverWitnessed(g: Graph, s: nat, dist: seq<Dist>, order: seq<nat>, head: nat, j: nat,
                          dist': seq<Dist>, order': seq<nat>)
    requires Valid(g) && Pushed(g, s, dist, order) && Witnessed(g, s, dist)
    requires DiscoveryStep(g, dist, order, head, j, dist', order')
    ensures Witnessed(g, s, dist')
  {
    var u := order[head];
    var w := g.adj[u][j];
    assert w in g.adj[u];
    WalkExtend(g, s, u, dist[u].d, w);
  }

  lemma DiscoverScanned(g: Graph, s: nat, dist: seq<Dist>, order: seq<nat>, head: nat, j: nat,
                        dist': seq<Dist>, order': seq<nat>)
    requires Valid(g) && Pushed(g, s, dist, order) && head <= |order|
    requires Scanned(g, dist, order, head, j)
    requires DiscoveryStep(g, dist, order, head, j, dist', order')
    requires Pushed(g, s, dist', order')
    ensures Scanned(g, dist', order', head, j + 1)
  {
    var u := order[head];
    var w := g.adj[u][j];
    var du := dist[u].d;
    forall i | 0 <= i < head
      ensures ScannedUpTo(g, dist', order'[i], |g.adj[order'[i]]|)
    {
      assert ScannedUpTo(g, dist, order[i], |g.adj[order[i]]|);
    }
    TakeOneMore(g.adj[u], j);
    forall x | x in g.adj[u][..j + 1]
      ensures x < |dist'| && dist'[x].Hops? && dist'[x].d <= du + 1
    {
      if x != w {
        assert x in g.adj[u][..j];
      }
    }
  }

  /** Scanning an unreached neighbour `w` of `u = order[head]`: it gets
      distance `dist[u] + 1` and is pushed. */
  lemma BfsDiscover(g: Graph, s: nat, dist: seq<Dist>, order: seq<nat>, head: nat, j: nat,
                    dist': seq<Dist>, order': seq<nat>)
    requires Valid(g) && BfsState(g, s, dist, order, head, j)
    requires DiscoveryStep(g, dist, order, head, j, dist', order')
    ensures BfsState(g, s, dist', order', head, j + 1)
  {
    DiscoverPushed(g, s, dist, order, head, j, dist', order');
    DiscoverLayered(g, s, dist, order, head, j, dist', order');
    DiscoverWitnessed(g, s, dist, order, head, j, dist', order');
    DiscoverScanned(g, s, dist, order, head, j, dist', order');
  }

  /** Scanning a neighbour that is already reached changes nothing. */
  lemma BfsSkip(g: Graph, s: nat, dist: seq<Dist>, order: seq<nat>, head: nat, j: nat)
    requires Valid(g) && BfsState(g, s, dist, order, head, j)
    requires head < |order| && order[head] < |g.adj| && j < |g.adj[order[head]]|
    requires g.adj[order[head]][j] < |dist| && dist[g.adj[order[head]][j]].Hops?
    ensures BfsState(g, s, dist, order, head, j + 1)
  {
    var u := order[head];
    var w := g.adj[u][j];
    assert w in order;
    var k :| 0 <= k < |order| && order[k] == w;
    assert dist[order[k]].d <= dist[order[|order| - 1]].d;
    TakeOneMore(g.adj[u], j);
  }

  /** Popping the next node once the current one is fully scanned. */
  lemma BfsAdvance(g: Graph, s: nat, dist: seq<Dist>, order: seq<nat>, head: nat)
    requires head < |order| && order[head] < |g.adj|
    requires BfsState(g, s, dist, order, head, |g.adj[order[head]]|)
    ensures BfsState(g, s, dist, order, head + 1, 0)
  {
    if head + 1 < |order| {
      assert dist[order[head]].d <= dist[order[head + 1]].d;
    }
  }

  /** Facts about a state the loops need: the current node is a reached node,
      and at most `|adj|` nodes are ever pushed. */
  lemma BfsStateFacts(g: Graph, s: nat, dist: seq<Dist>, order: seq<nat>, head: nat, j: nat)
    requires BfsState(g, s, dist, order, head, j)
    ensures |dist| == |g.adj| && head <= |order| <= |g.adj|
    ensures head < |order| ==> order[head] < |g.adj| && dist[order[head]].Hops? &&
                               j <= |g.adj[order[head]]|
  {
  }

  /** A walk of `k` hops from `s` ends at a node reached within `k` hops,
      provided every reached node closer than `bound >= k` is fully scanned. */
  lemma {:induction false} WalkBound(g: Graph, s: nat, dist: seq<Dist>, p: seq<nat>, t: nat, k: nat,
                                     bound: nat)
    requires |dist| == |g.adj| && s < |g.adj| && dist[s] == Hops(0) && k <= bound
    requires forall v :: 0 <= v < |dist| && dist[v].Hops? && dist[v].d < bound ==>
               ScannedUpTo(g, dist, v, |g.adj[v]|)
    requires WalkBetween(g, p, s, t, k)
    ensures t < |dist| && dist[t].Hops? && dist[t].d <= k
  {
    if k > 0 {
      var q := p[..k];
      assert WalkBetween(g, q, s, p[k - 1], k - 1);
      WalkBound(g, s, dist, q, p[k - 1], k - 1, bound);
      var v := p[k - 1];
      assert t in g.adj[v];
      assert g.adj[v][..|g.adj[v]|] == g.adj[v];
    }
  }

  /** Mid-search, every distance already recorded is the shortest one: the
      nodes closer than the current level are popped and fully scanned, and
      nothing recorded lies more than one level beyond it. */
  lemma BfsExact(g: Graph, s: nat, dist: seq<Dist>, order: seq<nat>, head: nat, j: nat, v: nat)
    requires BfsState(g, s, dist, order, head, j)
    requires v < |dist| && dist[v].Hops?
    ensures dist[v] == HopDistance(g, s, v)
  {
    var d := dist[v].d;
    var bound := if head < |order| then dist[order[head]].d else d;
    ScannedBelow(g, s, dist, order, head, j, bound);
    if head < |order| {
      var i :| 0 <= i < |order| && order[i] == v;
      assert dist[order[i]].d <= dist[order[|order| - 1]].d;
    }
    forall k: nat | k < d && HasWalk(g, s, v, k)
      ensures false
    {
      var p :| WalkBetween(g, p, s, v, k);
      WalkBound(g, s, dist, p, v, k, bound);
    }
    HopDistanceUnique(g, s, v, dist[v]);
  }

  /** The reached nodes closer than the current level are fully scanned
      (every level when the queue is empty). */
  lemma ScannedBelow(g: Graph, s: nat, dist: seq<Dist>, order: seq<nat>, head: nat, j: nat, bound: nat)
    requires BfsState(g, s, dist, order, head, j)
    requires head < |order| ==> bound <= dist[order[head]].d
    ensures forall x :: 0 <= x < |dist| && dist[x].Hops? && dist[x].d < bound ==>
              ScannedUpTo(g, dist, x, |g.adj[x]|)
  {
    forall x | 0 <= x < |dist| && dist[x].Hops? && dist[x].d < bound
      ensures ScannedUpTo(g, dist, x, |g.adj[x]|)
    {
      var i :| 0 <= i < |order| && order[i] == x;
    }
  }

  /** Mid-search, every node closer to `s` than the current level has already
      been popped. */
  lemma BfsPoppedBelow(g: Graph, s: nat, dist: seq<Dist>, order: seq<nat>, head: nat, j: nat, v: nat)
    requires BfsState(g, s, dist, order, head, j) && head < |order|
    requires HopDistance(g, s, v).Hops? && HopDistance(g, s, v).d < dist[order[head]].d
    ensures v in order[..head]
  {
    var bound := dist[order[head]].d;
    var k := HopDistance(g, s, v).d;
    ScannedBelow(g, s, dist, order, head, j, bound);
    HopDistanceIsShortest(g, s, v);
    var p :| WalkBetween(g, p, s, v, k);
    WalkBound(g, s, dist, p, v, k, bound);
    var i :| 0 <= i < |order| && order[i] == v;
    assert order[..head][i] == v;
  }

  /** When the queue is empty the table holds the shortest hop distances. */
  lemma BfsFinish(g: Graph, s: nat, dist: seq<Dist>, order: seq<nat>)
    requires BfsState(g, s, dist, order, |order|, 0)
    ensures dist == HopDistances(g, s)
  {
    forall v | 0 <= v < |dist| && dist[v].Hops?
      ensures ScannedUpTo(g, dist, v, |g.adj[v]|)
    {
      var i :| 0 <= i < |order| && order[i] == v;
    }
    forall t | 0 <= t < |g.adj|
      ensures dist[t] == HopDistance(g, s, t)
    {
      match dist[t]
      case Unreached =>
        forall k: nat | HasWalk(g, s, t, k)
          ensures false
        {
          var p :| WalkBetween(g, p, s, t, k);
          WalkBound(g, s, dist, p, t, k, k);
        }
        HopDistanceUnique(g, s, t, dist[t]);
      case Hops(d) =>
        forall k: nat | k < d && HasWalk(g, s, t, k)
          ensures false
        {
          var p :| WalkBetween(g, p, s, t, k);
          WalkBound(g, s, dist, p, t, k, k);
        }
        HopDistanceUnique(g, s, t, dist[t]);
    }
  }

  /** Scanning neighbour `j` of the popped node `u = order[head]`, `du` hops
      from `s`: an unreached neighbour gets distance `du + 1` and joins the
      queue; a reached one is left alone. */
  method BfsStep(g: Graph, s: nat, dist0: seq<Dist>, order0: seq<nat>, head: nat, j: nat, u: nat, du: nat)
    returns (dist: seq<Dist>, order: seq<nat>)
    requires Valid(g) && BfsState(g, s, dist0, order0, head, j)
    requires head < |order0| && u == order0[head] && u < |g.adj| && dist0[u] == Hops(du) && j < |g.adj[u]|
    ensures BfsState(g, s, dist, order, head, j + 1)
    ensures head < |order| && order[head] == u
    ensures |order0| <= |order| && forall i :: 0 <= i < |order0| ==> order[i] == order0[i]
    ensures dist[u] == Hops(du)
    ensures g.adj[u][j] < |dist| && dist[g.adj[u][j]].Hops?
    ensures dist0[g.adj[u][j]].Unreached? ==>
              dist == dist0[g.adj[u][j] := Hops(du + 1)] && order == order0 + [g.adj[u][j]]
    ensures dist0[g.adj[u][j]].Hops? ==> dist == dist0 && order == order0
  {
    BfsStateFacts(g, s, dist0, order0, head, j);
    var w := g.adj[u][j];
    assert w in g.adj[u];
    if dist0[w].Unreached? {
      dist, order := dist0[w := Hops(du + 1)], order0 + [w];
      BfsDiscover(g, s, dist0, order0, head, j, dist, order);
    } else {
      dist, order := dist0, order0;
      BfsSkip(g, s, dist0, order0, head, j);
    }
  }

  /** `BfsStep`, together with the fact that the scanned neighbour's recorded
      distance is its hop distance. */
  method BfsStepExact(g: Graph, s: nat, dist0: seq<Dist>, order0: seq<nat>, head: nat, j: nat, u: nat, du: nat)
    returns (dist: seq<Dist>, order: seq<nat>)
    requires Valid(g) && BfsState(g, s, dist0, order0, head, j)
    requires head < |order0| && u == order0[head] && u < |g.adj| && dist0[u] == Hops(du) && j < |g.adj[u]|
    ensures BfsState(g, s, dist, order, head, j + 1)
    ensures head < |order| && order[head] == u
    ensures |order0| <= |order| && forall i :: 0 <= i < |order0| ==> order[i] == order0[i]
    ensures dist[u] == Hops(du)
    ensures g.adj[u][j] < |dist| && dist[g.adj[u][j]] == HopDistance(g, s, g.adj[u][j])
  {
    dist, order := BfsStep(g, s, dist0, order0, head, j, u, du);
    BfsExact(g, s, dist, order, head, j + 1, g.adj[u][j]);
  }

  /** Scanning the whole neighbour list of the popped node `order[head]`. */
  method BfsScan(g: Graph, s: nat, dist0: seq<Dist>, order0: seq<nat>, head: nat)
    returns (dist: seq<Dist>, order: seq<nat>)
    requires Valid(g) && BfsState(g, s, dist0, order0, head, 0) && head < |order0|
    ensures head < |order| && order[head] == order0[head] && order[head] < |g.adj|
    ensures BfsState(g, s, dist, order, head, |g.adj[order[head]]|)
  {
    BfsStateFacts(g, s, dist0, order0, head, 0);
    dist, order := dist0, order0;
    var u := order[head];
    var du := dist[u].d;
    for j := 0 to |g.adj[u]|
      invariant BfsState(g, s, dist, order, head, j)
      invariant head < |order| && u == order[head] && dist[u] == Hops(du)
    {
      dist, order := BfsStep(g, s, dist, order, head, j, u, du);
    }
  }

  /** Breadth-first search from `s` (`graph_analysis.rs`, lines 26-41, 136-150
      and 168-182).  Also returns the push order of the FIFO queue. */
  method Bfs(g: Graph, s: nat) returns (dist: seq<Dist>, order: seq<nat>)
    requires Valid(g) && s < |g.adj|
    ensures dist == HopDistances(g, s)
    ensures |order| > 0 && order[0] == s
    ensures forall i, k :: 0 <= i < k < |order| ==> order[i] != order[k]
    ensures forall v: nat :: v in order <==> v < |g.adj| && dist[v].Hops?
    ensures forall i :: 0 <= i < |order| ==> order[i] < |g.adj| && dist[order[i]].Hops?
    ensures forall i, k :: 0 <= i <= k < |order| ==> dist[order[i]].d <= dist[order[k]].d
  {
    dist := InitialDist(|g.adj|, s);
    order := [s];
    BfsInit(g, s);
    var head := 0;
    while head < |order|
      invariant BfsState(g, s, dist, order, head, 0)
      decreases |g.adj| - head
    {
      BfsStateFacts(g, s, dist, order, head, 0);
      dist, order := BfsScan(g, s, dist, order, head);
      BfsAdvance(g, s, dist, order, head);
      head := head + 1;
    }
    BfsFinish(g, s, dist, order);
  }

  // ---------------------------------------------------------------------
  // Aggregates over a distance table
  // ---------------------------------------------------------------------

  /** How many entries are finite and positive (`d > 0 && d < usize::MAX`):
      the other nodes the source reaches. */
  function ReachedCount(dist: seq<Dist>): nat {
    if dist == [] then 0
    else
      var last := dist[|dist| - 1];
      ReachedCount(dist[..|dist| - 1]) + (if last.Hops? && last.d > 0 then 1 else 0)
  }

  /** The summed distance to those entries. */
  function ReachedSum(dist: seq<Dist>): nat {
    if dist == [] then 0
    else
      var last := dist[|dist| - 1];
      ReachedSum(dist[..|dist| - 1]) + (if last.Hops? && last.d > 0 then last.d else 0)
  }

  /** Each reached entry is at least one hop away, so the sum is at least the
      count, and it is zero exactly when nothing is reached. */
  lemma {:induction false} ReachedSumBounds(dist: seq<Dist>)
    ensures ReachedSum(dist) >= ReachedCount(dist)
    ensures ReachedSum(dist) == 0 <==> ReachedCount(dist) == 0
    decreases |dist|
  {
    if dist != [] {
      ReachedSumBounds(dist[..|dist| - 1]);
    }
  }

  /** The nodes a distance table reports as reached and other than the source. */
  function ReachedSet(dist: seq<Dist>): set<nat> {
    set t: nat | t < |dist| && dist[t].Hops? && dist[t].d > 0
  }

  lemma {:induction false} ReachedCountIsSize(dist: seq<Dist>)
    ensures ReachedCount(dist) == |ReachedSet(dist)|
    decreases |dist|
  {
    if dist != [] {
      var init := dist[..|dist| - 1];
      var last := |dist| - 1;
      ReachedCountIsSize(init);
      assert last !in ReachedSet(init);
      assert ReachedSet(dist) ==
             ReachedSet(init) + (if dist[last].Hops? && dist[last].d > 0 then {last} else {});
    }
  }

  /** One pass over a distance table summing the finite, positive entries
      and counting them (`graph_analysis.rs` lines 44-49 and 184). */
  method SumReached(dist: seq<Dist>) returns (sum: nat, pairs: nat)
    ensures sum == ReachedSum(dist) && pairs == ReachedCount(dist)
  {
    sum, pairs := 0, 0;
    for i := 0 to |dist|
      invariant sum == ReachedSum(dist[..i]) && pairs == ReachedCount(dist[..i])
    {
      assert dist[..i + 1][..i] == dist[..i];
      if dist[i].Hops? && dist[i].d > 0 {
        sum := sum + dist[i].d;
        pairs := pairs + 1;
      }
    }
    assert dist[..|dist|] == dist;
  }
}
