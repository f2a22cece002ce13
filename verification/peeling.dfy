/**
  Densest-subgraph peeling (`densest_subgraph_peel`, `graph_analysis.rs`
  lines 55-114).  Starting from all nodes, each round measures the density
  `internal edges / nodes` of the remaining set, remembers it when it beats
  the best seen so far, and removes a node of minimum degree inside the
  remaining set, until nothing remains.

  The edge count of a node set is defined on node pairs (`EdgesWithin`); the
  source counts neighbour-list entries from both ends and halves the total,
  and `Handshake` shows the two agree.
*/
module Peeling {
  import opened Graphs

  /** The result: the payloads of the best remaining set and its density. */
  datatype SubgraphResult = SubgraphResult(nodes: set<nat>, density: real)

  // ---------------------------------------------------------------------
  // Degrees and edges inside a node set
  // ---------------------------------------------------------------------

  /** The entries of `xs` that lie in `r`. */
  function CountIn(xs: seq<nat>, r: set<nat>): nat {
    if xs == [] then 0
    else CountIn(xs[..|xs| - 1], r) + (if xs[|xs| - 1] in r then 1 else 0)
  }

  /** The degree of `u` inside `r`: neighbour-list entries of `u` in `r`,
      parallel edges counted each time. */
  function DegreeIn(g: Graph, u: nat, r: set<nat>): nat
    requires u < |g.adj|
  {
    CountIn(g.adj[u], r)
  }

  /** Counting inside a set that holds every entry counts every entry. */
  lemma {:induction false} CountInAll(xs: seq<nat>, r: set<nat>)
    requires forall i :: 0 <= i < |xs| ==> xs[i] in r
    ensures CountIn(xs, r) == |xs|
  {
    if xs != [] {
      CountInAll(xs[..|xs| - 1], r);
    }
  }

  /** Inside the whole node set, the in-set degree of line 98 is the full
      degree `degree_distribution` reads at line 122: the list length. */
  lemma FullDegree(g: Graph, u: nat)
    requires Valid(g) && u < |g.adj|
    ensures DegreeIn(g, u, AllNodes(g)) == |g.adj[u]|
  {
    forall i | 0 <= i < |g.adj[u]|
      ensures g.adj[u][i] in AllNodes(g)
    {
      assert g.adj[u][i] in g.adj[u];
    }
    CountInAll(g.adj[u], AllNodes(g));
  }

  /** The degrees inside `r` of the members of `r` below `k`, summed. */
  function DegreeSum(g: Graph, r: set<nat>, k: nat): nat
    requires k <= |g.adj|
  {
    if k == 0 then 0
    else DegreeSum(g, r, k - 1) + (if k - 1 in r then DegreeIn(g, k - 1, r) else 0)
  }

  /** How often `v` occurs in `ms`, summed over the members `v < m` of `r`. */
  ghost function RowSum(ms: multiset<nat>, r: set<nat>, m: nat): nat {
    if m == 0 then 0
    else RowSum(ms, r, m - 1) + (if m - 1 in r then ms[m - 1] else 0)
  }

  /** The edges `{u, v}` with `v < u < k`, both ends in `r`, counted with
      multiplicity. */
  ghost function EdgesBelow(g: Graph, r: set<nat>, k: nat): nat
    requires k <= |g.adj|
  {
    if k == 0 then 0
    else EdgesBelow(g, r, k - 1) + (if k - 1 in r then RowSum(multiset(g.adj[k - 1]), r, k - 1) else 0)
  }

  /** The edges with both ends in `r`. */
  ghost function EdgesWithin(g: Graph, r: set<nat>): nat {
    EdgesBelow(g, r, |g.adj|)
  }

  /** `|E(r)| / |r|`; the empty set has density 0. */
  ghost function Density(g: Graph, r: set<nat>): real {
    if |r| == 0 then 0.0 else EdgesWithin(g, r) as real / |r| as real
  }

  // ---------------------------------------------------------------------
  // The handshake identity
  // ---------------------------------------------------------------------

  /** The rows `u < rows` (members of `r`) of the adjacency matrix restricted
      to `r`, each summed over the columns `v < cols`. */
  ghost function Block(g: Graph, r: set<nat>, rows: nat, cols: nat): nat
    requires rows <= |g.adj|
  {
    if rows == 0 then 0
    else Block(g, r, rows - 1, cols) +
         (if rows - 1 in r then RowSum(multiset(g.adj[rows - 1]), r, cols) else 0)
  }

  /** Column `c` of that matrix, over the rows `u < rows`. */
  ghost function ColSum(g: Graph, r: set<nat>, c: nat, rows: nat): nat
    requires rows <= |g.adj|
  {
    if rows == 0 then 0
    else ColSum(g, r, c, rows - 1) + (if rows - 1 in r then multiset(g.adj[rows - 1])[c] else 0)
  }

  lemma {:induction false} RowSumAdd(ms: multiset<nat>, x: nat, r: set<nat>, m: nat)
    ensures RowSum(ms + multiset{x}, r, m) == RowSum(ms, r, m) + (if x in r && x < m then 1 else 0)
  {
    if m > 0 {
      RowSumAdd(ms, x, r, m - 1);
    }
  }

  /** Counting the entries of a list that lie in `r` is summing their
      multiplicities over the members of `r`. */
  lemma {:induction false} CountInIsRowSum(xs: seq<nat>, r: set<nat>, n: nat)
    requires forall i :: 0 <= i < |xs| ==> xs[i] < n
    ensures CountIn(xs, r) == RowSum(multiset(xs), r, n)
    decreases |xs|
  {
    if xs == [] {
      RowSumEmpty(r, n);
    } else {
      var init := xs[..|xs| - 1];
      var x := xs[|xs| - 1];
      assert xs == init + [x];
      assert multiset(xs) == multiset(init) + multiset{x};
      CountInIsRowSum(init, r, n);
      RowSumAdd(multiset(init), x, r, n);
    }
  }

  lemma {:induction false} RowSumEmpty(r: set<nat>, m: nat)
    ensures RowSum(multiset{}, r, m) == 0
  {
    if m > 0 {
      RowSumEmpty(r, m - 1);
    }
  }

  lemma {:induction false} DegreeSumIsBlock(g: Graph, r: set<nat>, k: nat)
    requires Valid(g) && k <= |g.adj|
    ensures DegreeSum(g, r, k) == Block(g, r, k, |g.adj|)
  {
    if k > 0 {
      DegreeSumIsBlock(g, r, k - 1);
      var u := k - 1;
      forall i | 0 <= i < |g.adj[u]|
        ensures g.adj[u][i] < |g.adj|
      {
        assert g.adj[u][i] in g.adj[u];
      }
      CountInIsRowSum(g.adj[u], r, |g.adj|);
    }
  }

  /** One more column. */
  lemma {:induction false} BlockAddColumn(g: Graph, r: set<nat>, rows: nat, k: nat)
    requires rows <= |g.adj|
    ensures Block(g, r, rows, k + 1) ==
            Block(g, r, rows, k) + (if k in r then ColSum(g, r, k, rows) else 0)
  {
    if rows > 0 {
      BlockAddColumn(g, r, rows - 1, k);
    }
  }

  /** Symmetry: column `c` equals row `c`. */
  lemma {:induction false} ColSumIsRowSum(g: Graph, r: set<nat>, c: nat, rows: nat)
    requires Valid(g) && c < |g.adj| && rows <= |g.adj|
    ensures ColSum(g, r, c, rows) == RowSum(multiset(g.adj[c]), r, rows)
  {
    if rows > 0 {
      ColSumIsRowSum(g, r, c, rows - 1);
      assert multiset(g.adj[rows - 1])[c] == multiset(g.adj[c])[rows - 1];
    }
  }

  /** Every edge inside `r` is seen from both of its ends. */
  lemma {:induction false} Handshake(g: Graph, r: set<nat>, k: nat)
    requires Valid(g) && k <= |g.adj|
    ensures Block(g, r, k, k) == 2 * EdgesBelow(g, r, k)
  {
    if k > 0 {
      var u := k - 1;
      Handshake(g, r, u);
      BlockAddColumn(g, r, u, u);
      ColSumIsRowSum(g, r, u, u);
      assert multiset(g.adj[u])[u] == 0;
      assert RowSum(multiset(g.adj[u]), r, k) == RowSum(multiset(g.adj[u]), r, u);
    }
  }

  /** The source's count: the degree sum inside `r` is even, and halving it
      gives the edges inside `r`. */
  lemma DegreeSumHalves(g: Graph, r: set<nat>)
    requires Valid(g)
    ensures DegreeSum(g, r, |g.adj|) == 2 * EdgesWithin(g, r)
  {
    DegreeSumIsBlock(g, r, |g.adj|);
    Handshake(g, r, |g.adj|);
  }

  // ---------------------------------------------------------------------
  // The rounds
  // ---------------------------------------------------------------------

  /** `u` has the least degree inside `r` among the members of `r`. */
  ghost predicate IsMinDegree(g: Graph, u: nat, r: set<nat>) {
    && u in r && u < |g.adj|
    && forall v :: v in r && v < |g.adj| ==> DegreeIn(g, u, r) <= DegreeIn(g, v, r)
  }

  /** `rounds[i]` is the set remaining at the start of round `i` and
      `removed[i]` the node peeled in that round; `remaining` is what is left
      after the last of them.  The first round starts from every node. */
  ghost predicate PeeledSoFar(g: Graph, rounds: seq<set<nat>>, removed: seq<nat>,
                              remaining: set<nat>)
  {
    var stages := rounds + [remaining];
    && |removed| == |rounds|
    && stages[0] == AllNodes(g)
    && forall i :: 0 <= i < |rounds| ==>
         IsMinDegree(g, removed[i], rounds[i]) && stages[i + 1] == rounds[i] - {removed[i]}
  }

  /** A complete peeling: the rounds run until nothing remains. */
  ghost predicate IsPeeling(g: Graph, rounds: seq<set<nat>>, removed: seq<nat>) {
    PeeledSoFar(g, rounds, removed, {})
  }

  /** `res` is what the bookkeeping keeps over `rounds`: the first round of
      greatest density when that density is positive, and the empty set with
      density 0 otherwise. */
  ghost predicate IsFirstDensest(g: Graph, rounds: seq<set<nat>>, res: SubgraphResult) {
    && (forall i :: 0 <= i < |rounds| ==> Density(g, rounds[i]) <= res.density)
    && if res.density == 0.0 then res.nodes == {}
       else exists j :: 0 <= j < |rounds| && Density(g, rounds[j]) == res.density
                        && res.nodes == Payloads(g, rounds[j])
                        && forall i :: 0 <= i < j ==> Density(g, rounds[i]) < res.density
  }

  // ---------------------------------------------------------------------
  // The algorithm
  // ---------------------------------------------------------------------

  /** The edges inside `r` (lines 75-84): every neighbour-list entry from a
      member of `r` to a member of `r`, halved. */
  method InternalEdges(g: Graph, r: set<nat>) returns (edges: nat)
    requires Valid(g)
    ensures edges == EdgesWithin(g, r)
  {
    var count := 0;
    for u := 0 to |g.adj|
      invariant count == DegreeSum(g, r, u)
    {
      if u in r {
        var d := Degree(g, u, r);
        count := count + d;
      }
    }
    DegreeSumHalves(g, r);
    edges := count / 2;
  }

  /** The degree of `u` inside `r` (lines 96-99). */
  method Degree(g: Graph, u: nat, r: set<nat>) returns (d: nat)
    requires u < |g.adj|
    ensures d == DegreeIn(g, u, r)
  {
    d := 0;
    for j := 0 to |g.adj[u]|
      invariant d == CountIn(g.adj[u][..j], r)
    {
      assert g.adj[u][..j + 1][..j] == g.adj[u][..j];
      if g.adj[u][j] in r {
        d := d + 1;
      }
    }
    assert g.adj[u][..|g.adj[u]|] == g.adj[u];
  }

  /** A node of least degree inside `r`, the first one in node order (lines
      93-102); `None` when `r` is empty. */
  method MinDegreeNode(g: Graph, r: set<nat>) returns (m: Option<nat>)
    requires forall v :: v in r ==> v < |g.adj|
    ensures m.None? <==> r == {}
    ensures m.Some? ==> IsMinDegree(g, m.value, r)
  {
    m := None;
    var best := 0;
    for u := 0 to |g.adj|
      invariant m.None? ==> forall v :: v in r ==> v >= u
      invariant m.Some? ==> m.value in r && m.value < |g.adj| && best == DegreeIn(g, m.value, r)
      invariant m.Some? ==> forall v :: v in r && v < u ==> best <= DegreeIn(g, v, r)
    {
      if u in r {
        var d := Degree(g, u, r);
        if m.None? || d < best {
          m, best := Some(u), d;
        }
      }
    }
    if r != {} {
      var v :| v in r;
      assert v < |g.adj|;
    }
  }

  /** `densest_subgraph_peel`.  The ghost outputs record the rounds the loop
      ran through and the node it peeled in each. */
  method DensestSubgraphPeel(g: Graph)
    returns (res: SubgraphResult, ghost rounds: seq<set<nat>>, ghost removed: seq<nat>)
    requires Valid(g)
    ensures IsPeeling(g, rounds, removed)
    ensures |rounds| == |g.adj|
    ensures IsFirstDensest(g, rounds, res)
    ensures 0.0 <= res.density && Density(g, AllNodes(g)) <= res.density
    ensures res.density == 0.0 ==> res.nodes == {}
    ensures res.density != 0.0 ==>
              exists r :: r <= AllNodes(g) && Density(g, r) == res.density && res.nodes == Payloads(g, r)
  {
    var remaining: set<nat> := AllNodes(g);
    var bestDensity := 0.0;
    var bestNodes: set<nat> := {};
    rounds, removed := [], [];
    while remaining != {}
      invariant PeeledSoFar(g, rounds, removed, remaining)
      invariant |rounds| + |remaining| == |g.adj|
      invariant forall v :: v in remaining ==> v < |g.adj|
      invariant bestDensity >= 0.0
      invariant IsFirstDensest(g, rounds, SubgraphResult(bestNodes, bestDensity))
      decreases |remaining|
    {
      var edges := InternalEdges(g, remaining);
      var density := edges as real / |remaining| as real;
      RecordRound(g, rounds, SubgraphResult(bestNodes, bestDensity), remaining);
      if density > bestDensity {
        bestDensity := density;
        bestNodes := Payloads(g, remaining);
      }
      var m := MinDegreeNode(g, remaining);
      assert m.Some?;
      var u := m.value;
      PeelStep(g, rounds, removed, remaining, u);
      rounds, removed := rounds + [remaining], removed + [u];
      remaining := remaining - {u};
    }
    res := SubgraphResult(bestNodes, bestDensity);
    PeelingRounds(g, rounds, removed);
    BestRound(g, rounds, res);
  }

  /** Measuring one more round keeps the bookkeeping right (lines 85-90). */
  lemma RecordRound(g: Graph, rounds: seq<set<nat>>, best: SubgraphResult, r: set<nat>)
    requires |r| > 0 && best.density >= 0.0
    requires IsFirstDensest(g, rounds, best)
    ensures var d := Density(g, r);
            IsFirstDensest(g, rounds + [r],
                           if d > best.density then SubgraphResult(Payloads(g, r), d) else best)
  {
    var rounds' := rounds + [r];
    assert forall i :: 0 <= i < |rounds| ==> rounds'[i] == rounds[i];
    var d := Density(g, r);
    if d > best.density {
      assert Density(g, rounds'[|rounds|]) == d;
    } else if best.density != 0.0 {
      var j :| 0 <= j < |rounds| && Density(g, rounds[j]) == best.density
               && best.nodes == Payloads(g, rounds[j])
               && forall i :: 0 <= i < j ==> Density(g, rounds[i]) < best.density;
      assert rounds'[j] == rounds[j];
    }
  }

  lemma PeelStep(g: Graph, rounds: seq<set<nat>>, removed: seq<nat>, remaining: set<nat>, u: nat)
    requires PeeledSoFar(g, rounds, removed, remaining)
    requires IsMinDegree(g, u, remaining)
    ensures PeeledSoFar(g, rounds + [remaining], removed + [u], remaining - {u})
  {
    var stages := rounds + [remaining];
    var stages' := rounds + [remaining] + [remaining - {u}];
    assert forall i :: 0 <= i <= |rounds| ==> stages'[i] == stages[i];
  }

  // ---------------------------------------------------------------------
  // Properties of a peeling
  // ---------------------------------------------------------------------

  /** The rounds of a peeling only hold nodes. */
  lemma {:induction false} RoundsHoldNodes(g: Graph, rounds: seq<set<nat>>, removed: seq<nat>, i: nat)
    requires PeeledSoFar(g, rounds, removed, {}) && i < |rounds|
    ensures forall v :: v in rounds[i] ==> v < |g.adj|
  {
    var stages := rounds + [{}];
    assert stages[i] == rounds[i];
    if i > 0 {
      RoundsHoldNodes(g, rounds, removed, i - 1);
      assert stages[i] == rounds[i - 1] - {removed[i - 1]};
    }
  }

  /** A peeling starts from all nodes and never holds anything else. */
  lemma PeelingRounds(g: Graph, rounds: seq<set<nat>>, removed: seq<nat>)
    requires IsPeeling(g, rounds, removed)
    ensures |rounds| > 0 ==> rounds[0] == AllNodes(g)
    ensures forall i :: 0 <= i < |rounds| ==> rounds[i] <= AllNodes(g)
  {
    if |rounds| > 0 {
      assert (rounds + [{}])[0] == rounds[0];
    }
    forall i | 0 <= i < |rounds|
      ensures rounds[i] <= AllNodes(g)
    {
      RoundsHoldNodes(g, rounds, removed, i);
    }
  }

  /** What the bookkeeping keeps, seen from outside: the density is at least
      that of the whole graph, and a positive one is the density of some node
      set whose payloads are returned. */
  lemma BestRound(g: Graph, rounds: seq<set<nat>>, res: SubgraphResult)
    requires |rounds| == |g.adj| && (|rounds| > 0 ==> rounds[0] == AllNodes(g))
    requires forall i :: 0 <= i < |rounds| ==> rounds[i] <= AllNodes(g)
    requires IsFirstDensest(g, rounds, res)
    ensures 0.0 <= res.density && Density(g, AllNodes(g)) <= res.density
    ensures res.density == 0.0 ==> res.nodes == {}
    ensures res.density != 0.0 ==>
              exists r :: r <= AllNodes(g) && Density(g, r) == res.density && res.nodes == Payloads(g, r)
  {
    if |rounds| > 0 {
      assert Density(g, rounds[0]) <= res.density;
      DensityNonNegative(g, rounds[0]);
    } else {
      assert AllNodes(g) == {};
    }
    if res.density != 0.0 {
      var j :| 0 <= j < |rounds| && Density(g, rounds[j]) == res.density
               && res.nodes == Payloads(g, rounds[j])
               && forall i :: 0 <= i < j ==> Density(g, rounds[i]) < res.density;
      assert rounds[j] <= AllNodes(g) && Density(g, rounds[j]) == res.density
             && res.nodes == Payloads(g, rounds[j]);
    }
  }

  lemma DensityNonNegative(g: Graph, r: set<nat>)
    ensures 0.0 <= Density(g, r)
  {
  }

  /** Round `i` starts with `n - i` nodes: each round removes exactly one. */
  lemma {:induction false} RoundSizes(g: Graph, rounds: seq<set<nat>>, removed: seq<nat>, i: nat)
    requires PeeledSoFar(g, rounds, removed, {}) && i < |rounds|
    ensures |rounds[i]| == |g.adj| - i
    ensures |rounds| == |g.adj|
  {
    StageSize(g, rounds, removed, i);
    StageSize(g, rounds, removed, |rounds|);
    assert (rounds + [{}])[i] == rounds[i];
    assert (rounds + [{}])[|rounds|] == {};
  }

  lemma {:induction false} StageSize(g: Graph, rounds: seq<set<nat>>, removed: seq<nat>, k: nat)
    requires PeeledSoFar(g, rounds, removed, {}) && k <= |rounds|
    ensures |(rounds + [{}])[k]| + k == |g.adj|
  {
    var stages := rounds + [{}];
    if k > 0 {
      StageSize(g, rounds, removed, k - 1);
      assert IsMinDegree(g, removed[k - 1], rounds[k - 1]);
      assert stages[k] == stages[k - 1] - {removed[k - 1]};
    }
  }

  /** Without edges every density is 0, so the result is empty with density 0. */
  lemma PeelEdgeless(g: Graph, rounds: seq<set<nat>>, res: SubgraphResult)
    requires forall u :: 0 <= u < |g.adj| ==> g.adj[u] == []
    requires IsFirstDensest(g, rounds, res)
    ensures res == SubgraphResult({}, 0.0)
  {
    forall r: set<nat>
      ensures Density(g, r) == 0.0
    {
      NoEdgesBelow(g, r, |g.adj|);
    }
  }

  lemma {:induction false} NoEdgesBelow(g: Graph, r: set<nat>, k: nat)
    requires k <= |g.adj|
    requires forall u :: 0 <= u < |g.adj| ==> g.adj[u] == []
    ensures EdgesBelow(g, r, k) == 0
  {
    if k > 0 {
      NoEdgesBelow(g, r, k - 1);
      RowSumEmpty(r, k - 1);
      assert multiset(g.adj[k - 1]) == multiset{};
    }
  }
}
