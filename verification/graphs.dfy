/**
  The in-memory undirected graph every metric reads.

  Nodes are the dense indices `0 .. |adj|`; node `u` carries the integer
  payload `payload[u]` (the external id the loader read) and its neighbour
  list `adj[u]`.  The loader never deduplicates edges, so a neighbour may occur
  several times in a list: adjacency is symmetric WITH multiplicity.
*/
module Graphs {

  datatype Graph = Graph(adj: seq<seq<nat>>, payload: seq<nat>)

  /** A value that may be missing: an undefined mean, an empty node set. */
  datatype Option<T> = None | Some(value: T)

  /** The graphs this model covers: every neighbour is a node, every
      undirected edge appears in both neighbour lists the same number of
      times, and each node has its own payload.  Self-loops, which the loader
      would add for an input line `u u`, are excluded. */
  ghost predicate Valid(g: Graph) {
    && |g.payload| == |g.adj|
    && (forall u, v :: 0 <= u < |g.adj| && v in g.adj[u] ==> v < |g.adj|)
    && (forall u :: 0 <= u < |g.adj| ==> u !in g.adj[u])
    && (forall u, v :: 0 <= u < |g.adj| && 0 <= v < |g.adj| ==>
          multiset(g.adj[u])[v] == multiset(g.adj[v])[u])
    && (forall u, v :: 0 <= u < v < |g.payload| ==> g.payload[u] != g.payload[v])
  }

  /** The payloads of the nodes in `nodes`. */
  function Payloads(g: Graph, nodes: set<nat>): set<nat> {
    set u | u in nodes && u < |g.payload| :: g.payload[u]
  }

  /** All node indices. */
  function AllNodes(g: Graph): (r: set<nat>)
    ensures forall u: nat :: u in r <==> u < |g.adj|
    ensures |r| == |g.adj|
  {
    RangeSet(|g.adj|)
  }

  function RangeSet(n: nat): (r: set<nat>)
    ensures forall u: nat :: u in r <==> u < n
    ensures |r| == n
  {
    if n == 0 then {} else
      var r' := RangeSet(n - 1);
      assert n - 1 !in r';
      r' + {n - 1}
  }

  /** The payloads of the nodes `0 .. k`. */
  function PayloadsBelow(g: Graph, k: nat): set<nat>
    requires k <= |g.payload|
  {
    set u | 0 <= u < k :: g.payload[u]
  }

  /** A per-node score table re-keyed by payload, one insertion per node in
      node order, as the source fills its payload-keyed hash maps.  Payloads
      are distinct, so no insertion overwrites another. */
  method KeyByPayload(g: Graph, scores: seq<real>) returns (m: map<nat, real>)
    requires Valid(g) && |scores| == |g.adj|
    ensures m.Keys == Payloads(g, AllNodes(g))
    ensures forall u :: 0 <= u < |g.adj| ==> m[g.payload[u]] == scores[u]
  {
    m := map[];
    for u := 0 to |g.adj|
      invariant m.Keys == PayloadsBelow(g, u)
      invariant forall v :: 0 <= v < u ==> m[g.payload[v]] == scores[v]
    {
      var key := g.payload[u];
      assert PayloadsBelow(g, u + 1) == PayloadsBelow(g, u) + {key};
      assert forall v :: 0 <= v < u ==> g.payload[v] != key;
      m := m[key := scores[u]];
    }
    assert Payloads(g, AllNodes(g)) == PayloadsBelow(g, |g.adj|);
  }

  /** When node `u` carries payload `u`, a payload-keyed score map is keyed
      by the nodes themselves. */
  lemma IndexKeyed(g: Graph, m: map<nat, real>, scores: seq<real>)
    requires |scores| == |g.payload| == |g.adj|
    requires forall u :: 0 <= u < |g.adj| ==> g.payload[u] == u
    requires m.Keys == Payloads(g, AllNodes(g))
    requires forall u :: 0 <= u < |g.adj| ==> m[g.payload[u]] == scores[u]
    ensures forall x: nat :: x in m <==> x < |g.adj|
    ensures forall u: nat :: u < |g.adj| ==> m[u] == scores[u]
  {
    forall x: nat | x < |g.adj|
      ensures x in m
    {
      assert g.payload[x] == x;
    }
  }

  /** One more element of a prefix. */
  lemma TakeOneMore<T>(xs: seq<T>, j: nat)
    requires j < |xs|
    ensures xs[..j + 1] == xs[..j] + [xs[j]]
  {
  }

  /** A sequence that only grew keeps its prefixes. */
  lemma PrefixKept<T>(xs: seq<T>, ys: seq<T>, k: nat)
    requires k <= |xs| <= |ys| && forall i :: 0 <= i < |xs| ==> ys[i] == xs[i]
    ensures ys[..k] == xs[..k]
  {
  }
}
