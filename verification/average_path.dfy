/**
  The sampled average shortest-path length (`average_shortest_path`,
  `graph_analysis.rs` lines 18-53).  The first `min(5, n)` nodes are the BFS
  sources; every finite, positive distance they see is one reachable pair.
  The source divides the summed distance by the pair count in floating point
  and gets NaN when there is no pair; here the quotient is exact and the
  no-pair case is `None`.
*/
module AveragePath {
  import opened Graphs
  import opened Distances

  /** At most this many sources are sampled. */
  const MaxSamples: nat := 5

  function SampleSize(g: Graph): (k: nat)
    ensures k <= MaxSamples && k <= |g.adj|
    ensures k == MaxSamples || k == |g.adj|
  {
    if |g.adj| < MaxSamples then |g.adj| else MaxSamples
  }

  /** The reachable pairs `(s, t)`, `t != s`, over the sources `s < k`. */
  ghost function SampledPairs(g: Graph, k: nat): nat
    requires k <= |g.adj|
  {
    if k == 0 then 0 else SampledPairs(g, k - 1) + ReachedCount(HopDistances(g, k - 1))
  }

  /** Their summed shortest distance; every pair is at least one hop apart. */
  ghost function SampledSum(g: Graph, k: nat): nat
    requires k <= |g.adj|
  {
    if k == 0 then 0 else SampledSum(g, k - 1) + ReachedSum(HopDistances(g, k - 1))
  }

  lemma {:induction false} SampledSumBounds(g: Graph, k: nat)
    requires k <= |g.adj|
    ensures SampledSum(g, k) >= SampledPairs(g, k)
  {
    if k > 0 {
      SampledSumBounds(g, k - 1);
      ReachedSumBounds(HopDistances(g, k - 1));
    }
  }

  /** One sampled source: a BFS, then the sum and count of what it reached. */
  method SourceTotals(g: Graph, start: nat) returns (sum: nat, pairs: nat)
    requires Valid(g) && start < |g.adj|
    ensures sum == ReachedSum(HopDistances(g, start))
    ensures pairs == ReachedCount(HopDistances(g, start))
  {
    var dist, _ := Bfs(g, start);
    sum, pairs := SumReached(dist);
  }

  /** `total / pairs`, with no value when there is no pair (the source's
      `0.0 / 0.0`, a NaN). */
  function Mean(total: nat, pairs: nat): (r: Option<real>)
    ensures r.None? <==> pairs == 0
    ensures r.Some? ==> r.value == total as real / pairs as real
    ensures r.Some? && total >= pairs ==> r.value >= 1.0
  {
    if pairs == 0 then None else Some(total as real / pairs as real)
  }

  /** `average_shortest_path`. */
  method AverageShortestPath(g: Graph) returns (r: Option<real>)
    requires Valid(g)
    ensures r.None? <==> SampledPairs(g, SampleSize(g)) == 0
    ensures r.Some? ==>
              r.value == SampledSum(g, SampleSize(g)) as real / SampledPairs(g, SampleSize(g)) as real
    ensures r.Some? ==> r.value >= 1.0
  {
    var totalDist, totalPairs := SampledTotals(g, SampleSize(g));
    SampledSumBounds(g, SampleSize(g));
    r := Mean(totalDist, totalPairs);
  }

  /** The loop over the sampled sources `0 .. k` (lines 25-50). */
  method SampledTotals(g: Graph, k: nat) returns (totalDist: nat, totalPairs: nat)
    requires Valid(g) && k <= |g.adj|
    ensures totalDist == SampledSum(g, k) && totalPairs == SampledPairs(g, k)
  {
    totalDist, totalPairs := 0, 0;
    for start := 0 to k
      invariant totalDist == SampledSum(g, start) && totalPairs == SampledPairs(g, start)
    {
      var sum, pairs := SourceTotals(g, start);
      totalDist := totalDist + sum;
      totalPairs := totalPairs + pairs;
    }
  }
}
