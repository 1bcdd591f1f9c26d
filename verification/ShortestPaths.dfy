/** Single-source shortest paths: Dijkstra with a lazy heap, and Bellman-Ford over unsigned weights. */
module ShortestPaths {
  import opened Finite
  import opened Machine
  import opened Options
  import opened SearchFrontier
  import opened Sums
  import opened WeightedPaths

  /** `dist[v]` is the shortest distance from `s` to `v` cut off at `bound`. */
  ghost predicate Distances(W: Arcs, s: nat, dist: seq<u64>, bound: int) {
    forall v :: 0 <= v < |dist| ==>
      && dist[v] <= bound
      && (dist[v] < bound ==> CostTo(W, s, v, dist[v]))
      && Final(W, s, dist, v, bound)
  }

  /** No walk to `v` that costs less than `bound` beats the recorded distance. */
  ghost predicate Final(W: Arcs, s: nat, dist: seq<u64>, v: nat, bound: int)
    requires v < |dist|
  {
    forall c: int :: CostTo(W, s, v, c) && c < bound ==> dist[v] <= c
  }

  /** Below the bound the entries are exactly the shortest distances. */
  lemma DistancesAreShortest(W: Arcs, s: nat, dist: seq<u64>, bound: int, v: nat, d: int)
    requires Distances(W, s, dist, bound) && v < |dist| && d < bound
    ensures IsDistance(W, s, v, d) <==> dist[v] == d
  {
    assert Final(W, s, dist, v, bound);
  }

  /** Two cut-offs of the same distances differ only by the cut-off. */
  lemma CutoffsAgree(W: Arcs, s: nat, a: seq<u64>, b: seq<u64>, low: int, high: int, v: nat)
    requires low <= high && Distances(W, s, a, low) && Distances(W, s, b, high)
    requires v < |a| && v < |b|
    ensures a[v] == if b[v] < low then b[v] else low
  {
    assert Final(W, s, a, v, low) && Final(W, s, b, v, high);
  }

  // -------------------------------------------------------------------------- Dijkstra

  /** Settled distances plus an edge stay within 64 bits; a vertex at the sentinel is never settled. */
  ghost predicate NoOverflow(W: Arcs, s: nat) {
    forall u: nat, d: int, v: nat, w: nat :: d < U64_MAX && IsDistance(W, s, u, d) && HasArc(W, u, v, w) ==>
        d + w <= U64_MAX
  }

  /** `BinaryHeap::pop`: entries compare by cost only, so any cheapest one may come out. */
  method PopCheapest(heap: multiset<Entry>) returns (x: Entry, rest: multiset<Entry>)
    requires heap != multiset{}
    ensures IsFirst(heap, x) && rest == heap - multiset{x}
  {
    ghost var first := FirstEntry(heap);
    assert IsFirst(heap, first);
    x :| x in heap && forall y :: y in heap ==> x.0 <= y.0;
    rest := heap - multiset{x};
  }

  const NoHeuristic: nat -> u64 := _ => 0

  /** An entry that comes out first and is not stale carries the shortest distance. */
  lemma SettledIsShortest(W: Arcs, s: nat, dist: seq<u64>, heap: multiset<Entry>, x: Entry)
    requires Scored(W, s, dist) && Frontier(W, NoHeuristic, dist, heap, |dist|) && HeadsBelow(W, |dist|)
    requires IsFirst(heap, x) && x.1 < |dist| && x.0 == dist[x.1] < U64_MAX
    ensures IsDistance(W, s, x.1, x.0)
  {
    forall c: int | CostTo(W, s, x.1, c)
      ensures x.0 <= c
    {
      if c < x.0 {
        var p :| WalkCosts(W, p, s, x.1, c);
        var y, left := FrontierOnWalk(W, NoHeuristic, s, dist, heap, p, c);
        var q :| WalkCosts(W, q, y, x.1, left);
        CostNonNegative(W, q, left);
        assert false;
      }
    }
  }

  lemma DryHeapSettles(W: Arcs, s: nat, dist: seq<u64>)
    requires Scored(W, s, dist) && Frontier(W, NoHeuristic, dist, multiset{}, |dist|) && HeadsBelow(W, |dist|)
    ensures Distances(W, s, dist, U64_MAX)
  {
    forall v, c: int | 0 <= v < |dist| && CostTo(W, s, v, c) && c < U64_MAX
      ensures dist[v] <= c
    {
      var p :| WalkCosts(W, p, s, v, c);
      var y, left := FrontierOnWalk(W, NoHeuristic, s, dist, multiset{}, p, c);
    }
    assert forall v :: 0 <= v < |dist| ==> Final(W, s, dist, v, U64_MAX);
  }

  method Settle(adj: seq<seq<(nat, u64)>>, ghost s: nat, cost: u64, position: nat, dist0: seq<u64>,
                heap0: multiset<Entry>)
      returns (dist: seq<u64>, heap: multiset<Entry>)
    requires HeadsInRange(adj) && |dist0| == |adj| && position < |adj| && dist0[position] == cost < U64_MAX
    requires Scored(ArcsOf(adj), s, dist0) && Frontier(ArcsOf(adj), NoHeuristic, dist0, heap0, position)
    requires forall j :: 0 <= j < |adj[position]| ==> cost as int + adj[position][j].1 <= U64_MAX
    ensures |dist| == |adj| && Scored(ArcsOf(adj), s, dist) && Frontier(ArcsOf(adj), NoHeuristic, dist, heap, |dist|)
    ensures Sum(dist) < Sum(dist0) || (dist == dist0 && heap == heap0)
  {
    hide Scored, Frontier;
    ghost var W := ArcsOf(adj);
    dist, heap := dist0, heap0;
    for i := 0 to |adj[position]|
      invariant |dist| == |adj| && dist[position] == cost
      invariant Scored(W, s, dist) && Frontier(W, NoHeuristic, dist, heap, position)
      invariant forall j :: 0 <= j < i ==> dist[adj[position][j].0] <= cost as int + adj[position][j].1
      invariant Sum(dist) < Sum(dist0) || (dist == dist0 && heap == heap0)
    {
      var (next, weight) := adj[position][i];
      assert (next, weight) in adj[position] && (position, next, weight) in W;
      var nextCost: u64 := cost + weight;
      if nextCost < dist[next] {
        RelaxKeepsScores(W, s, dist, position, next, weight);
        RelaxKeepsFrontier(W, NoHeuristic, dist, heap, position, next, nextCost);
        SumUpdate(dist, next, nextCost);
        dist := dist[next := nextCost];
        heap := heap + multiset{(nextCost, next)};
      }
    }
    RelaxedRejoins(W, NoHeuristic, dist, heap, position);
  }

  /** Every entry is the shortest distance, or the sentinel where there is no walk. */
  method Dijkstra(adj: seq<seq<(nat, u64)>>, start: nat) returns (dist: seq<u64>)
    requires HeadsInRange(adj) && start < |adj| && NoOverflow(ArcsOf(adj), start)
    ensures |dist| == |adj| && Distances(ArcsOf(adj), start, dist, U64_MAX)
  {
    ghost var W := ArcsOf(adj);
    dist := seq(|adj|, _ => U64_MAX);
    dist := dist[start := 0];
    var heap: multiset<Entry> := multiset{(0, start)};
    CostHere(W, start);
    ScoresSum(dist);
    assert Scored(W, start, dist) && Frontier(W, NoHeuristic, dist, heap, |dist|);
    hide Scored, Frontier, NoOverflow, IsDistance;
    while heap != multiset{}
      invariant |dist| == |adj| && Scored(W, start, dist) && Frontier(W, NoHeuristic, dist, heap, |dist|)
      invariant 0 <= Sum(dist)
      decreases Sum(dist), |heap|
    {
      var x, rest := PopCheapest(heap);
      var (cost, position) := x;
      PopKeepsFrontier(W, NoHeuristic, dist, heap, (cost, position));
      if cost > dist[position] {
        StaleKeepsFrontier(W, dist, heap, (cost, position));
        heap := rest;
        continue;
      }
      SettledIsShortest(W, start, dist, heap, (cost, position));
      forall j | 0 <= j < |adj[position]|
        ensures cost as int + adj[position][j].1 <= U64_MAX
      {
        var (v, w) := adj[position][j];
        assert (v, w) in adj[position];
        SumFits(W, start, position, cost, v, w);
      }
      dist, heap := Settle(adj, start, cost, position, dist, rest);
      ScoresSum(dist);
    }
    DryHeapSettles(W, start, dist);
  }

  lemma StaleKeepsFrontier(W: Arcs, dist: seq<u64>, heap: multiset<Entry>, x: Entry)
    requires Frontier(W, NoHeuristic, dist, heap, |dist|) && x in heap && x.1 < |dist| && x.0 > dist[x.1]
    ensures Frontier(W, NoHeuristic, dist, heap - multiset{x}, |dist|)
  {
  }

  lemma SumFits(W: Arcs, s: nat, u: nat, d: int, v: nat, w: nat)
    requires NoOverflow(W, s) && d < U64_MAX && IsDistance(W, s, u, d) && (u, v, w) in W
    ensures d + w <= U64_MAX
  {
    assert HasArc(W, u, v, w);
  }

  // ---------------------------------------------------------------------- Bellman-Ford

  const INF: u64 := U64_MAX / 2

  datatype Triple = Triple(tail: nat, head: nat, weight: u64)

  ghost function ArcsOfList(edges: seq<Triple>): (W: Arcs)
    ensures forall u: nat, v: nat, w: nat :: (u, v, w) in W <==> w <= U64_MAX && Triple(u, v, w) in edges
  {
    set i: nat | 0 <= i < |edges| :: (edges[i].tail, edges[i].head, edges[i].weight as nat)
  }

  ghost predicate ListInRange(n: nat, edges: seq<Triple>) {
    forall i :: 0 <= i < |edges| ==> edges[i].tail < n && edges[i].head < n
  }

  /** Entries are the sentinel or costs of real walks. */
  ghost predicate Tentative(W: Arcs, s: nat, dist: seq<u64>) {
    && s < |dist| && dist[s] == 0
    && forall v :: 0 <= v < |dist| ==> dist[v] <= INF && (dist[v] < INF ==> CostTo(W, s, v, dist[v]))
  }

  /** `dist'` has relaxed every edge against the entries of `dist`. */
  ghost predicate Passed(W: Arcs, dist: seq<u64>, dist': seq<u64>) {
    && |dist'| == |dist|
    && (forall v :: 0 <= v < |dist| ==> dist'[v] <= dist[v])
    && forall u: nat, v: nat, w: nat :: HasArc(W, u, v, w) ==>
         u < |dist| && v < |dist| && (dist[u] == INF || dist'[v] <= dist[u] + w)
  }

  /** A walk that shows `dist` is not final at its end. */
  ghost predicate Improves(W: Arcs, s: nat, dist: seq<u64>, p: seq<nat>, c: int) {
    |p| > 0 && p[0] == s && p[|p| - 1] < |dist| && Costs(W, p, c) && c < INF && c < dist[p[|p| - 1]]
  }

  /** As long as some entry can be improved, a pass makes one more entry final: the end of a
      cheapest, then shortest, improving walk. */
  lemma {:induction false} PassSettlesOne(W: Arcs, s: nat, dist: seq<u64>, dist': seq<u64>, p: seq<nat>, c: int)
      returns (y: nat)
    requires Tentative(W, s, dist) && Passed(W, dist, dist') && Improves(W, s, dist, p, c)
    ensures y < |dist| && !Final(W, s, dist, y, INF) && Final(W, s, dist', y, INF)
    decreases if c < 0 then 0 else c, |p|
  {
    if exists q, b :: Improves(W, s, dist, q, b) && (b < c || (b == c && |q| < |p|)) {
      var q, b :| Improves(W, s, dist, q, b) && (b < c || (b == c && |q| < |p|));
      CostNonNegative(W, p, c);
      CostNonNegative(W, q, b);
      y := PassSettlesOne(W, s, dist, dist', q, b);
    } else {
      y := p[|p| - 1];
      assert WalkCosts(W, p, s, y, c);
      assert CostTo(W, s, y, c);
      CostNonNegative(W, p, c);
      var w := LastStep(W, p, c);
      var q := p[..|p| - 1];
      var z := q[|q| - 1];
      assert HasArc(W, z, y, w);
      assert !Improves(W, s, dist, q, c - w);
      forall b: int | CostTo(W, s, y, b) && b < INF
        ensures dist'[y] <= b
      {
        if b < c {
          var r :| WalkCosts(W, r, s, y, b);
          assert Improves(W, s, dist, r, b);
          assert false;
        }
      }
    }
  }

  ghost function Finals(W: Arcs, s: nat, dist: seq<u64>): (S: set<nat>)
    ensures forall v: nat :: v in S <==> v < |dist| && Final(W, s, dist, v, INF)
  {
    set v | v in Range(0, |dist|) && Final(W, s, dist, v, INF)
  }

  lemma NotFinalImproves(W: Arcs, s: nat, dist: seq<u64>, v: nat) returns (p: seq<nat>, c: int)
    requires v < |dist| && !Final(W, s, dist, v, INF)
    ensures Improves(W, s, dist, p, c)
  {
    c :| CostTo(W, s, v, c) && c < INF && dist[v] > c;
    p :| WalkCosts(W, p, s, v, c);
  }

  /** A pass keeps final entries final and, unless all are, adds one. */
  lemma PassGrows(W: Arcs, s: nat, dist: seq<u64>, dist': seq<u64>)
    requires Tentative(W, s, dist) && Passed(W, dist, dist')
    ensures Finals(W, s, dist) <= Finals(W, s, dist')
    ensures Finals(W, s, dist) == Range(0, |dist|) || |Finals(W, s, dist')| > |Finals(W, s, dist)|
  {
    forall v | v in Finals(W, s, dist)
      ensures v in Finals(W, s, dist')
    {
      assert Final(W, s, dist, v, INF);
    }
    if Finals(W, s, dist) != Range(0, |dist|) {
      var v :| v in Range(0, |dist|) && v !in Finals(W, s, dist);
      var p, c := NotFinalImproves(W, s, dist, v);
      var y := PassSettlesOne(W, s, dist, dist', p, c);
      SubsetSize(Finals(W, s, dist), Finals(W, s, dist'));
    }
  }

  lemma RelaxKeepsTentative(W: Arcs, s: nat, dist: seq<u64>, u: nat, v: nat, w: nat)
    requires Tentative(W, s, dist) && u < |dist| && v < |dist| && dist[u] < INF && (u, v, w) in W
    requires dist[u] + w < dist[v]
    ensures Tentative(W, s, dist[v := dist[u] + w])
  {
    CostStep(W, s, u, v, dist[u], w);
  }

  /** One pass over the edge list, in place. */
  method RelaxAll(edges: seq<Triple>, ghost s: nat, dist0: seq<u64>) returns (dist: seq<u64>, updated: bool)
    requires ListInRange(|dist0|, edges) && Tentative(ArcsOfList(edges), s, dist0)
    ensures |dist| == |dist0| && Tentative(ArcsOfList(edges), s, dist) && Passed(ArcsOfList(edges), dist0, dist)
    ensures !updated ==> dist == dist0
  {
    hide Tentative;
    ghost var W := ArcsOfList(edges);
    dist, updated := dist0, false;
    for i := 0 to |edges|
      invariant |dist| == |dist0| && Tentative(W, s, dist)
      invariant forall v :: 0 <= v < |dist| ==> dist[v] <= dist0[v]
      invariant forall j :: 0 <= j < i ==>
        dist0[edges[j].tail] == INF || dist[edges[j].head] <= dist0[edges[j].tail] as int + edges[j].weight
      invariant !updated ==> dist == dist0
    {
      var Triple(u, w, weight) := edges[i];
      assert edges[i] in edges && (u, w, weight) in W;
      TentativeBound(W, s, dist0, u);
      if dist[u] != INF {
        TentativeBound(W, s, dist, u);
        TentativeBound(W, s, dist, w);
        var candidate := SaturatingAdd(dist[u], weight);
        if candidate < dist[w] {
          RelaxKeepsTentative(W, s, dist, u, w, weight);
          dist := dist[w := candidate];
          updated := true;
        }
      }
    }
    forall u: nat, v: nat, w: nat | HasArc(W, u, v, w)
      ensures u < |dist0| && v < |dist0| && (dist0[u] == INF || dist[v] <= dist0[u] + w)
    {
      var j :| 0 <= j < |edges| && edges[j] == Triple(u, v, w);
    }
  }

  lemma TentativeBound(W: Arcs, s: nat, dist: seq<u64>, v: nat)
    requires Tentative(W, s, dist) && v < |dist|
    ensures dist[v] <= INF
  {
  }

  /** Over unsigned weights there is no negative cycle to report: the result is always there and
      holds min(shortest distance, INF), early exit or not. */
  method BellmanFord(n: nat, edges: seq<Triple>, source: nat) returns (r: Option<seq<u64>>)
    requires source < n && ListInRange(n, edges)
    ensures r.Some? && |r.value| == n && Distances(ArcsOfList(edges), source, r.value, INF)
  {
    ghost var W := ArcsOfList(edges);
    var dist: seq<u64> := seq(n, _ => INF);
    dist := dist[source := 0];
    Start(W, source, dist);
    hide Tentative, Passed, Final;
    for i := 0 to n - 1
      invariant |dist| == n && Tentative(W, source, dist)
      invariant |Finals(W, source, dist)| >= i + 1 || Finals(W, source, dist) == Range(0, n)
    {
      ghost var before := dist;
      var updated;
      dist, updated := RelaxAll(edges, source, dist);
      PassGrows(W, source, before, dist);
      FinalsAtMost(W, source, dist);
      if !updated {
        break;
      }
    }
    FinalsAtMost(W, source, dist);
    for i := 0 to |edges|
    {
      var Triple(u, w, weight) := edges[i];
      if dist[u] != INF {
        var candidate := SaturatingAdd(dist[u], weight);
        if candidate < dist[w] {
          assert edges[i] in edges;
          NothingLeft(W, source, dist, u, w, weight);
          assert false;
          return None;
        }
      }
    }
    r := Some(dist);
  }

  lemma Start(W: Arcs, s: nat, dist: seq<u64>)
    requires s < |dist| && dist[s] == 0 && forall v :: 0 <= v < |dist| && v != s ==> dist[v] == INF
    ensures Tentative(W, s, dist) && |Finals(W, s, dist)| >= 1
  {
    CostHere(W, s);
    forall c: int | CostTo(W, s, s, c) && c < INF
      ensures dist[s] <= c
    {
      var p :| WalkCosts(W, p, s, s, c);
      CostNonNegative(W, p, c);
    }
    assert Final(W, s, dist, s, INF);
    SubsetSize({s}, Finals(W, s, dist));
  }

  lemma FinalsAtMost(W: Arcs, s: nat, dist: seq<u64>)
    ensures |Finals(W, s, dist)| <= |dist|
    ensures |Finals(W, s, dist)| == |dist| ==> Finals(W, s, dist) == Range(0, |dist|)
  {
    SubsetSize(Finals(W, s, dist), Range(0, |dist|));
  }

  lemma NothingLeft(W: Arcs, s: nat, dist: seq<u64>, u: nat, v: nat, w: nat)
    requires Tentative(W, s, dist) && Finals(W, s, dist) == Range(0, |dist|)
    requires u < |dist| && v < |dist| && dist[u] != INF && w <= U64_MAX && (u, v, w) in W
    ensures dist[v] <= SaturatingAdd(dist[u], w)
  {
    CostStep(W, s, u, v, dist[u], w);
    assert v in Finals(W, s, dist);
    assert Final(W, s, dist, v, INF);
  }

  // ------------------------------------------------------------------------- agreement

  lemma ListStaysInRange(adj: seq<seq<(nat, u64)>>, edges: seq<Triple>)
    requires HeadsInRange(adj) && ArcsOf(adj) == ArcsOfList(edges)
    ensures ListInRange(|adj|, edges)
  {
    forall i | 0 <= i < |edges|
      ensures edges[i].tail < |adj| && edges[i].head < |adj|
    {
      var e := edges[i];
      assert e in edges && (e.tail, e.head, e.weight as nat) in ArcsOf(adj);
      var j: nat :| j < |adj[e.tail]| && adj[e.tail][j] == (e.head, e.weight);
    }
  }

  /** Both algorithms on one graph, given once as lists and once as triples: Bellman-Ford's result is
      Dijkstra's cut off at half the range, vertex by vertex. */
  method ShortestBothWays(adj: seq<seq<(nat, u64)>>, edges: seq<Triple>, start: nat)
      returns (dijkstra: seq<u64>, bellman: Option<seq<u64>>)
    requires HeadsInRange(adj) && start < |adj| && NoOverflow(ArcsOf(adj), start) && ArcsOf(adj) == ArcsOfList(edges)
    ensures |dijkstra| == |adj| && bellman.Some? && |bellman.value| == |adj|
    ensures forall v :: 0 <= v < |adj| ==>
        bellman.value[v] == if dijkstra[v] < U64_MAX / 2 then dijkstra[v] else U64_MAX / 2
  {
    ListStaysInRange(adj, edges);
    dijkstra := Dijkstra(adj, start);
    bellman := BellmanFord(|adj|, edges, start);
    forall v | 0 <= v < |adj|
      ensures bellman.value[v] == if dijkstra[v] < INF then dijkstra[v] else INF
    {
      CutoffsAgree(ArcsOf(adj), start, bellman.value, dijkstra, INF, U64_MAX, v);
    }
  }
}
