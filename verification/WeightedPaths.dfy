/** Weighted directed graphs: walks, their costs and shortest distances.

    Parallel edges are kept apart by their weights, and a walk may repeat vertices,
    so a shortest distance is a minimum over all walks. */
module WeightedPaths {
  import opened Machine

  /** Triples (tail, head, weight); parallel edges may differ in weight. */
  type Arcs = set<(nat, nat, nat)>

  /** The vertex sequence `p` can be walked at cost `c`. */
  ghost predicate Costs(W: Arcs, p: seq<nat>, c: int)
    decreases |p|
  {
    if |p| <= 1 then |p| == 1 && c == 0
    else exists w: nat :: LastArc(W, p, w) && Costs(W, p[..|p| - 1], c - w)
  }

  ghost predicate HasArc(W: Arcs, u: nat, v: nat, w: nat) {
    (u, v, w) in W
  }

  ghost predicate LastArc(W: Arcs, p: seq<nat>, w: nat)
    requires |p| > 1
  {
    (p[|p| - 2], p[|p| - 1], w) in W
  }

  ghost predicate WalkCosts(W: Arcs, p: seq<nat>, u: nat, v: nat, c: int) {
    |p| > 0 && p[0] == u && p[|p| - 1] == v && Costs(W, p, c)
  }

  ghost predicate CostTo(W: Arcs, u: nat, v: nat, c: int) {
    exists p :: WalkCosts(W, p, u, v, c)
  }

  /** `d` is the shortest distance from `u` to `v`. */
  ghost predicate IsDistance(W: Arcs, u: nat, v: nat, d: int) {
    CostTo(W, u, v, d) && forall c :: CostTo(W, u, v, c) ==> d <= c
  }

  lemma CostNonNegative(W: Arcs, p: seq<nat>, c: int)
    requires Costs(W, p, c)
    ensures 0 <= c && |p| > 0
    decreases |p|
  {
    if |p| > 1 {
      var w: nat :| LastArc(W, p, w) && Costs(W, p[..|p| - 1], c - w);
      CostNonNegative(W, p[..|p| - 1], c - w);
    }
  }

  lemma CostHere(W: Arcs, u: nat)
    ensures CostTo(W, u, u, 0)
  {
    assert WalkCosts(W, [u], u, u, 0);
  }

  lemma WalkStep(W: Arcs, p: seq<nat>, c: int, v: nat, w: nat)
    requires Costs(W, p, c) && |p| > 0 && (p[|p| - 1], v, w) in W
    ensures Costs(W, p + [v], c + w)
  {
    var q := p + [v];
    assert q[..|q| - 1] == p && c + w - w == c && LastArc(W, q, w);
  }

  lemma CostStep(W: Arcs, u: nat, v: nat, x: nat, c: int, w: nat)
    requires CostTo(W, u, v, c) && (v, x, w) in W
    ensures CostTo(W, u, x, c + w)
  {
    var p :| WalkCosts(W, p, u, v, c);
    WalkStep(W, p, c, x, w);
    assert WalkCosts(W, p + [x], u, x, c + w);
  }

  /** A walk of more than one vertex ends with an edge. */
  lemma LastStep(W: Arcs, p: seq<nat>, c: int) returns (w: nat)
    requires |p| > 1 && Costs(W, p, c)
    ensures (p[|p| - 2], p[|p| - 1], w) in W && Costs(W, p[..|p| - 1], c - w) && 0 <= c - w
  {
    w :| LastArc(W, p, w) && Costs(W, p[..|p| - 1], c - w);
    CostNonNegative(W, p[..|p| - 1], c - w);
  }

  // -------------------------------------------------------------- weighted adjacency lists

  ghost function ArcsOf(graph: seq<seq<(nat, u64)>>): (W: Arcs)
    ensures forall u: nat, v: nat, w: nat :: (u, v, w) in W <==> u < |graph| && w <= U64_MAX && (v, w) in graph[u]
  {
    set u: nat, i: nat | 0 <= u < |graph| && 0 <= i < |graph[u]| :: (u, graph[u][i].0, graph[u][i].1 as nat)
  }

  ghost predicate HeadsInRange(graph: seq<seq<(nat, u64)>>) {
    forall u, i :: 0 <= u < |graph| && 0 <= i < |graph[u]| ==> graph[u][i].0 < |graph|
  }
}
