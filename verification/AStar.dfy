/** A* search: lazy heap without a closed set, so vertices may be expanded again. */
module AStar {
  import opened Machine
  import opened Options
  import opened SearchFrontier
  import opened Sums
  import opened WeightedPaths

  /** The heap's order on entries: the lower estimate first, then the higher vertex. */
  predicate Before(a: Entry, b: Entry) {
    a.0 < b.0 || (a.0 == b.0 && a.1 >= b.1)
  }

  /** `BinaryHeap::pop` on a non-empty heap. */
  method PopFirst(open: multiset<Entry>) returns (x: Entry, rest: multiset<Entry>)
    requires open != multiset{}
    ensures x in open && rest == open - multiset{x} && forall y :: y in open ==> Before(x, y)
  {
    ghost var first := FirstEntry(open);
    assert forall y :: y in open ==> Before(first, y);
    x :| x in open && forall y :: y in open ==> Before(x, y);
    rest := open - multiset{x};
  }

  // ------------------------------------------------------------------- search invariants

  /** Recorded scores are costs of real walks; parents explain them; the start keeps score 0. */
  ghost predicate Explained(W: Arcs, start: nat, g: seq<u64>, from: seq<Option<nat>>) {
    && Scored(W, start, g) && |from| == |g| && from[start] == None
    && (forall v :: 0 <= v < |g| && g[v] < U64_MAX ==> HasTrail(start, from, v))
    && (forall v :: 0 <= v < |g| && from[v].Some? ==> ParentFits(W, g, v, from[v].value))
  }

  /** The edge from the parent accounts for the score. */
  ghost predicate ParentFits(W: Arcs, g: seq<u64>, v: nat, u: nat)
    requires v < |g|
  {
    u < |g| && g[v] < U64_MAX && exists w: nat :: HasArc(W, u, v, w) && g[u] + w <= g[v]
  }

  /** `p` follows parents from `start`. */
  ghost predicate Trail(start: nat, from: seq<Option<nat>>, p: seq<nat>) {
    && |p| > 0 && p[0] == start && (forall i :: 0 <= i < |p| ==> p[i] < |from|)
    && forall i :: 0 <= i < |p| - 1 ==> from[p[i + 1]] == Some(p[i])
  }

  ghost predicate HasTrail(start: nat, from: seq<Option<nat>>, v: nat) {
    exists p :: Trail(start, from, p) && p[|p| - 1] == v
  }

  /** Scores do not fall along a trail. */
  lemma {:induction false} TrailRises(W: Arcs, start: nat, g: seq<u64>, from: seq<Option<nat>>, p: seq<nat>, i: nat)
    requires Explained(W, start, g, from) && Trail(start, from, p) && i < |p|
    ensures g[p[i]] <= g[p[|p| - 1]]
    decreases |p| - i
  {
    if i < |p| - 1 {
      TrailRises(W, start, g, from, p, i + 1);
      assert from[p[i + 1]] == Some(p[i]) && ParentFits(W, g, p[i + 1], p[i]);
    }
  }

  /** A trail to a vertex with a lower score does not pass through `v`. */
  lemma TrailAvoids(W: Arcs, start: nat, g: seq<u64>, from: seq<Option<nat>>, p: seq<nat>, v: nat)
    requires Explained(W, start, g, from) && Trail(start, from, p) && v < |g| && g[p[|p| - 1]] < g[v]
    ensures v !in p
  {
    if v in p {
      var i :| 0 <= i < |p| && p[i] == v;
      TrailRises(W, start, g, from, p, i);
      assert false;
    }
  }

  lemma LastOccurrence(r: seq<nat>, v: nat) returns (j: nat)
    requires v in r
    ensures j < |r| && r[j] == v && forall k :: j < k < |r| ==> r[k] != v
  {
    j := |r| - 1;
    while r[j] != v
      invariant j < |r| && v in r[..j + 1] && forall k :: j < k < |r| ==> r[k] != v
      decreases j
    {
      assert r[..j + 1] == r[..j] + [r[j]];
      j := j - 1;
    }
  }

  /** Reroute a trail `r` through the new parent trail `q` of `v`. */
  lemma SpliceTrail(start: nat, from: seq<Option<nat>>, q: seq<nat>, r: seq<nat>, v: nat, p: Option<nat>)
      returns (s: seq<nat>)
    requires v < |from| && Trail(start, from, r)
    requires Trail(start, from[v := p], q) && q[|q| - 1] == v
    ensures Trail(start, from[v := p], s) && s[|s| - 1] == r[|r| - 1]
  {
    var from' := from[v := p];
    if v !in r {
      s := r;
      return;
    }
    var j := LastOccurrence(r, v);
    s := q + r[j + 1..];
    forall i | 0 <= i < |s| - 1
      ensures from'[s[i + 1]] == Some(s[i])
    {
      if i >= |q| - 1 {
        var k := i - (|q| - 1) + j;
        assert s[i] == r[k] && s[i + 1] == r[k + 1];
      }
    }
  }

  /** Giving `v` the parent `u` with a strictly better score keeps every trail acyclic. */
  lemma ReparentKeepsTrail(W: Arcs, start: nat, g: seq<u64>, from: seq<Option<nat>>, u: nat, v: nat, x: nat)
    requires Explained(W, start, g, from) && u < |g| && v < |g| && g[u] < g[v]
    requires x < |g| && (x == v || g[x] < U64_MAX)
    ensures HasTrail(start, from[v := Some(u)], x)
  {
    var from' := from[v := Some(u)];
    assert HasTrail(start, from, u);
    var p :| Trail(start, from, p) && p[|p| - 1] == u;
    TrailAvoids(W, start, g, from, p, v);
    var q := p + [v];
    assert Trail(start, from', q) && q[|q| - 1] == v;
    if x != v {
      assert HasTrail(start, from, x);
      var r :| Trail(start, from, r) && r[|r| - 1] == x;
      var s := SpliceTrail(start, from, q, r, v, Some(u));
    }
  }

  /** One successful relaxation. */
  lemma RelaxKeepsExplained(W: Arcs, start: nat, g: seq<u64>, from: seq<Option<nat>>, u: nat, v: nat, w: nat)
    requires Explained(W, start, g, from) && u < |g| && v < |g| && (u, v, w) in W
    requires g[u] + w < g[v]
    ensures Explained(W, start, g[v := g[u] + w], from[v := Some(u)])
  {
    var g', from' := g[v := g[u] + w], from[v := Some(u)];
    CostStep(W, start, u, v, g[u], w);
    forall x | 0 <= x < |g| && g'[x] < U64_MAX
      ensures HasTrail(start, from', x)
    {
      ReparentKeepsTrail(W, start, g, from, u, v, x);
    }
    forall x | 0 <= x < |g| && from'[x].Some?
      ensures ParentFits(W, g', x, from'[x].value)
    {
      if x == v {
        assert HasArc(W, u, v, w);
      } else {
        assert ParentFits(W, g, x, from[x].value);
      }
    }
  }

  /** The heuristic never overestimates. */
  ghost predicate Admissible(W: Arcs, h: nat -> u64, goal: nat) {
    forall v: nat, c: int :: CostTo(W, v, goal, c) ==> h(v) <= c
  }

  /** Once scored, the goal stays queued: it is never expanded. */
  ghost predicate GoalQueued(h: nat -> u64, goal: nat, g: seq<u64>, open: multiset<Entry>) {
    goal < |g| && (g[goal] < U64_MAX ==> Queued(g, h, open, goal))
  }

  /** The goal's score at the moment its entry comes out first is the shortest distance. */
  lemma GoalIsOptimal(W: Arcs, h: nat -> u64, start: nat, goal: nat, g: seq<u64>, open: multiset<Entry>, x: Entry,
                      c: int)
    requires Frontier(W, h, g, open, |g|) && goal < |g| && start < |g| && g[start] == 0 && HeadsBelow(W, |g|)
    requires Admissible(W, h, goal) && IsFirst(open, x) && x.1 == goal && CostTo(W, start, goal, c)
    ensures g[goal] <= c
  {
    if c < U64_MAX {
      var p :| WalkCosts(W, p, start, goal, c);
      var y, left := FrontierOnWalk(W, h, start, g, open, p, c);
      if g[goal] > c {
        assert false;
      }
    }
  }

  /** A heap that runs dry has seen everything reachable within range. */
  lemma DryHeap(W: Arcs, h: nat -> u64, start: nat, goal: nat, g: seq<u64>, c: int)
    requires Frontier(W, h, g, multiset{}, |g|) && GoalQueued(h, goal, g, multiset{}) && HeadsBelow(W, |g|)
    requires start < |g| && g[start] == 0
    requires c < U64_MAX
    ensures !CostTo(W, start, goal, c)
  {
    if CostTo(W, start, goal, c) {
      var p :| WalkCosts(W, p, start, goal, c);
      var y, left := FrontierOnWalk(W, h, start, g, multiset{}, p, c);
      assert false;
    }
  }

  // ------------------------------------------------------------------- the path back

  /** A trail can be walked at no more than its end's score. */
  lemma {:induction false} TrailCosts(W: Arcs, start: nat, g: seq<u64>, from: seq<Option<nat>>, p: seq<nat>)
      returns (c: int)
    requires Explained(W, start, g, from) && Trail(start, from, p)
    ensures Costs(W, p, c) && c <= g[p[|p| - 1]]
    decreases |p|
  {
    if |p| == 1 {
      c := 0;
    } else {
      var q := p[..|p| - 1];
      var u, v := p[|p| - 2], p[|p| - 1];
      assert from[p[|p| - 2 + 1]] == Some(p[|p| - 2]);
      assert ParentFits(W, g, v, u);
      var w: nat :| HasArc(W, u, v, w) && g[u] + w <= g[v];
      c := TrailCosts(W, start, g, from, q);
      WalkStep(W, q, c, v, w);
      assert q + [v] == p;
      c := c + w;
    }
  }

  function Reversed(s: seq<nat>): (r: seq<nat>)
    ensures |r| == |s| && forall i :: 0 <= i < |s| ==> r[i] == s[|s| - 1 - i]
  {
    if s == [] then [] else Reversed(s[1..]) + [s[0]]
  }

  method ReconstructPath(goal: nat, from: seq<Option<nat>>, ghost start: nat, ghost p: seq<nat>)
      returns (path: seq<nat>)
    requires Trail(start, from, p) && p[|p| - 1] == goal && from[start] == None
    ensures path == p
  {
    var back: seq<nat> := [];
    var cur := Some(goal);
    ghost var k := |p|;
    while cur.Some?
      invariant 0 <= k <= |p| && back == Reversed(p[k..])
      invariant cur == if k == 0 then None else Some(p[k - 1])
      decreases k
    {
      assert p[k - 1..] == [p[k - 1]] + p[k..];
      assert k > 1 ==> from[p[k - 2 + 1]] == Some(p[k - 2]);
      back := back + [cur.value];
      cur := from[cur.value];
      k := k - 1;
    }
    assert p[0..] == p;
    path := Reversed(back);
    assert path == p;
  }

  lemma Begin(W: Arcs, h: nat -> u64, start: nat, goal: nat, g: seq<u64>, from: seq<Option<nat>>)
    requires start < |g| == |from| && goal < |g| && g[start] == 0
    requires forall v :: 0 <= v < |g| ==> from[v] == None && (v != start ==> g[v] == U64_MAX)
    ensures Explained(W, start, g, from)
    ensures Frontier(W, h, g, multiset{(h(start), start)}, |g|) && GoalQueued(h, goal, g, multiset{(h(start), start)})
  {
    CostHere(W, start);
    assert Trail(start, from, [start]);
    assert HasTrail(start, from, start);
  }

  /** What the search returns when the goal comes out of the heap. */
  lemma Answer(W: Arcs, h: nat -> u64, start: nat, goal: nat, g: seq<u64>, from: seq<Option<nat>>,
               open: multiset<Entry>, x: Entry, p: seq<nat>)
    requires Explained(W, start, g, from) && Frontier(W, h, g, open, |g|) && HeadsBelow(W, |g|)
    requires IsFirst(open, x) && x.1 == goal && Trail(start, from, p) && p[|p| - 1] == goal
    ensures g[goal] < U64_MAX && CostTo(W, start, goal, g[goal])
    ensures exists c: int :: c <= g[goal] && WalkCosts(W, p, start, goal, c)
    ensures Admissible(W, h, goal) ==> IsDistance(W, start, goal, g[goal]) && WalkCosts(W, p, start, goal, g[goal])
  {
    var c := TrailCosts(W, start, g, from, p);
    assert c <= g[goal] && WalkCosts(W, p, start, goal, c);
    assert CostTo(W, start, goal, c);
    if Admissible(W, h, goal) {
      forall c' | CostTo(W, start, goal, c')
        ensures g[goal] <= c'
      {
        GoalIsOptimal(W, h, start, goal, g, open, x, c');
      }
      assert c == g[goal];
    }
  }

  /** Expand `u`: relax each of its edges in turn. */
  method Expand(graph: seq<seq<(nat, u64)>>, ghost start: nat, ghost goal: nat, h: nat -> u64, u: nat,
                g0: seq<u64>, from0: seq<Option<nat>>, open0: multiset<Entry>)
      returns (g: seq<u64>, from: seq<Option<nat>>, open: multiset<Entry>)
    requires HeadsInRange(graph) && |g0| == |graph| == |from0| && u < |g0| && g0[u] < U64_MAX
    requires Explained(ArcsOf(graph), start, g0, from0)
    requires Frontier(ArcsOf(graph), h, g0, open0, u) && GoalQueued(h, goal, g0, open0)
    ensures |g| == |graph| == |from| && Explained(ArcsOf(graph), start, g, from)
    ensures Frontier(ArcsOf(graph), h, g, open, |g|) && GoalQueued(h, goal, g, open)
    ensures Sum(g) < Sum(g0) || (g == g0 && open == open0)
  {
    hide Explained, Frontier;
    ghost var W := ArcsOf(graph);
    g, from, open := g0, from0, open0;
    var base := g[u];
    for i := 0 to |graph[u]|
      invariant |g| == |graph| == |from| && g[u] == base && Explained(W, start, g, from)
      invariant Frontier(W, h, g, open, u) && GoalQueued(h, goal, g, open)
      invariant forall j :: 0 <= j < i ==> g[graph[u][j].0] <= base as int + graph[u][j].1
      invariant Sum(g) < Sum(g0) || (g == g0 && open == open0)
    {
      var (v, w) := graph[u][i];
      assert (v, w) in graph[u] && (u, v, w) in W;
      var cand := SaturatingAdd(base, w);
      if cand < g[v] {
        RelaxKeepsExplained(W, start, g, from, u, v, w);
        RelaxKeepsFrontier(W, h, g, open, u, v, cand);
        SumUpdate(g, v, cand);
        g := g[v := cand];
        from := from[v := Some(u)];
        var f := SaturatingAdd(cand, h(v));
        open := open + multiset{(f, v)};
      }
    }
    RelaxedRejoins(W, h, g, open, u);
  }

  /** Some exactly when the goal is reachable at a cost below the sentinel; with an admissible
      heuristic the cost is the shortest distance and the path is walked at exactly that cost. */
  method AStarSearch(graph: seq<seq<(nat, u64)>>, start: nat, goal: nat, h: nat -> u64)
      returns (r: Option<(u64, seq<nat>)>)
    requires HeadsInRange(graph)
    ensures r.Some? <==>
        start < |graph| && goal < |graph| && exists c: int :: c < U64_MAX && CostTo(ArcsOf(graph), start, goal, c)
    ensures r.Some? ==>
      var (cost, path) := r.value;
      && cost < U64_MAX && CostTo(ArcsOf(graph), start, goal, cost)
      && exists c: int :: c <= cost && WalkCosts(ArcsOf(graph), path, start, goal, c)
    ensures r.Some? && Admissible(ArcsOf(graph), h, goal) ==>
      var (cost, path) := r.value;
      IsDistance(ArcsOf(graph), start, goal, cost) && WalkCosts(ArcsOf(graph), path, start, goal, cost)
  {
    if start >= |graph| || goal >= |graph| {
      return None;
    }
    hide Explained, Frontier, CostTo;
    ghost var W := ArcsOf(graph);
    var g: seq<u64> := seq(|graph|, _ => U64_MAX);
    var from: seq<Option<nat>> := seq(|graph|, _ => None);
    g := g[start := 0];
    var open: multiset<Entry> := multiset{(h(start), start)};
    Begin(W, h, start, goal, g, from);
    ScoresSum(g);
    while open != multiset{}
      invariant |g| == |graph| == |from| && Explained(W, start, g, from)
      invariant Frontier(W, h, g, open, |g|) && GoalQueued(h, goal, g, open)
      invariant 0 <= Sum(g)
      decreases Sum(g), |open|
    {
      var x, rest := PopFirst(open);
      var u := x.1;
      PopKeepsFrontier(W, h, g, open, x);
      if u == goal {
        ghost var p :| Trail(start, from, p) && p[|p| - 1] == goal;
        var path := ReconstructPath(goal, from, start, p);
        Answer(W, h, start, goal, g, from, open, x, p);
        return Some((g[u], path));
      }
      var base := g[u];
      if base == U64_MAX {
        assert false; // a queued vertex always has a score
      }
      g, from, open := Expand(graph, start, goal, h, u, g, from, rest);
      ScoresSum(g);
    }
    forall c: int | c < U64_MAX
      ensures !CostTo(W, start, goal, c)
    {
      DryHeap(W, h, start, goal, g, c);
    }
    r := None;
  }
}
