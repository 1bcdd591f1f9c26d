/** What best-first searches with a lazy heap keep: every scored vertex is queued with its
    present score or has all its edges relaxed.

    Shared by A* and Dijkstra. */
module SearchFrontier {
  import opened Machine
  import opened Sums
  import opened WeightedPaths

  /** A heap entry: priority and vertex. */
  type Entry = (u64, nat)

  ghost predicate IsFirst(open: multiset<Entry>, x: Entry) {
    x in open && forall y :: y in open ==> x.0 <= y.0
  }

  ghost predicate HeadsBelow(W: Arcs, n: nat) {
    forall u: nat, v: nat, w: nat :: HasArc(W, u, v, w) ==> v < n
  }

  /** Scores below the sentinel are costs of real walks. */
  ghost predicate Scored(W: Arcs, start: nat, g: seq<u64>) {
    && start < |g| && g[start] == 0
    && forall v :: 0 <= v < |g| && g[v] < U64_MAX ==> CostTo(W, start, v, g[v])
  }

  ghost predicate Relaxed(W: Arcs, g: seq<u64>, u: nat)
    requires u < |g|
  {
    forall v: nat, w: nat :: HasArc(W, u, v, w) ==> v < |g| && g[v] <= g[u] + w
  }

  /** `u` is queued with its present score. */
  ghost predicate Queued(g: seq<u64>, h: nat -> u64, open: multiset<Entry>, u: nat)
    requires u < |g|
  {
    (SaturatingAdd(g[u], h(u)), u) in open
  }

  /** Every scored vertex is queued or relaxed, `skip` excepted; entries are never better than the truth. */
  ghost predicate Frontier(W: Arcs, h: nat -> u64, g: seq<u64>, open: multiset<Entry>, skip: nat) {
    && (forall e :: e in open ==> e.1 < |g| && g[e.1] <= e.0 && g[e.1] < U64_MAX)
    && forall u :: 0 <= u < |g| && g[u] < U64_MAX && u != skip ==> Queued(g, h, open, u) || Relaxed(W, g, u)
  }

  lemma RelaxKeepsScores(W: Arcs, start: nat, g: seq<u64>, u: nat, v: nat, w: nat)
    requires Scored(W, start, g) && u < |g| && v < |g| && (u, v, w) in W && g[u] + w < g[v]
    ensures Scored(W, start, g[v := g[u] + w])
  {
    CostStep(W, start, u, v, g[u], w);
  }

  lemma RelaxKeepsFrontier(W: Arcs, h: nat -> u64, g: seq<u64>, open: multiset<Entry>, u: nat, v: nat, cand: u64)
    requires Frontier(W, h, g, open, u) && v < |g| && cand < g[v] && u != v
    ensures Frontier(W, h, g[v := cand], open + multiset{(SaturatingAdd(cand, h(v)), v)}, u)
  {
    var g' := g[v := cand];
    var open' := open + multiset{(SaturatingAdd(cand, h(v)), v)};
    forall x | 0 <= x < |g| && g'[x] < U64_MAX && x != u
      ensures Queued(g', h, open', x) || Relaxed(W, g', x)
    {
      if x != v && !Queued(g, h, open, x) {
        assert Relaxed(W, g, x);
      }
    }
  }

  lemma PopKeepsFrontier(W: Arcs, h: nat -> u64, g: seq<u64>, open: multiset<Entry>, x: Entry)
    requires Frontier(W, h, g, open, |g|) && x in open
    ensures Frontier(W, h, g, open - multiset{x}, x.1)
    ensures x.1 < |g| && g[x.1] <= x.0 && g[x.1] < U64_MAX
  {
  }

  lemma RelaxedRejoins(W: Arcs, h: nat -> u64, g: seq<u64>, open: multiset<Entry>, u: nat)
    requires Frontier(W, h, g, open, u) && (u < |g| ==> Queued(g, h, open, u) || Relaxed(W, g, u))
    ensures Frontier(W, h, g, open, |g|)
  {
  }

  /** On any walk, either its end already has a score as good, or some vertex before is queued
      with a score as good as the walk's cost so far. */
  lemma {:induction false} FrontierOnWalk(W: Arcs, h: nat -> u64, start: nat, g: seq<u64>, open: multiset<Entry>,
                                          p: seq<nat>, c: int)
      returns (y: nat, left: int)
    requires Frontier(W, h, g, open, |g|) && start < |g| && g[start] == 0 && HeadsBelow(W, |g|)
    requires Costs(W, p, c) && |p| > 0 && p[0] == start && c < U64_MAX
    ensures p[|p| - 1] < |g|
    ensures g[p[|p| - 1]] <= c || (y < |g| && Queued(g, h, open, y) && g[y] + left <= c &&
        CostTo(W, y, p[|p| - 1], left))
    decreases |p|
  {
    y, left := 0, 0;
    if |p| > 1 {
      var w := LastStep(W, p, c);
      var q := p[..|p| - 1];
      var z, x := q[|q| - 1], p[|p| - 1];
      y, left := FrontierOnWalk(W, h, start, g, open, q, c - w);
      if g[z] <= c - w {
        if Relaxed(W, g, z) {
          assert HasArc(W, z, x, w);
        } else {
          y, left := z, w;
          CostHere(W, z);
          CostStep(W, z, z, x, 0, w);
        }
      } else {
        CostStep(W, y, z, x, left, w);
        left := left + w;
      }
      assert HasArc(W, z, x, w);
    }
  }

  lemma ScoresSum(g: seq<u64>)
    ensures 0 <= Sum(g)
  {
    var zeros: seq<int> := seq(|g|, _ => 0);
    SumMonotone(zeros, g);
    SumZero(zeros);
  }

  // -------------------------------------------------------------------------- the heap

  /** A non-empty heap has a first entry under any order that compares priorities first. */
  lemma {:induction false} FirstOf(S: set<Entry>) returns (x: Entry)
    requires S != {}
    ensures x in S && forall y :: y in S ==> x.0 < y.0 || (x.0 == y.0 && x.1 >= y.1)
    decreases S
  {
    x :| x in S;
    var rest := S - {x};
    assert S == {x} + rest;
    if rest == {} {
    } else {
      var b := FirstOf(rest);
      if b.0 < x.0 || (b.0 == x.0 && b.1 > x.1) {
        x := b;
      }
    }
  }

  lemma FirstEntry(open: multiset<Entry>) returns (x: Entry)
    requires open != multiset{}
    ensures x in open && forall y :: y in open ==> x.0 < y.0 || (x.0 == y.0 && x.1 >= y.1)
  {
    var S := set y | y in open;
    var y :| y in open;
    assert y in S;
    x := FirstOf(S);
    assert forall y :: y in open ==> y in S;
  }
}
