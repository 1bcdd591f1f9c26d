/** Directed graphs as edge sets: paths, reachability and mutual reachability.

    A path is a non-empty vertex sequence, so every vertex reaches itself; a cycle
    needs at least one edge. Adjacency lists are turned into edge sets with
    `EdgesOf`, or with `Inner` where the source ignores heads out of range. */
module Digraph {
  import opened Lists

  type Edges = set<(nat, nat)>

  ghost predicate IsPath(E: Edges, p: seq<nat>) {
    |p| > 0 && forall i :: 0 <= i < |p| - 1 ==> (p[i], p[i + 1]) in E
  }

  ghost predicate PathFromTo(E: Edges, p: seq<nat>, u: nat, v: nat) {
    IsPath(E, p) && p[0] == u && p[|p| - 1] == v
  }

  ghost predicate Reach(E: Edges, u: nat, v: nat) {
    exists p :: PathFromTo(E, p, u, v)
  }

  ghost predicate Mutual(E: Edges, u: nat, v: nat) {
    Reach(E, u, v) && Reach(E, v, u)
  }

  lemma ReachSelf(E: Edges, u: nat)
    ensures Reach(E, u, u)
  {
    assert PathFromTo(E, [u], u, u);
  }

  lemma PathConcat(E: Edges, p: seq<nat>, q: seq<nat>)
    requires IsPath(E, p) && IsPath(E, q) && p[|p| - 1] == q[0]
    ensures PathFromTo(E, p + q[1..], p[0], q[|q| - 1])
  {
    var r := p + q[1..];
    forall i | 0 <= i < |r| - 1
      ensures (r[i], r[i + 1]) in E
    {
      if i >= |p| - 1 {
        var j := i - (|p| - 1);
        assert r[i] == q[j] && r[i + 1] == q[j + 1];
      }
    }
  }

  lemma ReachTrans(E: Edges, u: nat, v: nat, w: nat)
    requires Reach(E, u, v) && Reach(E, v, w)
    ensures Reach(E, u, w)
  {
    var p :| PathFromTo(E, p, u, v);
    var q :| PathFromTo(E, q, v, w);
    PathConcat(E, p, q);
  }

  lemma ReachEdge(E: Edges, u: nat, v: nat)
    requires (u, v) in E
    ensures Reach(E, u, v)
  {
    assert PathFromTo(E, [u, v], u, v);
  }

  lemma SubPath(E: Edges, p: seq<nat>, i: nat, j: nat)
    requires IsPath(E, p) && i <= j < |p|
    ensures PathFromTo(E, p[i..j + 1], p[i], p[j]) && Reach(E, p[i], p[j])
  {
    var q := p[i..j + 1];
    forall k | 0 <= k < |q| - 1
      ensures (q[k], q[k + 1]) in E
    {
      assert (p[i + k], p[i + k + 1]) in E;
    }
    assert PathFromTo(E, q, p[i], p[j]);
  }

  /** A path out of a set has a first step that leaves it. */
  lemma {:induction false} FirstExit(E: Edges, p: seq<nat>, S: set<nat>) returns (i: nat)
    requires IsPath(E, p) && p[0] in S && p[|p| - 1] !in S
    ensures i + 1 < |p| && p[i + 1] !in S && forall j :: 0 <= j <= i ==> p[j] in S
    ensures (p[i], p[i + 1]) in E
  {
    i := 0;
    while p[i + 1] in S
      invariant i + 1 < |p| && forall j :: 0 <= j <= i ==> p[j] in S
      decreases |p| - i
    {
      i := i + 1;
    }
  }

  /** Nothing outside a closed set is reachable from inside it. */
  lemma ClosedTraps(E: Edges, S: set<nat>, u: nat, v: nat)
    requires u in S && Reach(E, u, v)
    requires forall a, b :: a in S && (a, b) in E ==> b in S
    ensures v in S
  {
    var p :| PathFromTo(E, p, u, v);
    if v !in S {
      var i := FirstExit(E, p, S);
      assert false;
    }
  }

  ghost function Reverse(E: Edges): (R: Edges)
    ensures forall u: nat, v: nat :: (u, v) in R <==> (v, u) in E
  {
    set e | e in E :: (e.1, e.0)
  }

  lemma ReverseReach(E: Edges, u: nat, v: nat)
    requires Reach(E, u, v)
    ensures Reach(Reverse(E), v, u)
  {
    var p :| PathFromTo(E, p, u, v);
    var q := seq(|p|, i requires 0 <= i < |p| => p[|p| - 1 - i]);
    forall i | 0 <= i < |q| - 1
      ensures (q[i], q[i + 1]) in Reverse(E)
    {
      assert (p[|p| - 2 - i], p[|p| - 2 - i + 1]) in E;
    }
    assert PathFromTo(Reverse(E), q, v, u);
  }

  lemma ReverseReverse(E: Edges)
    ensures Reverse(Reverse(E)) == E
  {
  }

  /** A cycle through `v`: a path of at least one step from `v` to itself. */
  ghost predicate OnCycle(E: Edges, v: nat) {
    exists w :: (v, w) in E && Reach(E, w, v)
  }

  // ------------------------------------------------- predecessor maps and adjacency lists

  type Preds = map<nat, seq<nat>>

  /** A vertex without an entry has no predecessors. */
  function PredList(preds: Preds, v: nat): (r: seq<nat>)
    ensures v in preds ==> r == preds[v]
    ensures v !in preds ==> |r| == 0
  {
    if v in preds then preds[v] else []
  }

  ghost function EdgesOf(adj: seq<seq<nat>>): (E: Edges)
    ensures forall u: nat, v: nat :: (u, v) in E <==> u < |adj| && v in adj[u]
  {
    set u: nat, v: nat | 0 <= u < |adj| && v in adj[u] :: (u, v)
  }

  /** The edges that stay in range; the rest are skipped. */
  ghost function Inner(adj: seq<seq<nat>>): (E: Edges)
    ensures forall u: nat, v: nat :: (u, v) in E <==> u < |adj| && v < |adj| && v in adj[u]
  {
    set u: nat, v: nat | 0 <= u < |adj| && v in adj[u] && v < |adj| :: (u, v)
  }

  ghost predicate InRange(adj: seq<seq<nat>>) {
    forall u, i :: 0 <= u < |adj| && 0 <= i < |adj[u]| ==> adj[u][i] < |adj|
  }

  ghost function Elements<T(!new)>(s: seq<T>): (r: set<T>)
    ensures forall x :: x in r <==> x in s
  {
    set i | 0 <= i < |s| :: s[i]
  }

  lemma {:induction false} ElementsSize<T(!new)>(s: seq<T>)
    requires NoDuplicates(s)
    ensures |Elements(s)| == |s|
  {
    if |s| == 0 {
      assert Elements(s) == {};
    } else {
      var t := s[..|s| - 1];
      ElementsSize(t);
      assert Elements(s) == Elements(t) + {s[|s| - 1]};
      assert s[|s| - 1] !in Elements(t);
    }
  }
}
