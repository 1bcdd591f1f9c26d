/** Peeling a graph by in-degree: what is peeled, in which order, and what remains.
    Shared by the cycle report and the layering. */
module Kahn {
  import opened Digraph
  import opened Lists

  ghost predicate Tangled(E: Edges, v: nat) {
    exists c :: OnCycle(E, c) && Reach(E, c, v)
  }

  // ----------------------------------------------------------------- counted in-edges

  /** How many edges, with multiplicity, run into `v` from the first `k` vertices outside `P`. */
  ghost function Pending(adj: seq<seq<nat>>, P: set<nat>, v: nat, k: nat): nat
    requires k <= |adj|
  {
    if k == 0 then 0 else
      Pending(adj, P, v, k - 1) + (if k - 1 in P then 0 else multiset(adj[k - 1])[v])
  }

  lemma {:induction false} PendingZero(adj: seq<seq<nat>>, P: set<nat>, v: nat, k: nat)
    requires k <= |adj|
    ensures Pending(adj, P, v, k) == 0 <==> forall u :: 0 <= u < k && u !in P ==> v !in adj[u]
  {
    if k == 0 {
    } else {
      PendingZero(adj, P, v, k - 1);
      assert v in multiset(adj[k - 1]) <==> v in adj[k - 1];
    }
  }

  lemma PendingPredecessor(adj: seq<seq<nat>>, P: set<nat>, v: nat) returns (a: nat)
    requires v < |adj| && Pending(adj, P, v, |adj|) > 0
    ensures a < |adj| && a !in P && (a, v) in Inner(adj)
  {
    PendingZero(adj, P, v, |adj|);
    a :| 0 <= a < |adj| && a !in P && v in adj[a];
  }

  lemma NonePending(adj: seq<seq<nat>>, P: set<nat>, v: nat)
    requires Pending(adj, P, v, |adj|) == 0
    ensures forall a: nat :: (a, v) in Inner(adj) ==> a in P
  {
    PendingZero(adj, P, v, |adj|);
  }

  lemma {:induction false} PendingRelease(adj: seq<seq<nat>>, P: set<nat>, u: nat, v: nat, k: nat)
    requires k <= |adj| && u < |adj| && u !in P
    ensures Pending(adj, P, v, k) == Pending(adj, P + {u}, v, k) + (if u < k then multiset(adj[u])[v] else 0)
  {
    if k == 0 {
    } else {
      PendingRelease(adj, P, u, v, k - 1);
    }
  }

  // --------------------------------------------------------------- peeled orders

  /** Every vertex comes after all its predecessors. */
  ghost predicate PredecessorsFirst(E: Edges, order: seq<nat>) {
    forall i, a :: 0 <= i < |order| && (a, order[i]) in E ==> a in order[..i]
  }

  lemma {:induction false} PeeledPath(E: Edges, order: seq<nat>, p: seq<nat>, i: nat) returns (j: nat)
    requires PredecessorsFirst(E, order) && IsPath(E, p) && i < |order| && p[|p| - 1] == order[i]
    ensures j <= i && order[j] == p[0] && (|p| > 1 ==> j < i)
    decreases |p|
  {
    if |p| == 1 {
      j := i;
    } else {
      var q := p[..|p| - 1];
      assert (p[|p| - 2], p[|p| - 2 + 1]) in E;
      assert IsPath(E, q) by { SubPath(E, p, 0, |p| - 2); assert p[0..|p| - 2 + 1] == q; }
      var m :| 0 <= m < i && order[m] == p[|p| - 2];
      j := PeeledPath(E, order, q, m);
    }
  }

  /** Nothing peeled is reachable from a cycle. */
  lemma PeeledIsUntangled(E: Edges, order: seq<nat>, v: nat)
    requires PredecessorsFirst(E, order) && NoDuplicates(order) && v in order
    ensures !Tangled(E, v)
  {
    if Tangled(E, v) {
      var c :| OnCycle(E, c) && Reach(E, c, v);
      var w :| (c, w) in E && Reach(E, w, c);
      var p :| PathFromTo(E, p, c, v);
      var i :| 0 <= i < |order| && order[i] == v;
      var j := PeeledPath(E, order, p, i);
      var q :| PathFromTo(E, q, w, c);
      PathConcat(E, [c, w], q);
      var k := PeeledPath(E, order, [c, w] + q[1..], j);
      assert false;
    }
  }

  lemma PathPrepend(E: Edges, a: nat, p: seq<nat>)
    requires IsPath(E, p) && (a, p[0]) in E
    ensures PathFromTo(E, [a] + p, a, p[|p| - 1]) && Elements([a] + p) == {a} + Elements(p)
  {
    PathConcat(E, [a, p[0]], p);
    assert [a, p[0]] + p[1..] == [a] + p;
  }

  /** Some edge runs into `x` from the set `S`. */
  ghost predicate FedBy(E: Edges, S: set<nat>, x: nat) {
    exists a :: a in S && (a, x) in E
  }

  /** Where every vertex has a predecessor, every vertex is reachable from a cycle. */
  lemma RemainderIsTangled(E: Edges, S: set<nat>, v: nat)
    requires v in S && forall x :: x in S ==> FedBy(E, S, x)
    ensures Tangled(E, v)
  {
    var p := [v];
    while true
      invariant |p| > 0 && PathFromTo(E, p, p[0], v) && Elements(p) <= S && p[0] in S
      decreases S - Elements(p)
    {
      assert FedBy(E, S, p[0]);
      var a :| a in S && (a, p[0]) in E;
      if a in p {
        var j :| 0 <= j < |p| && p[j] == a;
        SubPath(E, p, 0, j);
        SubPath(E, p, j, |p| - 1);
        assert OnCycle(E, a);
        return;
      }
      PathPrepend(E, a, p);
      p := [a] + p;
    }
  }

  class Peeler {
    const adj: seq<seq<nat>>
    var indegree: seq<nat>
    var queue: seq<nat>

    /** In-degrees count the edges from unpeeled vertices; the queue holds the unpeeled vertices without any. */
    ghost predicate Counted(P: set<nat>)
      reads this
    {
      && |indegree| == |adj|
      && (forall v :: 0 <= v < |adj| ==> indegree[v] == Pending(adj, P, v, |adj|))
      && NoDuplicates(queue)
      && (forall v :: v in P ==> v < |adj| && indegree[v] == 0)
      && forall v: nat :: v in queue <==> v < |adj| && v !in P && indegree[v] == 0
    }

    constructor (adj: seq<seq<nat>>)
      ensures this.adj == adj && indegree == seq(|adj|, _ => 0) && queue == []
    {
      this.adj := adj;
      indegree, queue := seq(|adj|, _ => 0), [];
    }

    /** Count every in-range edge at its head, then queue the vertices without in-edges. */
    method Count()
      requires indegree == seq(|adj|, _ => 0) && queue == []
      modifies this`indegree, this`queue
      ensures Counted({})
    {
      for u := 0 to |adj|
        invariant |indegree| == |adj| && queue == []
        invariant forall v :: 0 <= v < |adj| ==> indegree[v] == Pending(adj, {}, v, u)
      {
        CountEdges(u);
      }
      for u := 0 to |adj|
        invariant |indegree| == |adj| && NoDuplicates(queue)
        invariant forall v :: 0 <= v < |adj| ==> indegree[v] == Pending(adj, {}, v, |adj|)
        invariant forall v: nat :: v in queue <==> v < u && indegree[v] == 0
      {
        if indegree[u] == 0 {
          assert u !in queue;
          queue := queue + [u];
        }
      }
    }

    method CountEdges(u: nat)
      requires u < |adj| == |indegree|
      requires forall v :: 0 <= v < |adj| ==> indegree[v] == Pending(adj, {}, v, u)
      modifies this`indegree
      ensures |indegree| == |adj|
      ensures forall v :: 0 <= v < |adj| ==> indegree[v] == Pending(adj, {}, v, u + 1)
    {
      for i := 0 to |adj[u]|
        invariant |indegree| == |adj|
        invariant forall v :: 0 <= v < |adj| ==> indegree[v] == Pending(adj, {}, v, u) + multiset(adj[u][..i])[v]
      {
        var v := adj[u][i];
        assert adj[u][..i + 1] == adj[u][..i] + [v];
        if v < |indegree| {
          indegree := indegree[v := indegree[v] + 1];
        }
      }
      assert adj[u][..|adj[u]|] == adj[u];
    }

    /** Part way through `u`'s edges: the first `i` no longer count. */
    ghost predicate Releasing(P: set<nat>, u: nat, i: nat)
      reads this
    {
      && u < |adj| == |indegree| && i <= |adj[u]|
      && (forall v :: 0 <= v < |adj| ==> indegree[v] == Pending(adj, P + {u}, v, |adj|) + multiset(adj[u][i..])[v])
      && NoDuplicates(queue)
      && indegree[u] == 0 && (forall v :: v in P ==> v < |adj| && indegree[v] == 0)
      && forall v: nat :: v in queue <==> v < |adj| && v !in P && indegree[v] == 0 && v != u
    }

    method ReleaseEdge(ghost P: set<nat>, u: nat, i: nat)
      requires Releasing(P, u, i) && i < |adj[u]|
      modifies this`indegree, this`queue
      ensures Releasing(P, u, i + 1)
      ensures queue == old(queue) || (queue == old(queue) + [adj[u][i]] && adj[u][i] < |adj|)
    {
      hide Pending;
      var v := adj[u][i];
      assert adj[u][i..] == [v] + adj[u][i + 1..];
      if v >= |adj| {
        return;
      }
      indegree := indegree[v := indegree[v] - 1];
      if indegree[v] == 0 {
        assert v !in queue;
        queue := queue + [v];
      }
    }

    /** Take `u`'s edges away and queue the heads that lose their last in-edge. */
    method Release(u: nat, ghost P: set<nat>)
      requires u < |adj| && u !in P && |indegree| == |adj| && NoDuplicates(queue)
      requires forall v :: 0 <= v < |adj| ==> indegree[v] == Pending(adj, P, v, |adj|)
      requires indegree[u] == 0 && forall v :: v in P ==> v < |adj| && indegree[v] == 0
      requires forall v: nat :: v in queue <==> v < |adj| && v !in P && indegree[v] == 0 && v != u
      modifies this`indegree, this`queue
      ensures Counted(P + {u})
      ensures old(queue) <= queue
      ensures forall i :: old(|queue|) <= i < |queue| ==> (u, queue[i]) in Inner(adj)
    {
      hide Pending;
      forall v | 0 <= v < |adj|
        ensures indegree[v] == Pending(adj, P + {u}, v, |adj|) + multiset(adj[u])[v]
      {
        PendingRelease(adj, P, u, v, |adj|);
      }
      assert adj[u][0..] == adj[u];
      for i := 0 to |adj[u]|
        invariant Releasing(P, u, i)
        invariant old(queue) <= queue
        invariant forall j :: old(|queue|) <= j < |queue| ==> (u, queue[j]) in Inner(adj)
      {
        ReleaseEdge(P, u, i);
      }
      assert adj[u][|adj[u]|..] == [];
    }
  }
}
