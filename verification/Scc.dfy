/** Strongly connected components by two depth-first passes. */
module Scc {
  import opened Digraph
  import opened Finite
  import opened Lists

  // ------------------------------------------------------------- what a finish order tells

  /** When `order[i]` was finished, every edge out of a finished vertex led to a finished one
      or to an open one, and every open one reached `order[i]`. */
  ghost predicate Snapshot(E: Edges, order: seq<nat>, i: nat, open: set<nat>)
    requires i < |order|
  {
    && (forall g :: g in open ==> Reach(E, g, order[i]))
    && forall x, y :: x in order[..i + 1] && (x, y) in E ==> y in order[..i + 1] || y in open
  }

  ghost predicate FinishOrder(E: Edges, order: seq<nat>) {
    && NoDuplicates(order)
    && forall i :: 0 <= i < |order| ==> HasSnapshot(E, order, i)
  }

  ghost predicate HasSnapshot(E: Edges, order: seq<nat>, i: nat)
    requires i < |order|
  {
    exists open :: Snapshot(E, order, i, open)
  }

  ghost predicate Covers(E: Edges, order: seq<nat>) {
    forall e :: e in E ==> e.0 in order && e.1 in order
  }

  /** Whatever `u` reaches was finished no later than some vertex of `u`'s own component. */
  lemma FinishDominates(E: Edges, order: seq<nat>, u: nat, v: nat) returns (k: nat)
    requires FinishOrder(E, order) && Covers(E, order) && u in order && Reach(E, u, v)
    ensures k < |order| && Mutual(E, u, order[k]) && v in order[..k + 1]
  {
    ReachSelf(E, u);
    k := |order| - 1;
    while !Mutual(E, u, order[k])
      invariant k < |order|
      invariant forall j :: k < j < |order| ==> !Mutual(E, u, order[j])
      invariant u in order[..k + 1]
      decreases k
    {
      assert order[..k + 1] == order[..k] + [order[k]];
      k := k - 1;
    }
    if v !in order[..k + 1] {
      assert HasSnapshot(E, order, k);
      var open :| Snapshot(E, order, k, open);
      var p :| PathFromTo(E, p, u, v);
      var S := Elements(order[..k + 1]);
      var i := FirstExit(E, p, S);
      var g := p[i + 1];
      SubPath(E, p, 0, i + 1);
      ReachTrans(E, g, order[k], u);
      assert false;
    }
  }

  // ------------------------------------------------------------------ the first pass

  class FinishPass {
    const adj: seq<seq<nat>>
    var visited: seq<bool>
    var order: seq<nat>

    constructor (adj: seq<seq<nat>>)
      ensures this.adj == adj && order == [] && visited == seq(|adj|, _ => false)
    {
      this.adj := adj;
      visited, order := seq(|adj|, _ => false), [];
    }

    ghost function Unvisited(): set<nat>
      reads this
    {
      set v | 0 <= v < |visited| && !visited[v]
    }

    /** The visited vertices are the finished ones and the ones on the recursion stack. */
    ghost predicate Valid(open: set<nat>)
      reads this
    {
      && InRange(adj) && |visited| == |adj|
      && FinishOrder(EdgesOf(adj), order)
      && (forall v :: v in open ==> v !in order && v < |adj|)
      && (forall v :: v in order ==> v < |adj|)
      && (forall v :: 0 <= v < |adj| ==> (visited[v] <==> v in open || v in order))
      && forall x, y :: x in order && (x, y) in EdgesOf(adj) ==> y in order || y in open
    }

    method DfsFinish(v: nat, ghost open: set<nat>)
      requires Valid(open) && v < |adj| && !visited[v]
      requires forall g :: g in open ==> Reach(EdgesOf(adj), g, v)
      modifies this`visited, this`order
      ensures Valid(open) && v in order
      ensures Unvisited() < old(Unvisited())
      ensures forall x :: x in old(order) ==> x in order
      decreases Unvisited()
    {
      ghost var E := EdgesOf(adj);
      visited := visited[v := true];
      ghost var stack := open + {v};
      assert Valid(stack);
      assert v !in Unvisited() && v in old(Unvisited());
      ReachSelf(E, v);
      for i := 0 to |adj[v]|
        invariant Valid(stack)
        invariant forall j :: 0 <= j < i ==> visited[adj[v][j]]
        invariant Unvisited() < old(Unvisited())
        invariant forall x :: x in old(order) ==> x in order
      {
        var u := adj[v][i];
        if !visited[u] {
          forall g | g in stack
            ensures Reach(E, g, u)
          {
            ReachEdge(E, v, u);
            ReachTrans(E, g, v, u);
          }
          DfsFinish(u, stack);
        }
      }
      ghost var before := order;
      order := order + [v];
      FinishLast(E, before, v, open);
    }
  }

  /** Finishing `v` extends the finish order. */
  lemma FinishLast(E: Edges, order: seq<nat>, v: nat, open: set<nat>)
    requires FinishOrder(E, order) && v !in order
    requires forall g :: g in open ==> Reach(E, g, v)
    requires forall x, y :: (x in order || x == v) && (x, y) in E ==> y in order || y == v || y in open
    ensures FinishOrder(E, order + [v])
  {
    var order' := order + [v];
    forall i | 0 <= i < |order'|
      ensures HasSnapshot(E, order', i)
    {
      if i < |order| {
        assert order'[..i + 1] == order[..i + 1];
        assert HasSnapshot(E, order, i);
        var o :| Snapshot(E, order, i, o);
        assert Snapshot(E, order', i, o);
      } else {
        assert order'[..i + 1] == order';
        assert Snapshot(E, order', i, open);
      }
    }
  }

  // ------------------------------------------------------------------ the second pass

  class CollectPass {
    const adj: seq<seq<nat>>
    var visited: seq<bool>
    var comp: seq<nat>

    constructor (adj: seq<seq<nat>>)
      ensures this.adj == adj && comp == [] && visited == seq(|adj|, _ => false)
    {
      this.adj := adj;
      visited, comp := seq(|adj|, _ => false), [];
    }

    ghost function Unvisited(): set<nat>
      reads this
    {
      set v | 0 <= v < |visited| && !visited[v]
    }

    ghost predicate Valid()
      reads this
    {
      && InRange(adj) && |visited| == |adj|
      && NoDuplicates(comp)
      && forall v :: v in comp ==> v < |adj| && visited[v]
    }

    method DfsCollect(v: nat)
      requires Valid() && v < |adj| && !visited[v]
      modifies this`visited, this`comp
      ensures Valid() && v in comp
      ensures Unvisited() < old(Unvisited())
      ensures forall x :: x in old(comp) ==> x in comp
      ensures forall x :: x in comp ==> x in old(comp) || (!old(visited[x]) && Reach(EdgesOf(adj), v, x))
      ensures forall x :: 0 <= x < |adj| ==> (visited[x] <==> old(visited[x]) || x in comp)
      ensures forall x, y :: x in comp && x !in old(comp) && (x, y) in EdgesOf(adj) ==> visited[y]
      decreases Unvisited()
    {
      ghost var E := EdgesOf(adj);
      visited := visited[v := true];
      assert v !in comp;
      comp := comp + [v];
      assert v !in Unvisited() && v in old(Unvisited());
      ReachSelf(E, v);
      for i := 0 to |adj[v]|
        invariant Valid() && v in comp
        invariant forall j :: 0 <= j < i ==> visited[adj[v][j]]
        invariant Unvisited() < old(Unvisited())
        invariant forall x :: x in old(comp) ==> x in comp
        invariant forall x :: x in comp ==> x in old(comp) || (!old(visited[x]) && Reach(E, v, x))
        invariant forall x :: 0 <= x < |adj| ==> (visited[x] <==> old(visited[x]) || x in comp)
        invariant forall x, y :: x in comp && x != v && x !in old(comp) && (x, y) in E ==> visited[y]
      {
        var u := adj[v][i];
        if !visited[u] {
          ghost var before := comp;
          DfsCollect(u);
          ReachEdge(E, v, u);
          forall x | x in comp && x !in before
            ensures Reach(E, v, x)
          {
            ReachTrans(E, v, u, x);
          }
        }
      }
    }
  }

  /** The vertices collected from the latest unvisited one in finish order are its component. */
  lemma CollectedIsComponent(E: Edges, order: seq<nat>, k: nat, V: set<nat>, C: set<nat>)
    requires FinishOrder(E, order) && Covers(E, order) && k < |order| && order[k] !in V
    requires forall j :: k < j < |order| ==> order[j] in V
    requires forall x, y :: x in V && Mutual(E, x, y) ==> y in V
    requires order[k] in C && C !! V && forall x :: x in C ==> x in order
    requires forall x :: x in C ==> Reach(Reverse(E), order[k], x)
    requires forall x, y :: x in C && (x, y) in Reverse(E) ==> y in V || y in C
    ensures forall x :: x in C <==> Mutual(E, order[k], x)
  {
    var v := order[k];
    ReverseReverse(E);
    forall x | x in C
      ensures Mutual(E, v, x)
    {
      ReverseReach(Reverse(E), v, x);
      var j := FinishDominates(E, order, x, v);
      var i :| 0 <= i < j + 1 && order[i] == v;
      assert order[j] in V ==> x in V;
      assert i == k && j == k;
    }
    forall x | Mutual(E, v, x)
      ensures x in C
    {
      if x !in C {
        ReverseReach(E, x, v);
        var p :| PathFromTo(Reverse(E), p, v, x);
        var i := FirstExit(Reverse(E), p, C);
        var y := p[i + 1];
        SubPath(Reverse(E), p, 0, i + 1);
        SubPath(Reverse(E), p, i + 1, |p| - 1);
        ReverseReach(Reverse(E), v, y);
        ReverseReach(Reverse(E), y, x);
        ReachTrans(E, v, x, y);
        assert Mutual(E, y, v);
        assert false;
      }
    }
  }

  /** `comps` are disjoint mutual-reachability classes of the vertices in `V`, with no edge
      from a later one to an earlier one. */
  ghost predicate Components(E: Edges, comps: seq<seq<nat>>, V: set<nat>) {
    && (forall i :: 0 <= i < |comps| ==> comps[i] != [] && NoDuplicates(comps[i]))
    && (forall i, x :: 0 <= i < |comps| && x in comps[i] ==> x in V)
    && (forall x :: x in V ==> exists i :: 0 <= i < |comps| && x in comps[i])
    && (forall i, x, y :: 0 <= i < |comps| && x in comps[i] ==> (y in comps[i] <==> Mutual(E, x, y)))
    && (forall i, j, x :: 0 <= i < j < |comps| && x in comps[i] ==> x !in comps[j])
    && (forall i, j, x, y :: 0 <= i < j < |comps| && x in comps[i] && y in comps[j] ==> (y, x) !in E)
  }

  lemma ComponentsExtend(E: Edges, comps: seq<seq<nat>>, V: set<nat>, comp: seq<nat>, v: nat)
    requires Components(E, comps, V) && comp != [] && NoDuplicates(comp) && v in comp
    requires forall x :: x in comp <==> Mutual(E, v, x)
    requires forall x :: x in comp ==> x !in V
    requires forall x, y :: (x, y) in E && y in V ==> x in V
    ensures Components(E, comps + [comp], V + Elements(comp))
  {
    var comps', V' := comps + [comp], V + Elements(comp);
    forall x, y | x in comp
      ensures y in comp <==> Mutual(E, x, y)
    {
      if Mutual(E, x, y) {
        ReachTrans(E, v, x, y);
        ReachTrans(E, y, x, v);
      }
      if y in comp {
        ReachTrans(E, x, v, y);
        ReachTrans(E, y, v, x);
      }
    }
    forall i, j, x, y | 0 <= i < j < |comps'| && x in comps'[i] && y in comps'[j]
      ensures (y, x) !in E
    {
      assert x in comps[i] && (j == |comps| ==> y !in V);
    }
    forall x | x in V'
      ensures exists i :: 0 <= i < |comps'| && x in comps'[i]
    {
      if x in V {
        var i :| 0 <= i < |comps| && x in comps[i];
        assert x in comps'[i];
      } else {
        assert x in comps'[|comps|];
      }
    }
  }

  method FinishOrderOf(adj: seq<seq<nat>>) returns (order: seq<nat>)
    requires InRange(adj)
    ensures FinishOrder(EdgesOf(adj), order)
    ensures forall v: nat :: v in order <==> v < |adj|
  {
    var pass := new FinishPass(adj);
    for v := 0 to |adj|
      invariant pass.adj == adj && pass.Valid({})
      invariant forall u :: 0 <= u < v ==> pass.visited[u]
    {
      if !pass.visited[v] {
        ghost var before := pass.order;
        pass.DfsFinish(v, {});
        assert forall u :: 0 <= u < v ==> u in before ==> u in pass.order;
      }
    }
    order := pass.order;
  }

  method ReverseGraph(adj: seq<seq<nat>>) returns (rev: seq<seq<nat>>)
    requires InRange(adj)
    ensures |rev| == |adj| && InRange(rev)
    ensures EdgesOf(rev) == Reverse(EdgesOf(adj))
  {
    rev := seq(|adj|, _ => []);
    for v := 0 to |adj|
      invariant |rev| == |adj| && InRange(rev)
      invariant forall a: nat, b: nat :: a < |adj| ==> (b in rev[a] <==> b < v && a in adj[b])
    {
      for i := 0 to |adj[v]|
        invariant |rev| == |adj| && InRange(rev)
        invariant forall a: nat, b: nat :: a < |adj| ==>
          (b in rev[a] <==> (b < v && a in adj[b]) || (b == v && a in adj[v][..i]))
      {
        var u := adj[v][i];
        ghost var before := rev;
        rev := rev[u := rev[u] + [v]];
        assert adj[v][..i + 1] == adj[v][..i] + [u];
        forall a: nat, b: nat | a < |adj|
          ensures b in rev[a] <==> b in before[a] || (a == u && b == v)
        {
          assert a == u ==> rev[a] == before[a] + [v];
        }
      }
      assert adj[v][..|adj[v]|] == adj[v];
    }
  }

  /** The parts are exactly the mutual-reachability classes, listed so that no edge goes from
      a later part to an earlier one. */
  method KosarajuScc(adj: seq<seq<nat>>) returns (comps: seq<seq<nat>>)
    requires InRange(adj)
    ensures Components(EdgesOf(adj), comps, Range(0, |adj|))
  {
    if |adj| == 0 {
      return [];
    }
    ghost var E := EdgesOf(adj);
    var order := FinishOrderOf(adj);
    var rev := ReverseGraph(adj);
    var pass := new CollectPass(rev);
    comps := [];
    assert Components(E, comps, {}) && Covers(E, order);
    hide Components, FinishOrder, Covers, Mutual, Reach;
    ghost var V: set<nat> := {};
    for k := |order| downto 0
      invariant pass.adj == rev && |pass.visited| == |rev|
      invariant forall x: nat :: x in V <==> x < |adj| && pass.visited[x]
      invariant forall j :: k <= j < |order| ==> order[j] in V
      invariant Components(E, comps, V)
      invariant forall x, y :: (x, y) in E && y in V ==> x in V
    {
      var v := order[k];
      assert v in order;
      if !pass.visited[v] {
        pass.comp := [];
        pass.DfsCollect(v);
        var comp := pass.comp;
        assert forall x :: x in comp ==> x in order;
        CollectedIsComponent(E, order, k, V, Elements(comp));
        ComponentsExtend(E, comps, V, comp, v);
        V := V + Elements(comp);
        comps := comps + [comp];
      }
    }
    assert V == Range(0, |adj|) by {
      assert forall x: nat :: x in order ==> x in V;
    }
  }
}
