/** Topological order with a report of the cycles that spoil it. */
module CycleReport {
  import opened Digraph
  import opened Finite
  import opened Kahn
  import opened Lists
  import opened Scc

  ghost function CyclicVertices(adj: seq<seq<nat>>): (S: set<nat>)
    ensures forall v: nat :: v in S <==> v < |adj| && OnCycle(Inner(adj), v)
  {
    set v | v in Range(0, |adj|) && OnCycle(Inner(adj), v)
  }

  /** When nothing is queued, what is left over is exactly what cycles reach. */
  lemma LeftOverIsTangled(adj: seq<seq<nat>>, order: seq<nat>)
    requires NoDuplicates(order) && PredecessorsFirst(Inner(adj), order)
    requires forall v :: v in order ==> v < |adj|
    requires forall v: nat :: v < |adj| && v !in order ==> Pending(adj, Elements(order), v, |adj|) > 0
    ensures forall v: nat :: v in order <==> v < |adj| && !Tangled(Inner(adj), v)
  {
    hide Inner, Tangled, Pending, PredecessorsFirst;
    var E, P := Inner(adj), Elements(order);
    var S := Range(0, |adj|) - P;
    forall x | x in S
      ensures FedBy(E, S, x)
    {
      var a := PendingPredecessor(adj, P, x);
      assert a in S && (a, x) in E;
    }
    forall v: nat | v < |adj|
      ensures v in order <==> !Tangled(E, v)
    {
      if v in order {
        PeeledIsUntangled(E, order, v);
      } else {
        RemainderIsTangled(E, S, v);
      }
    }
  }

  lemma NextIsReady(adj: seq<seq<nat>>, order: seq<nat>, u: nat)
    requires PredecessorsFirst(Inner(adj), order) && Pending(adj, Elements(order), u, |adj|) == 0
    ensures PredecessorsFirst(Inner(adj), order + [u])
  {
    NonePending(adj, Elements(order), u);
    hide Inner, Pending;
    var order' := order + [u];
    forall i, a | 0 <= i < |order'| && (a, order'[i]) in Inner(adj)
      ensures a in order'[..i]
    {
      if i < |order| {
        assert order'[i] == order[i] && order'[..i] == order[..i];
      } else {
        assert order'[i] == u && order'[..i] == order;
        assert a in Elements(order);
      }
    }
  }

  /** Remove vertices without remaining in-edges until none is left. */
  method Peel(adj: seq<seq<nat>>) returns (order: seq<nat>)
    ensures NoDuplicates(order) && PredecessorsFirst(Inner(adj), order)
    ensures forall v: nat :: v in order <==> v < |adj| && !Tangled(Inner(adj), v)
  {
    hide Inner, Pending, Tangled;
    var peeler := new Peeler(adj);
    peeler.Count();
    order := [];
    ghost var P: set<nat> := {};
    while peeler.queue != []
      invariant peeler.adj == adj && P == Elements(order) && peeler.Counted(P)
      invariant NoDuplicates(order) && PredecessorsFirst(Inner(adj), order)
      decreases Range(0, |adj|) - P
    {
      var u := peeler.queue[0];
      assert u in peeler.queue;
      assert forall v :: v in peeler.queue <==> v == u || v in peeler.queue[1..];
      peeler.queue := peeler.queue[1..];
      NextIsReady(adj, order, u);
      order := order + [u];
      assert Elements(order) == P + {u};
      peeler.Release(u, P);
      P := P + {u};
    }
    LeftOverIsTangled(adj, order);
  }

  /** A component with more than one vertex, or with a self-loop, is one whose vertices lie on cycles. */
  lemma ReportedIsCyclic(E: Edges, comps: seq<seq<nat>>, V: set<nat>, i: nat, x: nat)
    requires Components(E, comps, V) && i < |comps| && x in comps[i]
    ensures OnCycle(E, x) <==> |comps[i]| > 1 || (exists v :: v in comps[i] && (v, v) in E)
  {
    var c := comps[i];
    if |c| > 1 {
      var y := if c[0] == x then c[1] else c[0];
      assert y in c && y != x;
      assert Mutual(E, x, y);
      var p :| PathFromTo(E, p, x, y);
      SubPath(E, p, 1, |p| - 1);
      ReachTrans(E, p[1], y, x);
      assert (p[0], p[0 + 1]) in E;
    } else {
      assert c == [x];
      if OnCycle(E, x) {
        var w :| (x, w) in E && Reach(E, w, x);
        ReachEdge(E, x, w);
        assert Mutual(E, x, w);
        assert w in c;
      }
      if exists v :: v in c && (v, v) in E {
        ReachSelf(E, x);
      }
    }
  }

  ghost predicate AmongFirst(comps: seq<seq<nat>>, i: nat, x: nat)
    requires i <= |comps|
  {
    exists j :: 0 <= j < i && x in comps[j]
  }

  /** `cycles` are the components among the first `i` that hold a cycle, and `C` their vertices. */
  ghost predicate Filtered(E: Edges, comps: seq<seq<nat>>, i: nat, cycles: seq<seq<nat>>, C: set<nat>) {
    && i <= |comps| && Components(E, cycles, C)
    && forall x: nat :: x in C <==> AmongFirst(comps, i, x) && OnCycle(E, x)
  }

  lemma AmongNext(comps: seq<seq<nat>>, i: nat, x: nat)
    requires i < |comps|
    ensures AmongFirst(comps, i + 1, x) <==> AmongFirst(comps, i, x) || x in comps[i]
  {
  }

  lemma FilterStep(E: Edges, comps: seq<seq<nat>>, V: set<nat>, i: nat, cycles: seq<seq<nat>>, C: set<nat>)
    requires Components(E, comps, V) && i < |comps| && Filtered(E, comps, i, cycles, C)
    ensures if |comps[i]| > 1 || (exists v :: v in comps[i] && (v, v) in E)
      then Filtered(E, comps, i + 1, cycles + [comps[i]], C + Elements(comps[i]))
      else Filtered(E, comps, i + 1, cycles, C)
  {
    hide OnCycle, AmongFirst, Mutual;
    var c := comps[i];
    forall x: nat
      ensures AmongFirst(comps, i + 1, x) <==> AmongFirst(comps, i, x) || x in c
      ensures x in c ==> (OnCycle(E, x) <==> |c| > 1 || (exists v :: v in c && (v, v) in E))
    {
      AmongNext(comps, i, x);
      if x in c {
        ReportedIsCyclic(E, comps, V, i, x);
      }
    }
    if |c| > 1 || (exists v :: v in c && (v, v) in E) {
      ReportExtend(E, comps, V, i, cycles, C);
    }
  }

  lemma ReportExtend(E: Edges, comps: seq<seq<nat>>, V: set<nat>, i: nat, cycles: seq<seq<nat>>, C: set<nat>)
    requires Components(E, comps, V) && i < |comps| && Components(E, cycles, C)
    requires forall x :: x in C ==> AmongFirst(comps, i, x)
    ensures Components(E, cycles + [comps[i]], C + Elements(comps[i]))
  {
    hide Mutual;
    var c := comps[i];
    var cycles', C' := cycles + [c], C + Elements(c);
    forall k, l, x | 0 <= k < l < |cycles'| && x in cycles'[k]
      ensures x !in cycles'[l]
      ensures forall y :: y in cycles'[l] ==> (y, x) !in E
    {
      if l == |cycles| {
        assert AmongFirst(comps, i, x);
        var j :| 0 <= j < i && x in comps[j];
      }
    }
    forall x | x in C'
      ensures exists k :: 0 <= k < |cycles'| && x in cycles'[k]
    {
      if x in c {
        assert x in cycles'[|cycles|];
      } else {
        var k :| 0 <= k < |cycles| && x in cycles[k];
        assert x in cycles'[k];
      }
    }
  }

  /** The components that contain a cycle, in the order in which they were found. */
  method CyclicComponents(adj: seq<seq<nat>>) returns (cycles: seq<seq<nat>>)
    requires InRange(adj)
    ensures Components(Inner(adj), cycles, CyclicVertices(adj))
  {
    ghost var E := Inner(adj);
    assert E == EdgesOf(adj);
    var selfLoops: set<nat> := {};
    for u := 0 to |adj|
      invariant forall v: nat :: v in selfLoops <==> v < u && (v, v) in E
    {
      if u in adj[u] {
        selfLoops := selfLoops + {u};
      }
    }
    var comps := KosarajuScc(adj);
    cycles := [];
    ghost var C: set<nat> := {};
    hide Components, OnCycle;
    assert Filtered(E, comps, 0, cycles, C) by { EmptyReport(E); }
    hide Filtered, Inner, EdgesOf;
    for i := 0 to |comps|
      invariant Filtered(E, comps, i, cycles, C)
    {
      var scc := comps[i];
      assert forall v :: v in scc ==> (v in selfLoops <==> (v, v) in E) by {
        ListedBelow(E, comps, |adj|, i);
      }
      FilterStep(E, comps, Range(0, |adj|), i, cycles, C);
      if |scc| > 1 || exists v :: v in scc && v in selfLoops {
        C := C + Elements(scc);
        cycles := cycles + [scc];
      }
    }
    FilteredAll(adj, comps, cycles, C);
  }

  lemma ListedBelow(E: Edges, comps: seq<seq<nat>>, n: nat, i: nat)
    requires Components(E, comps, Range(0, n)) && i < |comps|
    ensures forall v :: v in comps[i] ==> v < n
  {
    forall v | v in comps[i]
      ensures v < n
    {
      assert v in Range(0, n);
    }
  }

  lemma FilteredAll(adj: seq<seq<nat>>, comps: seq<seq<nat>>, cycles: seq<seq<nat>>, C: set<nat>)
    requires Components(Inner(adj), comps, Range(0, |adj|)) && Filtered(Inner(adj), comps, |comps|, cycles, C)
    ensures Components(Inner(adj), cycles, CyclicVertices(adj))
  {
    hide Components, OnCycle, Inner;
    forall v: nat
      ensures AmongFirst(comps, |comps|, v) <==> v < |adj|
    {
      EveryVertexListed(Inner(adj), comps, Range(0, |adj|), v);
    }
    assert C == CyclicVertices(adj);
  }

  lemma EmptyReport(E: Edges)
    ensures Components(E, [], {})
  {
  }

  lemma EveryVertexListed(E: Edges, comps: seq<seq<nat>>, V: set<nat>, v: nat)
    requires Components(E, comps, V)
    ensures AmongFirst(comps, |comps|, v) <==> v in V
  {
  }

  /** `order` leaves out exactly the vertices that a cycle reaches and respects every edge between
      the others; `cycles` are exactly the components that contain a cycle. Only a graph with a
      cycle reaches the component search, which needs every edge in range. */
  method TopologicalSortWithCycles(adj: seq<seq<nat>>) returns (order: seq<nat>, cycles: seq<seq<nat>>)
    requires InRange(adj) || CyclicVertices(adj) == {}
    ensures NoDuplicates(order) && PredecessorsFirst(Inner(adj), order)
    ensures forall v: nat :: v in order <==> v < |adj| && !Tangled(Inner(adj), v)
    ensures Components(Inner(adj), cycles, CyclicVertices(adj))
    ensures cycles == [] <==> |order| == |adj|
  {
    if |adj| == 0 {
      return [], [];
    }
    order := Peel(adj);
    OrderComplete(adj, order);
    if |order| == |adj| {
      return order, [];
    }
    cycles := CyclicComponents(adj);
  }

  lemma OrderComplete(adj: seq<seq<nat>>, order: seq<nat>)
    requires NoDuplicates(order)
    requires forall v: nat :: v in order <==> v < |adj| && !Tangled(Inner(adj), v)
    ensures |order| == |adj| <==> CyclicVertices(adj) == {}
  {
    var E := Inner(adj);
    ElementsSize(order);
    SubsetSize(Elements(order), Range(0, |adj|));
    if |order| == |adj| && CyclicVertices(adj) != {} {
      var c :| c in CyclicVertices(adj);
      ReachSelf(E, c);
      assert Tangled(E, c);
      assert false;
    }
    if |order| != |adj| {
      assert Elements(order) != Range(0, |adj|);
      var v :| v in Range(0, |adj|) && v !in Elements(order);
      assert Tangled(E, v);
      var c :| OnCycle(E, c) && Reach(E, c, v);
      assert c in CyclicVertices(adj);
    }
  }
}
