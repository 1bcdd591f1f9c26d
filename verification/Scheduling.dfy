/** Layers of vertices that can run in parallel. */
module Scheduling {
  import opened CycleReport
  import opened Digraph
  import opened Finite
  import opened Kahn
  import opened Lists

  /** A path of `k` edges ends in `v`. */
  ghost predicate WalkInto(E: Edges, v: nat, k: nat) {
    exists p :: IsPath(E, p) && |p| == k + 1 && p[k] == v
  }

  /** The longest path into `v` has exactly `d` edges. */
  ghost predicate LongestInto(E: Edges, v: nat, d: nat) {
    WalkInto(E, v, d) && forall k :: d < k ==> !WalkInto(E, v, k)
  }

  lemma WalkExtend(E: Edges, a: nat, v: nat, k: nat)
    requires WalkInto(E, a, k) && (a, v) in E
    ensures WalkInto(E, v, k + 1)
  {
    var p :| IsPath(E, p) && |p| == k + 1 && p[k] == a;
    var q := p + [v];
    assert IsPath(E, q) && |q| == k + 2 && q[k + 1] == v;
  }

  lemma WalkLastStep(E: Edges, v: nat, k: nat) returns (a: nat)
    requires k > 0 && WalkInto(E, v, k)
    ensures (a, v) in E && WalkInto(E, a, k - 1)
  {
    var p :| IsPath(E, p) && |p| == k + 1 && p[k] == v;
    a := p[k - 1];
    assert (p[k - 1], p[k - 1 + 1]) in E;
    SubPath(E, p, 0, k - 1);
    var q := p[0..k];
    assert IsPath(E, q) && |q| == k - 1 + 1 && q[k - 1] == a;
  }

  /** Each vertex sits above all its predecessors, and right above one of them. */
  ghost predicate Layered(E: Edges, layers: seq<seq<nat>>) {
    && (forall d :: 0 <= d < |layers| ==> NoDuplicates(layers[d]))
    && (forall d, x, a :: 0 <= d < |layers| && x in layers[d] && (a, x) in E ==> AmongFirst(layers, d, a))
    && (forall d, x :: 0 < d < |layers| && x in layers[d] ==> FedBy(E, Elements(layers[d - 1]), x))
  }

  lemma {:induction false} LayerWalk(E: Edges, layers: seq<seq<nat>>, d: nat, x: nat)
    requires Layered(E, layers) && d < |layers| && x in layers[d]
    ensures WalkInto(E, x, d)
  {
    if d == 0 {
      assert IsPath(E, [x]);
    } else {
      assert FedBy(E, Elements(layers[d - 1]), x);
      var a :| a in Elements(layers[d - 1]) && (a, x) in E;
      LayerWalk(E, layers, d - 1, a);
      WalkExtend(E, a, x, d - 1);
    }
  }

  lemma {:induction false} LayerBound(E: Edges, layers: seq<seq<nat>>, d: nat, x: nat, k: nat)
    requires Layered(E, layers) && d < |layers| && x in layers[d] && WalkInto(E, x, k)
    ensures k <= d
    decreases k
  {
    if k == 0 {
    } else {
      var a := WalkLastStep(E, x, k);
      assert AmongFirst(layers, d, a);
      var c :| 0 <= c < d && a in layers[c];
      LayerBound(E, layers, c, a, k - 1);
    }
  }

  lemma LayerIsLongest(E: Edges, layers: seq<seq<nat>>, d: nat, x: nat)
    requires Layered(E, layers) && d < |layers| && x in layers[d]
    ensures LongestInto(E, x, d)
  {
    LayerWalk(E, layers, d, x);
    forall k | d < k
      ensures !WalkInto(E, x, k)
    {
      if WalkInto(E, x, k) {
        LayerBound(E, layers, d, x, k);
        assert false;
      }
    }
  }

  lemma {:induction false} EndlessWalk(E: Edges, S: set<nat>, v: nat, k: nat)
    requires v in S && forall x :: x in S ==> FedBy(E, S, x)
    ensures WalkInto(E, v, k)
    decreases k
  {
    if k == 0 {
      assert IsPath(E, [v]);
    } else {
      assert FedBy(E, S, v);
      var a :| a in S && (a, v) in E;
      EndlessWalk(E, S, a, k - 1);
      WalkExtend(E, a, v, k - 1);
    }
  }

  /** When nothing is queued, the layers are exactly the longest-path classes. */
  lemma LayersAreLongest(adj: seq<seq<nat>>, layers: seq<seq<nat>>, P: set<nat>, v: nat, d: nat)
    requires Layered(Inner(adj), layers) && v < |adj|
    requires forall x :: x in P <==> AmongFirst(layers, |layers|, x)
    requires forall x: nat :: x < |adj| && x !in P ==> Pending(adj, P, x, |adj|) > 0
    ensures LongestInto(Inner(adj), v, d) <==> d < |layers| && v in layers[d]
  {
    var E := Inner(adj);
    if d < |layers| && v in layers[d] {
      LayerIsLongest(E, layers, d, v);
    }
    if LongestInto(E, v, d) {
      if v !in P {
        var S := Range(0, |adj|) - P;
        forall x | x in S
          ensures FedBy(E, S, x)
        {
          var a := PendingPredecessor(adj, P, x);
          assert a in S;
        }
        EndlessWalk(E, S, v, d + 1);
        assert false;
      }
      assert AmongFirst(layers, |layers|, v);
      var c :| 0 <= c < |layers| && v in layers[c];
      LayerIsLongest(E, layers, c, v);
      assert c == d;
    }
  }

  lemma AmongPrefix(layers: seq<seq<nat>>, next: seq<nat>, d: nat, x: nat)
    requires d <= |layers|
    ensures AmongFirst(layers + [next], d, x) <==> AmongFirst(layers, d, x)
  {
    if AmongFirst(layers, d, x) {
      var j :| 0 <= j < d && x in layers[j];
      assert x in (layers + [next])[j];
    }
  }

  lemma NextLayer(E: Edges, layers: seq<seq<nat>>, next: seq<nat>, P: set<nat>)
    requires Layered(E, layers) && NoDuplicates(next)
    requires forall x :: x in P <==> AmongFirst(layers, |layers|, x)
    requires forall x, a :: x in next && (a, x) in E ==> a in P
    requires |layers| > 0 ==> forall x :: x in next ==> FedBy(E, Elements(layers[|layers| - 1]), x)
    ensures Layered(E, layers + [next])
    ensures forall x :: x in P + Elements(next) <==> AmongFirst(layers + [next], |layers| + 1, x)
  {
    hide AmongFirst, FedBy;
    var ls := layers + [next];
    forall d: nat, x: nat | d <= |layers|
      ensures AmongFirst(ls, d, x) <==> AmongFirst(layers, d, x)
    {
      AmongPrefix(layers, next, d, x);
    }
    forall x: nat
      ensures AmongFirst(ls, |layers| + 1, x) <==> AmongFirst(ls, |layers|, x) || x in next
    {
      AmongNext(ls, |layers|, x);
    }
  }

  /** Release a whole level; what it leaves queued is the next one. */
  method RunLevel(peeler: Peeler, ghost P: set<nat>) returns (layer: seq<nat>)
    requires peeler.Counted(P) && peeler.queue != []
    modifies peeler`indegree, peeler`queue
    ensures layer == old(peeler.queue)
    ensures peeler.Counted(P + Elements(layer))
    ensures forall x :: x in peeler.queue ==> FedBy(Inner(peeler.adj), Elements(layer), x)
  {
    hide Inner, Pending;
    ghost var level := peeler.queue;
    var levelCount := |peeler.queue|;
    layer := [];
    ghost var done := P;
    for i := 0 to levelCount
      invariant layer == level[..i] && i <= |peeler.queue| + i && done == P + Elements(layer)
      invariant peeler.Counted(done)
      invariant |peeler.queue| >= levelCount - i && peeler.queue[..levelCount - i] == level[i..]
      invariant forall j :: levelCount - i <= j < |peeler.queue| ==>
          FedBy(Inner(peeler.adj), Elements(level), peeler.queue[j])
    {
      var u := peeler.queue[0];
      ghost var q := peeler.queue;
      assert u == level[i] && u in q;
      assert forall v :: v in q <==> v == u || v in q[1..];
      peeler.queue := peeler.queue[1..];
      layer := layer + [u];
      peeler.Release(u, done);
      done := done + {u};
      assert q[1..] <= peeler.queue;
      assert peeler.queue[..levelCount - i - 1] == q[1..][..levelCount - i - 1] == q[..levelCount - i][1..];
      assert level[i..][1..] == level[i + 1..];
      forall j | levelCount - i - 1 <= j < |peeler.queue|
        ensures FedBy(Inner(peeler.adj), Elements(level), peeler.queue[j])
      {
        if j < |q| - 1 {
          assert peeler.queue[j] == q[j + 1];
        }
      }
    }
    assert layer == level;
  }

  /** Layer `d` holds exactly the vertices whose longest incoming path has `d` edges. */
  method TopologicalLayers(adj: seq<seq<nat>>) returns (layers: seq<seq<nat>>)
    ensures forall d :: 0 <= d < |layers| ==> layers[d] != [] && NoDuplicates(layers[d])
    ensures forall v: nat, d: nat :: v < |adj| ==> (LongestInto(Inner(adj), v, d) <==> d < |layers| && v in layers[d])
    ensures forall v: nat, d: nat :: d < |layers| && v in layers[d] ==> v < |adj|
  {
    hide Inner, Pending, LongestInto, FedBy;
    var peeler := new Peeler(adj);
    peeler.Count();
    layers := [];
    ghost var P: set<nat> := {};
    while peeler.queue != []
      invariant peeler.adj == adj && peeler.Counted(P) && Layered(Inner(adj), layers)
      invariant forall d :: 0 <= d < |layers| ==> layers[d] != []
      invariant forall x :: x in P <==> AmongFirst(layers, |layers|, x)
      invariant |layers| > 0 ==>
        forall x :: x in peeler.queue ==> FedBy(Inner(adj), Elements(layers[|layers| - 1]), x)
      decreases Range(0, |adj|) - P
    {
      forall x, a | x in peeler.queue && (a, x) in Inner(adj)
        ensures a in P
      {
        NonePending(adj, P, x);
      }
      NextLayer(Inner(adj), layers, peeler.queue, P);
      assert peeler.queue[0] in peeler.queue;
      var layer := RunLevel(peeler, P);
      P := P + Elements(layer);
      if layer != [] {
        layers := layers + [layer];
      }
    }
    forall v: nat, d: nat | v < |adj|
      ensures LongestInto(Inner(adj), v, d) <==> d < |layers| && v in layers[d]
    {
      LayersAreLongest(adj, layers, P, v, d);
    }
    forall v: nat, d: nat | d < |layers| && v in layers[d]
      ensures v < |adj|
    {
      assert AmongFirst(layers, |layers|, v);
    }
  }
}
