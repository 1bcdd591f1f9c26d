/** Maximum flow by push-relabel with a FIFO queue of active vertices. */
module PushRelabel {
  import opened FlowNetwork
  import opened Lists
  import opened Machine
  import opened ResidualLists
  import opened Sums

  class Solver {
    const net: Network
    var g: seq<seq<Edge>>
    var height: seq<nat>
    var excess: seq<i64>
    var active: seq<nat>
    /** The preflow that `g` carries, where its arcs sit, and what the source sent out at first. */
    ghost var f: seq<int>
    ghost var w: Wiring
    ghost var sent: seq<int>

    /** What every push and every relabel keeps. */
    ghost predicate Running()
      reads this
    {
      && Bounded(net) && Shaped(net, w, g) && |height| == |excess| == net.n
      && Stores(net, w, g, f, |net.arcs|)
      && Balanced(net, f, excess, sent)
      && ValidLabelling(net, f, height)
      && height[net.source] == net.n && height[net.sink] == 0
      && forall v :: 0 <= v < net.n ==> height[v] <= 2 * net.n - 1
    }

    /** The queue holds, once each, exactly the inner vertices with excess other than `current`. */
    ghost predicate Queued(current: nat)
      reads this
    {
      && NoDuplicates(active)
      && forall v :: v in active <==> v != current && IsActive(net, excess, v)
    }

    constructor (net: Network)
      ensures this.net == net && g == seq(net.n, _ => [])
      ensures height == seq(net.n, _ => 0) && excess == seq(net.n, _ => 0) && active == []
      ensures f == seq(|net.arcs|, _ => 0) == sent
      ensures w == Wiring(seq(net.n, _ => []), f, f)
    {
      this.net := net;
      g, height, excess, active := seq(net.n, _ => []), seq(net.n, _ => 0), seq(net.n, _ => 0), [];
      f, sent := seq(|net.arcs|, _ => 0), seq(|net.arcs|, _ => 0);
      w := Wiring(seq(net.n, _ => []), seq(|net.arcs|, _ => 0), seq(|net.arcs|, _ => 0));
    }

    method AddEdge(u: nat, v: nat, cap: i64, ghost k: nat)
      requires k < |net.arcs| && net.arcs[k] == Arc(u, v, cap) && net.Usable(k)
      requires Stores(net, w, g, f, k) && forall j :: 0 <= j < |f| ==> f[j] == 0
      modifies this`g, this`w
      ensures Stores(net, w, g, f, k + 1)
    {
      ghost var w0, g0 := w, g;
      var revU := |g[v]|;
      var revV := |g[u]|;
      g := g[u := g[u] + [Edge(v, revU, cap)]];
      g := g[v := g[v] + [Edge(u, revV, 0)]];
      w := Wiring(Appended(Appended(w.tags, u, Tag(k, true)), v, Tag(k, false)),
                  w.fwd[k := revV], w.bwd[k := if u == v then revU + 1 else revU]);
      AddKeepsStore(net, w0, g0, f, k, w, g);
    }

    /** Take `delta` from a slot and give it to its mate. */
    method Transfer(u: nat, i: nat, delta: i64)
      requires |g| == net.n && u < net.n && i < |g[u]| && 0 <= delta <= g[u][i].cap && g[u][i].to < net.n
      requires g[u][i].to == u ==> g[u][i].rev == i
      requires g[u][i].to != u ==>
        g[u][i].rev < |g[g[u][i].to]| && g[g[u][i].to][g[u][i].rev].cap + delta <= I64_MAX
      modifies this`g
      ensures g == if old(g[u][i].to) == u then old(g) else MoveCap(old(g), u, i, delta)
      ensures |g| == net.n
      ensures old(g[u][i].to) != u ==> g[u] == old(g[u][i := g[u][i].(cap := g[u][i].cap - delta)])
    {
      ghost var g0 := g;
      var v := g[u][i].to;
      g := g[u := g[u][i := g[u][i].(cap := g[u][i].cap - delta)]];
      var rev := g[u][i].rev;
      g := g[v := g[v][rev := g[v][rev].(cap := g[v][rev].cap + delta)]];
      if v == u {
        assert g[u] == g0[u];
        assert g == g0[u := g0[u]] == g0;
      }
    }

    /** Saturate one slot of the source. */
    method PrimeSlot(i: nat)
      requires Bounded(net) && Stores(net, w, g, f, |net.arcs|) && Balanced(net, f, excess, sent)
      requires Primed(net, w, f, sent, i) && i < |g[net.source]| && |excess| == |g| == net.n
      modifies this`g, this`excess, this`f, this`sent
      ensures Stores(net, w, g, f, |net.arcs|) && Balanced(net, f, excess, sent)
      ensures |excess| == |g| == net.n
      ensures Primed(net, w, f, sent, i + 1) && |g[net.source]| == old(|g[net.source]|)
    {
      hide Stores, Balanced, Primed, MoveFlow;
      var source := net.source;
      StoresShape(net, w, g, f, |net.arcs|);
      PrimeKeeps(net, w, g, f, excess, sent, i);
      var cap := g[source][i].cap;
      if cap > 0 {
        ghost var k := w.tags[source][i].arc;
        var v := g[source][i].to;
        sent := sent[k := net.Cap(k)];
        f := if v != source then MoveFlow(w, f, source, i, cap) else f;
        Transfer(source, i, cap);
        excess := excess[v := excess[v] + cap];
      }
    }

    /** Send `min(excess[u], cap)` down an admissible slot; a newly active head joins the queue. */
    method Push(u: nat, i: nat)
      requires Running() && Queued(u) && u < net.n && u != net.source && u != net.sink
      requires excess[u] > 0 && i < |g[u]| && g[u][i].cap > 0
      requires g[u][i].to < net.n && height[u] == height[g[u][i].to] + 1
      modifies this`g, this`excess, this`active, this`f
      ensures Running() && Queued(u)
      ensures |g[u]| == old(|g[u]|)
      ensures excess[u] == 0 || g[u][i].cap == 0
      ensures forall j :: 0 <= j < |g[u]| && j != i ==> g[u][j] == old(g[u][j])
      ensures g[u][i].to == old(g[u][i].to)
      ensures 0 <= excess[u] < old(excess[u])
      ensures Dot(excess, height) - excess[u] == old(Dot(excess, height) - excess[u])
    {
      hide Stores, Balanced, ValidLabelling, MoveFlow, MoveCap, NoDuplicates, Bounded, Dot, IsActive;
      var v := g[u][i].to;
      var delta := if excess[u] <= g[u][i].cap then excess[u] else g[u][i].cap;
      BalancedIsCapped(net, f, excess, sent);
      PushKeeps(net, w, g, f, height, excess, sent, u, i, delta);
      f := MoveFlow(w, f, u, i, delta);
      Transfer(u, i, delta);
      excess := excess[u := excess[u] - delta];
      excess := excess[v := excess[v] + delta];
      StoresShape(net, w, g, f, |net.arcs|);
      Activate(u, v, delta, old(excess));
    }

    /** Queue the head of a push unless it was queued before or is a terminal. */
    method Activate(u: nat, v: nat, delta: i64, ghost before: seq<int>)
      requires |before| == |excess| == net.n && u < net.n && v < net.n && u != v && 0 < delta
      requires forall a :: 0 <= a < net.n ==> 0 <= before[a]
      requires excess == before[u := excess[u]][v := before[v] + delta]
      requires NoDuplicates(active) && forall a :: a in active <==> a != u && IsActive(net, before, a)
      modifies this`active
      ensures Queued(u)
    {
      if v != net.source && v != net.sink && excess[v] == delta {
        assert v !in active;
        active := active + [v];
      }
      assert forall a: nat :: a != u && a != v ==> IsActive(net, before, a) == IsActive(net, excess, a);
    }

    /** Raise `u` to one above its lowest residual neighbour. */
    method Relabel(u: nat)
      requires Running() && u < net.n && u != net.source && u != net.sink && excess[u] > 0
      requires forall i :: 0 <= i < |g[u]| && g[u][i].cap > 0 && g[u][i].to < net.n ==>
          height[u] != height[g[u][i].to] + 1
      modifies this`height
      ensures Running()
      ensures height == old(height)[u := height[u]] && height[u] > old(height[u])
    {
      hide Stores, Balanced, ValidLabelling;
      BalancedIsCapped(net, f, excess, sent);
      var minH := USIZE_MAX;
      ghost var exit := ExcessHasExit(net, w, g, f, u);
      var i := 0;
      while i < |g[u]|
        invariant 0 <= i <= |g[u]| && height == old(height)
        invariant forall j :: 0 <= j < i && g[u][j].cap > 0 ==> g[u][j].to < net.n && minH <= height[g[u][j].to]
        invariant minH == USIZE_MAX || height[u] <= minH <= 2 * net.n - 1
        invariant exit < i ==> minH != USIZE_MAX
      {
        var e := g[u][i];
        if e.cap > 0 {
          ResidualForSlot(net, w, g, f, u, i);
          LabelsDropByOne(net, f, height, u, e.to);
          minH := if minH <= height[e.to] then minH else height[e.to];
        }
        i := i + 1;
      }
      if minH != USIZE_MAX {
        RaiseKeepsLabelling(net, w, g, f, height, u, minH + 1);
        height := height[u := minH + 1];
        HeightBound(net, f, height, u);
      }
    }

    method Discharge(u: nat)
      requires Running() && Queued(u) && u < net.n && u != net.source && u != net.sink && excess[u] > 0
      modifies this`g, this`height, this`excess, this`active, this`f
      ensures Running() && Queued(u) && excess[u] == 0
      ensures Sum(height) > old(Sum(height))
        || (height == old(height) && Dot(excess, height) < old(Dot(excess, height)))
    {
      hide Stores, Balanced, ValidLabelling, Bounded, NoDuplicates;
      while excess[u] > 0
        invariant Running() && Queued(u) && 0 <= excess[u]
        invariant Sum(height) > old(Sum(height))
          || (height == old(height) && Dot(excess, height) - excess[u] == old(Dot(excess, height) - excess[u]))
        decreases 2 * net.n - height[u]
      {
        var pushed := false;
        ghost var h0, slots := height, |g[u]|;
        for i := 0 to |g[u]|
          invariant Running() && Queued(u) && excess[u] > 0 && height == h0 && |g[u]| == slots
          invariant forall j :: 0 <= j < i && g[u][j].cap > 0 && g[u][j].to < net.n ==>
              height[u] != height[g[u][j].to] + 1
          invariant Sum(height) > old(Sum(height))
            || (height == old(height) && Dot(excess, height) - excess[u] == old(Dot(excess, height) - excess[u]))
        {
          BalancedIsCapped(net, f, excess, sent);
          MateOf(net, w, g, f, u, i);
          var v := g[u][i].to;
          if g[u][i].cap > 0 && height[u] == height[v] + 1 {
            Push(u, i);
            if excess[u] == 0 {
              pushed := true;
              break;
            }
          }
        }
        if pushed && excess[u] == 0 {
          break;
        }
        Relabel(u);
        SumUpdate(h0, u, height[u]);
      }
    }

    /** Keep the usable edges, each as a forward slot and a backward slot. */
    method Build()
      requires g == seq(net.n, _ => []) && f == seq(|net.arcs|, _ => 0) && w == Wiring(seq(net.n, _ => []), f, f)
      modifies this`g, this`w
      ensures Stores(net, w, g, f, |net.arcs|)
    {
      assert Stores(net, w, g, f, 0);
      hide Stores;
      for k := 0 to |net.arcs|
        invariant Stores(net, w, g, f, k)
      {
        var Arc(u, v, cap) := net.arcs[k];
        if u >= net.n || v >= net.n || cap <= 0 {
          SkipKeepsStore(net, w, g, f, k);
          continue;
        }
        AddEdge(u, v, cap, k);
      }
    }

    /** Lift the source to height `n`, saturate its arcs and queue the vertices this makes active. */
    method Prime()
      requires Bounded(net) && Stores(net, w, g, f, |net.arcs|) && active == []
      requires height == seq(net.n, _ => 0) && excess == seq(net.n, _ => 0) && f == seq(|net.arcs|, _ => 0) == sent
      modifies this`g, this`height, this`excess, this`active, this`f, this`sent
      ensures Running() && Queued(net.n)
    {
      hide Stores, Balanced, NoDuplicates;
      StillNoFlow(net, f, excess, sent);
      StoresShape(net, w, g, f, |net.arcs|);
      height := height[net.source := net.n];
      ghost var h, slots := height, |g[net.source]|;
      for i := 0 to |g[net.source]|
        invariant height == h && active == [] && |g| == |excess| == net.n && |g[net.source]| == slots
        invariant Stores(net, w, g, f, |net.arcs|) && Balanced(net, f, excess, sent)
        invariant Primed(net, w, f, sent, i)
      {
        PrimeSlot(i);
      }
      PrimedLabelling(net, w, g, f, sent, h);
      StoresShape(net, w, g, f, |net.arcs|);
      Enqueue();
    }

    method Enqueue()
      requires |excess| == net.n && active == []
      modifies this`active
      ensures Queued(net.n)
    {
      for v := 0 to net.n
        invariant NoDuplicates(active)
        invariant forall a: nat :: a in active <==> a < v && IsActive(net, excess, a)
      {
        if v != net.source && v != net.sink && excess[v] > 0 {
          assert v !in active;
          active := active + [v];
        }
      }
    }

    /** Discharge until the queue is empty. Every discharge raises a label or moves excess downhill. */
    method Drain()
      requires Running() && Queued(net.n)
      modifies this`g, this`height, this`excess, this`active, this`f
      ensures Running() && Queued(net.n) && active == []
    {
      hide Stores, Balanced, ValidLabelling, Bounded;
      ghost var top := 2 * net.n * |height|;
      Measured(net, f, excess, sent, height);
      while active != []
        invariant Running() && Queued(net.n)
        invariant Sum(height) <= top == 2 * net.n * |height| && 0 <= Dot(excess, height)
        decreases top - Sum(height), Dot(excess, height)
      {
        var u := active[0];
        assert IsActive(net, excess, u);
        PopFront();
        Discharge(u);
        Measured(net, f, excess, sent, height);
      }
    }

    method PopFront()
      requires Queued(net.n) && active != []
      modifies this`active
      ensures Queued(old(active[0]))
    {
      var u := active[0];
      assert forall v :: v in active <==> v == u || v in active[1..];
      active := active[1..];
    }
  }

  predicate IsActive(net: Network, x: seq<int>, v: nat) {
    v < net.n && v < |x| && v != net.source && v != net.sink && x[v] > 0
  }

  /** Distinct terminals in range, and the capacities out of the source together within 64 bits. */
  ghost predicate Bounded(net: Network) {
    net.Proper() && Sum(net.Supply()) <= I64_MAX && 2 * net.n <= USIZE_MAX
  }

  /** One push: the lists still store a balanced preflow within 64 bits, and the labelling stays valid. */
  lemma PushKeeps(net: Network, w: Wiring, g: seq<seq<Edge>>, f: seq<int>, h: seq<nat>, x: seq<int>, sent: seq<int>,
                  u: nat, i: nat, d: int)
    requires Bounded(net) && Stores(net, w, g, f, |net.arcs|) && Balanced(net, f, x, sent) && ValidLabelling(net, f, h)
    requires u < net.n && u != net.source && i < |g[u]| && 0 < d <= g[u][i].cap && d <= x[u]
    requires g[u][i].to < net.n && h[u] == h[g[u][i].to] + 1
    ensures var v := g[u][i].to;
      && v != u && g[u][i].rev < |g[v]| && g[v][g[u][i].rev].cap + d <= I64_MAX && w.tags[u][i].arc < |f|
      && x[v] + d <= I64_MAX
      && var f' := MoveFlow(w, f, u, i, d);
      && Stores(net, w, MoveCap(g, u, i, d), f', |net.arcs|)
      && Balanced(net, f', x[u := x[u] - d][v := x[v] + d], sent)
      && ValidLabelling(net, f', h)
      && Dot(x[u := x[u] - d][v := x[v] + d], h) == Dot(x, h) - d
  {
    hide Stores, Balanced;
    StoresShape(net, w, g, f, |net.arcs|);
    BalancedIsCapped(net, f, x, sent);
    DotTransfer(x, h, u, g[u][i].to, d);
    MoveKeepsStore(net, w, g, f, u, i, d);
    MoveKeepsBalance(net, w, g, f, x, sent, u, i, d);
    MoveKeepsLabelling(net, w, g, f, h, u, i, d);
    var v := g[u][i].to;
    ExcessFits(net, MoveFlow(w, f, u, i, d), x[u := x[u] - d][v := x[v] + d], sent, v);
  }

  /** Saturating the source's slot `i` keeps store and balance, and advances the priming. */
  lemma PrimeKeeps(net: Network, w: Wiring, g: seq<seq<Edge>>, f: seq<int>, x: seq<int>, sent: seq<int>, i: nat)
    requires Bounded(net) && Stores(net, w, g, f, |net.arcs|) && Balanced(net, f, x, sent)
    requires Primed(net, w, f, sent, i) && i < |g[net.source]|
    ensures g[net.source][i].cap <= 0 ==> Primed(net, w, f, sent, i + 1)
    ensures g[net.source][i].cap > 0 ==>
      var s := net.source;
      var v, d, k := g[s][i].to, g[s][i].cap, w.tags[s][i].arc;
      && v < net.n && k < |sent| == |net.arcs| && d == net.Cap(k) && 0 <= x[v] + d <= I64_MAX
      && (v == s ==> g[s][i].rev == i)
      && (v != s ==> g[s][i].rev < |g[v]| && g[v][g[s][i].rev].cap + d <= I64_MAX && k < |f|
                     && Stores(net, w, MoveCap(g, s, i, d), MoveFlow(w, f, s, i, d), |net.arcs|))
      && var f' := if v != s then MoveFlow(w, f, s, i, d) else f;
      && Balanced(net, f', x[v := x[v] + d], sent[k := net.Cap(k)])
      && Primed(net, w, f', sent[k := net.Cap(k)], i + 1)
  {
    hide Balanced, Primed;
    BalancedIsCapped(net, f, x, sent);
    PrimedSlot(net, w, g, f, sent, i);
    var s := net.source;
    if g[s][i].cap > 0 {
      var v, d, k := g[s][i].to, g[s][i].cap, w.tags[s][i].arc;
      PrimedNext(net, w, g, f, sent, i, k);
      PrimeKeepsBalance(net, w, g, f, x, sent, i);
      var f' := if v != s then MoveFlow(w, f, s, i, d) else f;
      ExcessFits(net, f', x[v := x[v] + d], sent[k := net.Cap(k)], v);
      if v != s {
        MoveKeepsStore(net, w, g, f, s, i, d);
        assert MoveFlow(w, f, s, i, d) == f[k := net.Cap(k)] by { PrimedFlow(net, w, f, sent, i, k); }
      }
    }
  }

  lemma StoresShape(net: Network, w: Wiring, g: seq<seq<Edge>>, f: seq<int>, m: nat)
    requires Stores(net, w, g, f, m)
    ensures Shaped(net, w, g) && |f| == |net.arcs|
  {
  }

  lemma BalancedIsCapped(net: Network, f: seq<int>, x: seq<int>, sent: seq<int>)
    requires Balanced(net, f, x, sent)
    ensures net.WithinCapacity(f) && net.IsPreflow(f) && |x| == net.n && |sent| == |net.arcs|
    ensures forall v :: 0 <= v < net.n ==> 0 <= x[v]
    ensures forall v :: 0 <= v < net.n && v != net.source ==> x[v] == net.Surplus(f, v)
  {
  }

  lemma PrimedFlow(net: Network, w: Wiring, f: seq<int>, sent: seq<int>, i: nat, k: nat)
    requires Primed(net, w, f, sent, i) && k < |f| && w.fwd[k] == i
    ensures f[k] == 0
  {
  }

  lemma PrimeKeepsBalance(net: Network, w: Wiring, g: seq<seq<Edge>>, f: seq<int>, x: seq<int>, sent: seq<int>, i: nat)
    requires net.Proper() && Stores(net, w, g, f, |net.arcs|) && Balanced(net, f, x, sent)
    requires Primed(net, w, f, sent, i) && i < |g[net.source]| && g[net.source][i].cap > 0
    ensures var s := net.source;
      var v, d, k := g[s][i].to, g[s][i].cap, w.tags[s][i].arc;
      && v < net.n && k < |f| && |sent| == |f|
      && Balanced(net, if v != s then MoveFlow(w, f, s, i, d) else f, x[v := x[v] + d], sent[k := net.Cap(k)])
  {
    hide Stores, Primed;
    StoresShape(net, w, g, f, |net.arcs|);
    var s := net.source;
    PrimedSlot(net, w, g, f, sent, i);
    var v, d, k := g[s][i].to, g[s][i].cap, w.tags[s][i].arc;
    SumUpdate(x, v, x[v] + d);
    SumUpdate(sent, k, net.Cap(k));
    if v != s {
      MoveKeepsStore(net, w, g, f, s, i, d);
      var f' := MoveFlow(w, f, s, i, d);
      forall a | 0 <= a < net.n && a != s
        ensures x[v := x[v] + d][a] == net.Surplus(f', a)
      {
        MoveShiftsSurplus(net, w, g, f, s, i, d, a);
      }
    }
  }

  /** The value returned is the value of a feasible flow and the capacity of a cut, so no
      feasible flow is worth more. Terminals that coincide or lie out of range give 0. */
  method MaxFlowPushRelabel(nodeCount: nat, edges: seq<Arc>, source: nat, sink: nat) returns (r: i64)
    requires var net := Network(nodeCount, edges, source, sink); net.Proper() ==> Bounded(net)
    ensures var net := Network(nodeCount, edges, source, sink);
      if source < nodeCount && sink < nodeCount && source != sink then
        && (exists f :: net.IsFlow(f) && net.Value(f) == r)
        && (exists S :: net.IsCut(S) && net.CutCapacity(S) == r)
        && (forall f :: net.IsFlow(f) ==> net.Value(f) <= r)
      else r == 0
  {
    if nodeCount == 0 || source >= nodeCount || sink >= nodeCount || source == sink {
      return 0;
    }
    var s := new Solver(Network(nodeCount, edges, source, sink));
    s.Build();
    s.Prime();
    s.Drain();
    DrainedIsMaximum(s.net, s.f, s.height, s.excess, s.sent);
    r := s.excess[sink];
  }

  lemma Measured(net: Network, f: seq<int>, x: seq<int>, sent: seq<int>, h: seq<nat>)
    requires Balanced(net, f, x, sent) && |h| == net.n
    requires forall v :: 0 <= v < net.n ==> h[v] <= 2 * net.n - 1
    ensures Sum(h) <= 2 * net.n * |h| && 0 <= Dot(x, h)
  {
    SumAtMost(h, 2 * net.n);
    DotNonNegative(x, h);
  }

  /** With no active vertex left, the sink's excess is the value of a maximum flow. */
  lemma DrainedIsMaximum(net: Network, f: seq<int>, h: seq<nat>, x: seq<int>, sent: seq<int>)
    requires net.Proper() && Balanced(net, f, x, sent) && ValidLabelling(net, f, h)
    requires h[net.source] == net.n && h[net.sink] == 0
    requires forall v :: !IsActive(net, x, v)
    ensures net.IsFlow(f) && net.Value(f) == x[net.sink]
    ensures exists S :: net.IsCut(S) && net.CutCapacity(S) == x[net.sink]
    ensures forall f' :: net.IsFlow(f') ==> net.Value(f') <= x[net.sink]
  {
    forall v | 0 <= v < net.n && v != net.source && v != net.sink
      ensures net.Surplus(f, v) == 0
    {
      assert !IsActive(net, x, v);
    }
    HaltingStateIsMaximum(net, f, h);
  }
}
