/** Residual adjacency lists as push-relabel keeps them, and what each step does to the flow they carry. */
module ResidualLists {
  import opened FlowNetwork
  import opened Machine
  import opened Sums

  /** A residual slot: head, index of the mate slot in the head's list, residual capacity. */
  datatype Edge = Edge(to: nat, rev: nat, cap: i64)

  /** Which input arc a slot belongs to, and on which side of it the slot lies. */
  datatype Tag = Tag(arc: nat, forward: bool)

  /** `tags` labels every slot; `fwd` and `bwd` say where each arc's two slots are. */
  datatype Wiring = Wiring(tags: seq<seq<Tag>>, fwd: seq<nat>, bwd: seq<nat>)

  // ------------------------------------------------------------ representation of a flow

  ghost predicate Shaped(net: Network, w: Wiring, g: seq<seq<Edge>>) {
    && |g| == net.n == |w.tags|
    && |w.fwd| == |net.arcs| == |w.bwd|
    && forall u :: 0 <= u < net.n ==> |g[u]| == |w.tags[u]|
  }

  /** Slot `i` of vertex `u` stores its arc's unused capacity, or the flow it could send back.
      The mate of a self-loop's forward slot is that slot itself. */
  ghost predicate SlotStores(net: Network, w: Wiring, f: seq<int>, u: nat, i: nat, e: Edge)
    requires u < |w.tags| && i < |w.tags[u]|
    requires |f| == |net.arcs| == |w.fwd| == |w.bwd|
  {
    var t := w.tags[u][i];
    && t.arc < |net.arcs| && net.Usable(t.arc)
    && var a := net.arcs[t.arc];
    && u == (if t.forward then a.src else a.dst)
    && e.to == (if t.forward then a.dst else a.src)
    && i == (if t.forward then w.fwd[t.arc] else w.bwd[t.arc])
    && e.rev == (if t.forward && a.src != a.dst then w.bwd[t.arc] else w.fwd[t.arc])
    && e.cap == (if t.forward then a.cap - f[t.arc] else f[t.arc])
    && (a.src == a.dst ==> f[t.arc] == 0)
  }

  ghost predicate ArcStored(net: Network, w: Wiring, k: nat)
    requires k < |net.arcs| == |w.fwd| == |w.bwd| && net.Usable(k) && |w.tags| == net.n
  {
    var a := net.arcs[k];
    && w.fwd[k] < |w.tags[a.src]| && w.tags[a.src][w.fwd[k]] == Tag(k, true)
    && w.bwd[k] < |w.tags[a.dst]| && w.tags[a.dst][w.bwd[k]] == Tag(k, false)
  }

  /** The residual lists `g` hold exactly the first `m` arcs, carrying the flow `f`. */
  ghost predicate Stores(net: Network, w: Wiring, g: seq<seq<Edge>>, f: seq<int>, m: nat) {
    && Shaped(net, w, g) && |f| == |net.arcs| && m <= |f|
    && (forall u, i :: 0 <= u < net.n && 0 <= i < |g[u]| ==>
          SlotStores(net, w, f, u, i, g[u][i]) && w.tags[u][i].arc < m)
    && forall k :: 0 <= k < m && net.Usable(k) ==> ArcStored(net, w, k)
  }

  /** Move `d` units of residual capacity from a slot to its mate, as the source's two assignments do. */
  function MoveCap(g: seq<seq<Edge>>, u: nat, i: nat, d: int): (r: seq<seq<Edge>>)
    requires u < |g| && i < |g[u]| && 0 <= d <= g[u][i].cap
    requires g[u][i].to < |g| && g[u][i].to != u && g[u][i].rev < |g[g[u][i].to]|
    requires g[g[u][i].to][g[u][i].rev].cap + d <= I64_MAX
  {
    var e := g[u][i];
    var mate := g[e.to][e.rev];
    g[u := g[u][i := e.(cap := e.cap - d)]][e.to := g[e.to][e.rev := mate.(cap := mate.cap + d)]]
  }

  /** Sending `d` units over a slot adds to its arc's flow, or takes from it. */
  ghost function MoveFlow(w: Wiring, f: seq<int>, u: nat, i: nat, d: int): (f': seq<int>)
    requires u < |w.tags| && i < |w.tags[u]| && w.tags[u][i].arc < |f|
    ensures |f'| == |f|
  {
    var t := w.tags[u][i];
    f[t.arc := if t.forward then f[t.arc] + d else f[t.arc] - d]
  }

  /** A slot that does not loop back has a mate with the rest of its arc's capacity. */
  lemma MateOf(net: Network, w: Wiring, g: seq<seq<Edge>>, f: seq<int>, u: nat, i: nat)
    requires Stores(net, w, g, f, |net.arcs|) && net.WithinCapacity(f)
    requires u < net.n && i < |g[u]|
    ensures g[u][i].to < net.n
    ensures 0 <= g[u][i].cap <= net.Cap(w.tags[u][i].arc)
    ensures g[u][i].to != u ==>
      var e := g[u][i];
      && e.rev < |g[e.to]|
      && g[e.to][e.rev].cap + e.cap == net.Cap(w.tags[u][i].arc) <= I64_MAX
      && w.tags[e.to][e.rev] == Tag(w.tags[u][i].arc, !w.tags[u][i].forward)
  {
    var e := g[u][i];
    var k := w.tags[u][i].arc;
    assert SlotStores(net, w, f, u, i, e) && ArcStored(net, w, k);
    assert 0 <= f[k] <= net.Cap(k);
    if e.to != u {
      assert SlotStores(net, w, f, e.to, e.rev, g[e.to][e.rev]);
      var src, at := net.arcs[k].src, w.fwd[k];
      var dst, back := net.arcs[k].dst, w.bwd[k];
      assert SlotStores(net, w, f, src, at, g[src][at]);
      assert SlotStores(net, w, f, dst, back, g[dst][back]);
    }
  }

  /** What `MoveCap` leaves in each slot. */
  lemma MoveCapAt(g: seq<seq<Edge>>, u: nat, i: nat, d: int, v: nat, j: nat)
    requires u < |g| && i < |g[u]| && 0 <= d <= g[u][i].cap
    requires g[u][i].to < |g| && g[u][i].to != u && g[u][i].rev < |g[g[u][i].to]|
    requires g[g[u][i].to][g[u][i].rev].cap + d <= I64_MAX
    requires v < |g| && j < |g[v]|
    ensures var g', e := MoveCap(g, u, i, d), g[u][i];
      && |g'| == |g| && |g'[v]| == |g[v]|
      && g'[v][j].to == g[v][j].to && g'[v][j].rev == g[v][j].rev
      && g'[v][j].cap == g[v][j].cap - (if v == u && j == i then d else 0) + (if v == e.to && j == e.rev then d else 0)
  {
  }

  lemma MoveKeepsSlot(net: Network, w: Wiring, f: seq<int>, u: nat, i: nat, e: Edge, mate: Edge, d: int,
                      v: nat, j: nat, x: Edge, x': Edge)
    requires |f| == |net.arcs| == |w.fwd| == |w.bwd|
    requires u < |w.tags| && i < |w.tags[u]| && v < |w.tags| && j < |w.tags[v]|
    requires e.to < |w.tags| && e.rev < |w.tags[e.to]| && e.to != u
    requires SlotStores(net, w, f, u, i, e) && SlotStores(net, w, f, e.to, e.rev, mate) &&
        SlotStores(net, w, f, v, j, x)
    requires w.tags[e.to][e.rev] == Tag(w.tags[u][i].arc, !w.tags[u][i].forward)
    requires x'.to == x.to && x'.rev == x.rev
    requires x'.cap == x.cap - (if v == u && j == i then d else 0) + (if v == e.to && j == e.rev then d else 0)
    ensures SlotStores(net, w, MoveFlow(w, f, u, i, d), v, j, x')
  {
    var k := w.tags[u][i].arc;
    if w.tags[v][j].arc == k {
      assert (v == u && j == i) || (v == e.to && j == e.rev);
    } else {
      assert MoveFlow(w, f, u, i, d)[w.tags[v][j].arc] == f[w.tags[v][j].arc];
    }
  }

  /** Within its slot's capacity a move stays within the arc's capacity and within 64 bits. */
  lemma MoveFits(net: Network, w: Wiring, g: seq<seq<Edge>>, f: seq<int>, u: nat, i: nat, d: int)
    requires Stores(net, w, g, f, |net.arcs|) && net.WithinCapacity(f)
    requires u < net.n && i < |g[u]| && 0 <= d <= g[u][i].cap && g[u][i].to != u
    ensures g[u][i].to < net.n && g[u][i].rev < |g[g[u][i].to]|
    ensures g[g[u][i].to][g[u][i].rev].cap + d <= I64_MAX
    ensures w.tags[u][i].arc < |f| && net.WithinCapacity(MoveFlow(w, f, u, i, d))
  {
    MateOf(net, w, g, f, u, i);
    assert SlotStores(net, w, f, u, i, g[u][i]);
  }

  lemma MovedSlot(net: Network, w: Wiring, g: seq<seq<Edge>>, f: seq<int>, u: nat, i: nat, d: int, v: nat, j: nat)
    requires Stores(net, w, g, f, |net.arcs|) && net.WithinCapacity(f)
    requires u < net.n && i < |g[u]| && 0 <= d <= g[u][i].cap && g[u][i].to != u
    requires g[u][i].to < net.n && g[u][i].rev < |g[g[u][i].to]| && w.tags[u][i].arc < |f|
    requires g[g[u][i].to][g[u][i].rev].cap + d <= I64_MAX && v < net.n && j < |g[v]|
    ensures var g' := MoveCap(g, u, i, d);
      && |g'| == |g| && |g'[v]| == |g[v]| == |w.tags[v]| && w.tags[v][j].arc < |net.arcs|
      && SlotStores(net, w, MoveFlow(w, f, u, i, d), v, j, g'[v][j])
  {
    MateOf(net, w, g, f, u, i);
    var e := g[u][i];
    assert SlotStores(net, w, f, u, i, e) && SlotStores(net, w, f, e.to, e.rev, g[e.to][e.rev]);
    assert SlotStores(net, w, f, v, j, g[v][j]);
    hide Stores, SlotStores, MoveFlow;
    MoveCapAt(g, u, i, d, v, j);
    MoveKeepsSlot(net, w, f, u, i, e, g[e.to][e.rev], d, v, j, g[v][j], MoveCap(g, u, i, d)[v][j]);
  }

  lemma MoveKeepsStore(net: Network, w: Wiring, g: seq<seq<Edge>>, f: seq<int>, u: nat, i: nat, d: int)
    requires Stores(net, w, g, f, |net.arcs|) && net.WithinCapacity(f)
    requires u < net.n && i < |g[u]| && 0 <= d <= g[u][i].cap && g[u][i].to != u
    ensures g[u][i].to < net.n && g[u][i].rev < |g[g[u][i].to]|
    ensures g[g[u][i].to][g[u][i].rev].cap + d <= I64_MAX
    ensures w.tags[u][i].arc < |f|
    ensures Stores(net, w, MoveCap(g, u, i, d), MoveFlow(w, f, u, i, d), |net.arcs|)
    ensures net.WithinCapacity(MoveFlow(w, f, u, i, d))
  {
    MoveFits(net, w, g, f, u, i, d);
    var g' := MoveCap(g, u, i, d);
    assert |g'| == |g| && forall v :: 0 <= v < |g| ==> |g'[v]| == |g[v]|;
    hide MoveCap, SlotStores, MoveFlow;
    forall v, j | 0 <= v < net.n && 0 <= j < |g'[v]|
      ensures SlotStores(net, w, MoveFlow(w, f, u, i, d), v, j, g'[v][j]) && w.tags[v][j].arc < |net.arcs|
    {
      MovedSlot(net, w, g, f, u, i, d, v, j);
    }
  }

  /** A push moves `d` units of surplus from one end of the slot to the other, and nowhere else. */
  lemma MoveShiftsSurplus(net: Network, w: Wiring, g: seq<seq<Edge>>, f: seq<int>, u: nat, i: nat, d: int, v: nat)
    requires Stores(net, w, g, f, |net.arcs|)
    requires u < net.n && i < |g[u]| && g[u][i].to != u
    requires w.tags[u][i].arc < |f|
    ensures net.Surplus(MoveFlow(w, f, u, i, d), v) ==
      net.Surplus(f, v) - (if v == u then d else 0) + (if v == g[u][i].to then d else 0)
  {
    var t := w.tags[u][i];
    assert SlotStores(net, w, f, u, i, g[u][i]);
    var a := MoveFlow(w, f, u, i, d)[t.arc];
    net.InflowUpdate(f, t.arc, a, {v}, |net.arcs|);
  }

  /** A slot has residual capacity exactly when the flow leaves a residual arc there. */
  lemma SlotForResidual(net: Network, w: Wiring, g: seq<seq<Edge>>, f: seq<int>, u: nat, v: nat) returns (i: nat)
    requires Stores(net, w, g, f, |net.arcs|) && net.WithinCapacity(f)
    requires u < net.n && net.Residual(f, u, v)
    ensures i < |g[u]| && g[u][i].to == v && g[u][i].cap > 0
  {
    var k :| 0 <= k < |net.arcs| && net.ResidualBy(f, u, v, k);
    assert 0 <= f[k] <= net.Cap(k);
    assert net.Usable(k) && ArcStored(net, w, k);
    if net.arcs[k].src == u && net.arcs[k].dst == v && f[k] < net.Cap(k) {
      i := w.fwd[k];
    } else {
      i := w.bwd[k];
    }
    assert SlotStores(net, w, f, u, i, g[u][i]);
  }

  lemma ResidualForSlot(net: Network, w: Wiring, g: seq<seq<Edge>>, f: seq<int>, u: nat, i: nat)
    requires Stores(net, w, g, f, |net.arcs|) && net.WithinCapacity(f)
    requires u < net.n && i < |g[u]| && g[u][i].cap > 0
    ensures net.Residual(f, u, g[u][i].to)
  {
    assert SlotStores(net, w, f, u, i, g[u][i]);
    assert net.ResidualBy(f, u, g[u][i].to, w.tags[u][i].arc);
  }

  // ---------------------------------------------------------------- preflow invariant

  /** Excesses are the preflow's surpluses; together they are what the source has sent. */
  ghost predicate Balanced(net: Network, f: seq<int>, x: seq<int>, sent: seq<int>) {
    && net.WithinCapacity(f) && |x| == net.n && |sent| == |net.arcs|
    && (forall v :: 0 <= v < net.n ==> 0 <= x[v])
    && (forall v :: 0 <= v < net.n && v != net.source ==> x[v] == net.Surplus(f, v))
    && (forall k :: 0 <= k < |sent| ==> 0 <= sent[k] <= net.Supply()[k])
    && Sum(x) == Sum(sent)
  }

  /** No excess can leave the 64-bit range: it is part of what the source's own arcs can carry. */
  lemma ExcessFits(net: Network, f: seq<int>, x: seq<int>, sent: seq<int>, v: nat)
    requires Balanced(net, f, x, sent) && v < net.n
    ensures 0 <= x[v] <= Sum(x) <= Sum(net.Supply())
  {
    ElementAtMostSum(x, v);
    SumMonotone(sent, net.Supply());
  }

  lemma SumTransfer(x: seq<int>, u: nat, v: nat, d: int)
    requires u < |x| && v < |x| && u != v
    ensures Sum(x[u := x[u] - d][v := x[v] + d]) == Sum(x)
  {
    SumUpdate(x, u, x[u] - d);
    SumUpdate(x[u := x[u] - d], v, x[v] + d);
  }

  /** Moving `d` units one level down lowers the potential by `d`. */
  lemma DotTransfer(x: seq<int>, h: seq<int>, u: nat, v: nat, d: int)
    requires u < |x| == |h| && v < |x| && h[u] == h[v] + 1
    ensures Dot(x[u := x[u] - d][v := x[v] + d], h) == Dot(x, h) - d
  {
    hide Dot;
    DotAdd(x, u, -d, h);
    DotAdd(x[u := x[u] - d], v, d, h);
    assert -d * (h[v] + 1) == -d * h[v] - d && -d * h[v] + d * h[v] == 0;
  }

  lemma MoveKeepsBalance(net: Network, w: Wiring, g: seq<seq<Edge>>, f: seq<int>, x: seq<int>, sent: seq<int>,
                         u: nat, i: nat, d: int)
    requires Stores(net, w, g, f, |net.arcs|) && Balanced(net, f, x, sent)
    requires u < net.n && i < |g[u]| && 0 <= d <= g[u][i].cap && g[u][i].to != u && g[u][i].to < net.n
    requires u != net.source && d <= x[u] && w.tags[u][i].arc < |f|
    ensures Balanced(net, MoveFlow(w, f, u, i, d), x[u := x[u] - d][g[u][i].to := x[g[u][i].to] + d], sent)
  {
    MoveKeepsStore(net, w, g, f, u, i, d);
    var v := g[u][i].to;
    SumTransfer(x, u, v, d);
    var f' := MoveFlow(w, f, u, i, d);
    var x' := x[u := x[u] - d][v := x[v] + d];
    forall a | 0 <= a < net.n && a != net.source
      ensures x'[a] == net.Surplus(f', a)
    {
      MoveShiftsSurplus(net, w, g, f, u, i, d, a);
    }
  }

  /** A push down one level keeps the labelling valid: the only new residual arc runs upwards. */
  lemma MoveKeepsLabelling(net: Network, w: Wiring, g: seq<seq<Edge>>, f: seq<int>, h: seq<nat>, u: nat, i: nat, d: int)
    requires Stores(net, w, g, f, |net.arcs|) && net.WithinCapacity(f) && ValidLabelling(net, f, h)
    requires u < net.n && i < |g[u]| && 0 < d <= g[u][i].cap && g[u][i].to < net.n
    requires h[u] == h[g[u][i].to] + 1 && w.tags[u][i].arc < |f|
    ensures ValidLabelling(net, MoveFlow(w, f, u, i, d), h)
  {
    var f' := MoveFlow(w, f, u, i, d);
    assert SlotStores(net, w, f, u, i, g[u][i]);
    forall k | 0 <= k < |net.arcs| && net.Usable(k)
      ensures LabelledArc(net, f', h, k)
    {
      assert LabelledArc(net, f, h, k);
    }
  }

  /** Raising `u` to one above its lowest residual neighbour keeps the labelling valid. */
  lemma RaiseKeepsLabelling(net: Network, w: Wiring, g: seq<seq<Edge>>, f: seq<int>, h: seq<nat>, u: nat, raised: nat)
    requires Stores(net, w, g, f, |net.arcs|) && net.WithinCapacity(f) && ValidLabelling(net, f, h)
    requires u < net.n && h[u] <= raised
    requires forall i :: 0 <= i < |g[u]| && g[u][i].cap > 0 ==> g[u][i].to < net.n && raised <= h[g[u][i].to] + 1
    ensures ValidLabelling(net, f, h[u := raised])
  {
    var h' := h[u := raised];
    forall k | 0 <= k < |net.arcs| && net.Usable(k)
      ensures LabelledArc(net, f, h', k)
    {
      assert LabelledArc(net, f, h, k);
      var a := net.arcs[k];
      if a.src == u && f[k] < net.Cap(k) {
        assert net.ResidualBy(f, u, a.dst, k);
        var i := SlotForResidual(net, w, g, f, u, a.dst);
      }
      if a.dst == u && 0 < f[k] {
        assert net.ResidualBy(f, u, a.src, k);
        var i := SlotForResidual(net, w, g, f, u, a.src);
      }
    }
  }

  /** A vertex with excess always has a residual slot out of it, so relabelling finds a neighbour. */
  lemma ExcessHasExit(net: Network, w: Wiring, g: seq<seq<Edge>>, f: seq<int>, u: nat) returns (i: nat)
    requires net.Proper() && Stores(net, w, g, f, |net.arcs|) && net.IsPreflow(f)
    requires u < net.n && u != net.source && net.Surplus(f, u) > 0
    ensures i < |g[u]| && g[u][i].cap > 0
  {
    net.ExcessEscapes(f, {u}, u);
    var a, b :| a in {u} && b in net.Vertices() - {u} && net.Residual(f, a, b);
    i := SlotForResidual(net, w, g, f, u, b);
  }

  // ------------------------------------------------------------- building and priming

  /** One `add_edge` call: arc `k` gets a forward slot at its tail and a backward slot at its head. */
  ghost predicate Added(net: Network, w: Wiring, g: seq<seq<Edge>>, k: nat, w': Wiring, g': seq<seq<Edge>>) {
    && k < |net.arcs| && net.Usable(k) && Shaped(net, w, g) && |g'| == |w'.tags| == net.n
    && var a := net.arcs[k];
    && g' == Appended(Appended(g, a.src, Edge(a.dst, |g[a.dst]|, a.cap)), a.dst, Edge(a.src, |g[a.src]|, 0))
    && w'.tags == Appended(Appended(w.tags, a.src, Tag(k, true)), a.dst, Tag(k, false))
    && w'.fwd == w.fwd[k := |g[a.src]|]
    && w'.bwd == w.bwd[k := if a.src == a.dst then |g[a.dst]| + 1 else |g[a.dst]|]
  }

  lemma AddKeepsSlot(net: Network, w: Wiring, g: seq<seq<Edge>>, f: seq<int>, k: nat, w': Wiring, g': seq<seq<Edge>>,
                     u: nat, i: nat)
    requires Stores(net, w, g, f, k) && Added(net, w, g, k, w', g')
    requires forall j :: 0 <= j < |f| ==> f[j] == 0
    requires u < net.n && i < |g'[u]| == |w'.tags[u]|
    ensures SlotStores(net, w', f, u, i, g'[u][i]) && w'.tags[u][i].arc <= k
  {
    var a := net.arcs[k];
    AppendedTwice(g, a.src, Edge(a.dst, |g[a.dst]|, a.cap), a.dst, Edge(a.src, |g[a.src]|, 0), u);
    AppendedTwice(w.tags, a.src, Tag(k, true), a.dst, Tag(k, false), u);
    if i < |g[u]| {
      assert SlotStores(net, w, f, u, i, g[u][i]);
    }
  }

  lemma AddStoresArc(net: Network, w: Wiring, g: seq<seq<Edge>>, f: seq<int>, k: nat, w': Wiring, g': seq<seq<Edge>>,
                     j: nat)
    requires Stores(net, w, g, f, k) && Added(net, w, g, k, w', g') && j <= k && net.Usable(j)
    ensures ArcStored(net, w', j)
  {
    var a := net.arcs[k];
    AppendedTwice(w.tags, a.src, Tag(k, true), a.dst, Tag(k, false), net.arcs[j].src);
    AppendedTwice(w.tags, a.src, Tag(k, true), a.dst, Tag(k, false), net.arcs[j].dst);
    if j < k {
      assert ArcStored(net, w, j);
    }
  }

  lemma AddKeepsStore(net: Network, w: Wiring, g: seq<seq<Edge>>, f: seq<int>, k: nat, w': Wiring, g': seq<seq<Edge>>)
    requires Stores(net, w, g, f, k) && Added(net, w, g, k, w', g')
    requires forall j :: 0 <= j < |f| ==> f[j] == 0
    ensures Stores(net, w', g', f, k + 1)
  {
    var a := net.arcs[k];
    forall u | 0 <= u < net.n
      ensures |g'[u]| == |w'.tags[u]|
    {
      AppendedTwice(g, a.src, Edge(a.dst, |g[a.dst]|, a.cap), a.dst, Edge(a.src, |g[a.src]|, 0), u);
      AppendedTwice(w.tags, a.src, Tag(k, true), a.dst, Tag(k, false), u);
    }
    forall u, i | 0 <= u < net.n && 0 <= i < |g'[u]|
      ensures SlotStores(net, w', f, u, i, g'[u][i]) && w'.tags[u][i].arc < k + 1
    {
      AddKeepsSlot(net, w, g, f, k, w', g', u, i);
    }
    forall j | 0 <= j < k + 1 && net.Usable(j)
      ensures ArcStored(net, w', j)
    {
      AddStoresArc(net, w, g, f, k, w', g', j);
    }
  }

  lemma SkipKeepsStore(net: Network, w: Wiring, g: seq<seq<Edge>>, f: seq<int>, k: nat)
    requires k < |net.arcs| && !net.Usable(k) && Stores(net, w, g, f, k)
    ensures Stores(net, w, g, f, k + 1)
  {
  }

  function Appended<T>(g: seq<seq<T>>, u: nat, x: T): (r: seq<seq<T>>)
    requires u < |g|
    ensures |r| == |g|
  {
    g[u := g[u] + [x]]
  }

  /** What two appends, possibly to the same list, leave in list `c`. */
  lemma AppendedTwice<T>(g: seq<seq<T>>, u: nat, x: T, v: nat, y: T, c: nat)
    requires u < |g| && v < |g| && c < |g|
    ensures var r := Appended(Appended(g, u, x), v, y);
      r[c] == g[c] + (if c == u then [x] else []) + (if c == v then [y] else [])
  {
  }

  /** After the first `i` slots of the source: exactly those forward slots are saturated. */
  ghost predicate Primed(net: Network, w: Wiring, f: seq<int>, sent: seq<int>, i: nat) {
    && |f| == |sent| == |net.arcs| == |w.fwd|
    && forall k :: 0 <= k < |f| ==>
         && sent[k] == (if net.Usable(k) && net.arcs[k].src == net.source && w.fwd[k] < i then net.Cap(k) else 0)
         && f[k] == (if net.arcs[k].src != net.arcs[k].dst then sent[k] else 0)
  }

  /** The slots the priming loop saturates are exactly the forward slots it meets. */
  lemma PrimedSlot(net: Network, w: Wiring, g: seq<seq<Edge>>, f: seq<int>, sent: seq<int>, i: nat)
    requires net.Proper() && Stores(net, w, g, f, |net.arcs|) && Primed(net, w, f, sent, i)
    requires i < |g[net.source]|
    ensures var t := w.tags[net.source][i];
      && t.arc < |f|
      && (g[net.source][i].cap > 0 <==> t.forward)
      && (t.forward ==> net.Usable(t.arc) && net.arcs[t.arc].src == net.source && w.fwd[t.arc] == i
                        && sent[t.arc] == 0 && g[net.source][i].cap == net.Cap(t.arc)
                        && g[net.source][i].to == net.arcs[t.arc].dst < net.n)
      && (!t.forward ==> Primed(net, w, f, sent, i + 1))
      && (t.forward && g[net.source][i].to == net.source ==> g[net.source][i].rev == i)
  {
    var s := net.source;
    var t := w.tags[s][i];
    assert SlotStores(net, w, f, s, i, g[s][i]);
    assert f[t.arc] == (if net.arcs[t.arc].src != net.arcs[t.arc].dst then sent[t.arc] else 0);
    if !t.forward {
      forall k | 0 <= k < |f| && net.Usable(k) && net.arcs[k].src == s
        ensures w.fwd[k] != i
      {
        assert ArcStored(net, w, k);
      }
    }
  }

  lemma PrimedNext(net: Network, w: Wiring, g: seq<seq<Edge>>, f: seq<int>, sent: seq<int>, i: nat, k: nat)
    requires net.Proper() && Stores(net, w, g, f, |net.arcs|) && Primed(net, w, f, sent, i)
    requires i < |g[net.source]| && w.tags[net.source][i] == Tag(k, true)
    requires k < |f| && net.Usable(k) && net.arcs[k].src == net.source && w.fwd[k] == i
    ensures var f' := if net.arcs[k].dst != net.source then f[k := net.Cap(k)] else f;
            Primed(net, w, f', sent[k := net.Cap(k)], i + 1)
  {
    forall j | 0 <= j < |f| && net.Usable(j) && net.arcs[j].src == net.source && j != k
      ensures w.fwd[j] != i
    {
      assert ArcStored(net, w, j);
    }
  }

  /** Saturating the source's arcs establishes a valid labelling with the source at height `n`. */
  lemma PrimedLabelling(net: Network, w: Wiring, g: seq<seq<Edge>>, f: seq<int>, sent: seq<int>, h: seq<nat>)
    requires net.Proper() && Stores(net, w, g, f, |net.arcs|) && Primed(net, w, f, sent, |g[net.source]|)
    requires |h| == net.n && forall v :: 0 <= v < net.n ==> h[v] == if v == net.source then net.n else 0
    ensures ValidLabelling(net, f, h)
  {
    forall k | 0 <= k < |net.arcs| && net.Usable(k)
      ensures LabelledArc(net, f, h, k)
    {
      assert ArcStored(net, w, k);
    }
  }

  lemma {:induction false} NoFlowNoSurplus(net: Network, f: seq<int>, T: set<nat>, m: nat)
    requires |f| == |net.arcs| && m <= |f| && forall k :: 0 <= k < |f| ==> f[k] == 0
    ensures net.InflowUpTo(f, T, m) == 0
  {
    if m == 0 {
    } else {
      NoFlowNoSurplus(net, f, T, m - 1);
    }
  }

  lemma StillNoFlow(net: Network, f: seq<int>, x: seq<int>, sent: seq<int>)
    requires |f| == |net.arcs| == |sent| && |x| == net.n
    requires forall k :: 0 <= k < |f| ==> f[k] == 0 == sent[k]
    requires forall v :: 0 <= v < net.n ==> x[v] == 0
    ensures Balanced(net, f, x, sent)
  {
    SumZero(x);
    SumZero(sent);
    forall v | 0 <= v < net.n
      ensures net.Surplus(f, v) == 0
    {
      NoFlowNoSurplus(net, f, {v}, |f|);
    }
  }
}
