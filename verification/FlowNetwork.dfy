/** Flow networks, flows, cuts and labellings, over the list of triples that the caller passes in. */
module FlowNetwork {
  import opened Finite
  import opened Machine

  datatype Arc = Arc(src: nat, dst: nat, cap: i64)

  datatype Network = Network(n: nat, arcs: seq<Arc>, source: nat, sink: nat) {
    predicate Proper() {
      source < n && sink < n && source != sink
    }

    /** Arcs that leave the vertex range or have no capacity are ignored. */
    predicate Usable(k: nat)
      requires k < |arcs|
    {
      arcs[k].src < n && arcs[k].dst < n && arcs[k].cap > 0
    }

    /** What the caller's triple counts for: its own capacity if it is in range and positive, else nothing. */
    function Cap(k: nat): (c: nat)
      requires k < |arcs|
      ensures arcs[k].src < n && arcs[k].dst < n && arcs[k].cap > 0 ==> c == arcs[k].cap
      ensures !(arcs[k].src < n && arcs[k].dst < n && arcs[k].cap > 0) ==> c == 0
    {
      if Usable(k) then arcs[k].cap else 0
    }

    /** What each arc can take out of the source: excess comes from nowhere else. */
    ghost function Supply(): (s: seq<int>)
      ensures |s| == |arcs|
    {
      seq(|arcs|, k requires 0 <= k < |arcs| => if arcs[k].src == source then Cap(k) else 0)
    }

    ghost predicate WithinCapacity(f: seq<int>) {
      |f| == |arcs| && forall k :: 0 <= k < |arcs| ==> 0 <= f[k] <= Cap(k)
    }

    /** Flow that enters the vertex set `T` minus flow that leaves it, over the first `m` arcs. */
    ghost function InflowUpTo(f: seq<int>, T: set<nat>, m: nat): int
      requires |f| == |arcs| && m <= |arcs|
    {
      if m == 0 then 0 else
        InflowUpTo(f, T, m - 1)
        + (if arcs[m - 1].dst in T then f[m - 1] else 0)
        - (if arcs[m - 1].src in T then f[m - 1] else 0)
    }

    ghost function Inflow(f: seq<int>, T: set<nat>): int
      requires |f| == |arcs|
    {
      InflowUpTo(f, T, |arcs|)
    }

    ghost function Surplus(f: seq<int>, v: nat): int
      requires |f| == |arcs|
    {
      Inflow(f, {v})
    }

    /** A feasible flow: capacities respected, nothing lost or made at inner vertices. */
    ghost predicate IsFlow(f: seq<int>) {
      && WithinCapacity(f)
      && forall v :: 0 <= v < n && v != source && v != sink ==> Surplus(f, v) == 0
    }

    ghost function Value(f: seq<int>): int
      requires |f| == |arcs|
    {
      Surplus(f, sink)
    }

    /** A cut is given by its source side. */
    ghost predicate IsCut(S: set<nat>) {
      source in S && sink !in S
    }

    ghost function CutCapacityUpTo(S: set<nat>, m: nat): int
      requires m <= |arcs|
    {
      if m == 0 then 0 else
        CutCapacityUpTo(S, m - 1)
        + (if arcs[m - 1].src in S && arcs[m - 1].dst !in S then Cap(m - 1) else 0)
    }

    ghost function CutCapacity(S: set<nat>): int {
      CutCapacityUpTo(S, |arcs|)
    }

    /** What both a preflow and a flow are: balance is non-negative away from the source. */
    ghost predicate IsPreflow(f: seq<int>) {
      && WithinCapacity(f)
      && forall v :: 0 <= v < n && v != source ==> 0 <= Surplus(f, v)
    }

    /** There is a residual arc from `u` to `v`. */
    ghost predicate Residual(f: seq<int>, u: nat, v: nat)
      requires |f| == |arcs|
    {
      exists k :: 0 <= k < |arcs| && ResidualBy(f, u, v, k)
    }

    ghost predicate ResidualBy(f: seq<int>, u: nat, v: nat, k: nat)
      requires |f| == |arcs| && k < |arcs|
    {
      || (arcs[k].src == u && arcs[k].dst == v && f[k] < Cap(k))
      || (arcs[k].dst == u && arcs[k].src == v && 0 < f[k])
    }

    ghost predicate ResidualPath(f: seq<int>, p: seq<nat>)
      requires |f| == |arcs|
    {
      && |p| > 0
      && forall i :: 0 <= i < |p| - 1 ==> Residual(f, p[i], p[i + 1])
    }

    ghost predicate ResidualReach(f: seq<int>, u: nat, v: nat)
      requires |f| == |arcs|
    {
      exists p :: ResidualPath(f, p) && p[0] == u && p[|p| - 1] == v
    }

    // ---------------------------------------------------------------- flow algebra

    lemma {:induction false} InflowDisjoint(f: seq<int>, A: set<nat>, B: set<nat>, m: nat)
      requires |f| == |arcs| && m <= |arcs| && A !! B
      ensures InflowUpTo(f, A + B, m) == InflowUpTo(f, A, m) + InflowUpTo(f, B, m)
    {
      if m == 0 {
      } else {
        InflowDisjoint(f, A, B, m - 1);
      }
    }

    lemma {:induction false} InflowEmpty(f: seq<int>, m: nat)
      requires |f| == |arcs| && m <= |arcs|
      ensures InflowUpTo(f, {}, m) == 0
    {
      if m == 0 {
      } else {
        InflowEmpty(f, m - 1);
      }
    }

    lemma InflowSplit(f: seq<int>, T: set<nat>, v: nat)
      requires |f| == |arcs| && v in T
      ensures Inflow(f, T) == Surplus(f, v) + Inflow(f, T - {v})
    {
      assert {v} + (T - {v}) == T;
      InflowDisjoint(f, {v}, T - {v}, |arcs|);
    }

    lemma {:induction false} InflowUpdate(f: seq<int>, k: nat, a: int, T: set<nat>, m: nat)
      requires |f| == |arcs| && k < |arcs| && m <= |arcs|
      ensures InflowUpTo(f[k := a], T, m) == InflowUpTo(f, T, m)
        + (if k < m && arcs[k].dst in T then a - f[k] else 0)
        - (if k < m && arcs[k].src in T then a - f[k] else 0)
    {
      if m == 0 {
      } else {
        InflowUpdate(f, k, a, T, m - 1);
      }
    }

    /** Away from the source a preflow's balance over any set is the sum of non-negative surpluses. */
    lemma {:induction false} InflowOfPreflow(f: seq<int>, T: set<nat>)
      requires IsPreflow(f) && source !in T && forall v :: v in T ==> v < n
      ensures 0 <= Inflow(f, T)
      ensures forall u :: u in T ==> Surplus(f, u) <= Inflow(f, T)
      decreases T
    {
      if T == {} {
        InflowEmpty(f, |arcs|);
      } else {
        forall u | u in T
          ensures Surplus(f, u) <= Inflow(f, T)
        {
          InflowSplit(f, T, u);
          InflowOfPreflow(f, T - {u});
        }
        var u :| u in T;
        assert 0 <= Surplus(f, u);
      }
    }

    lemma {:induction false} InflowOfInner(f: seq<int>, T: set<nat>)
      requires IsFlow(f) && source !in T && sink !in T && forall v :: v in T ==> v < n
      ensures Inflow(f, T) == 0
      decreases T
    {
      if T == {} {
        InflowEmpty(f, |arcs|);
      } else {
        var u :| u in T;
        InflowSplit(f, T, u);
        InflowOfInner(f, T - {u});
      }
    }

    ghost function Vertices(): set<nat> {
      Range(0, n)
    }

    /** The far side of a cut receives exactly the flow value. */
    lemma InflowOfSinkSide(f: seq<int>, S: set<nat>)
      requires Proper() && IsFlow(f) && IsCut(S)
      ensures Inflow(f, Vertices() - S) == Value(f)
    {
      InflowSplit(f, Vertices() - S, sink);
      InflowOfInner(f, Vertices() - S - {sink});
    }

    /** Flow across a cut is bounded by its capacity, and equals it when no residual arc crosses. */
    lemma {:induction false} InflowVersusCut(f: seq<int>, S: set<nat>, m: nat)
      requires WithinCapacity(f) && m <= |arcs|
      ensures InflowUpTo(f, Vertices() - S, m) <= CutCapacityUpTo(S, m)
      ensures (forall u, v :: u in S && v in Vertices() - S ==> !Residual(f, u, v))
        ==> InflowUpTo(f, Vertices() - S, m) == CutCapacityUpTo(S, m)
    {
      if m == 0 {
      } else {
        InflowVersusCut(f, S, m - 1);
        var a := arcs[m - 1];
        var T := Vertices() - S;
        assert 0 <= f[m - 1] <= Cap(m - 1);
        if forall u, v :: u in S && v in T ==> !Residual(f, u, v) {
          if a.src in S && a.dst in T {
            assert !Residual(f, a.src, a.dst);
            assert !ResidualBy(f, a.src, a.dst, m - 1);
          }
          if a.src in T && a.dst in S {
            assert !Residual(f, a.dst, a.src);
            assert !ResidualBy(f, a.dst, a.src, m - 1);
          }
        }
      }
    }

    /** Weak duality: no feasible flow is worth more than any cut. */
    lemma FlowAtMostCut(f: seq<int>, S: set<nat>)
      requires Proper() && IsFlow(f) && IsCut(S)
      ensures Value(f) <= CutCapacity(S)
    {
      InflowOfSinkSide(f, S);
      InflowVersusCut(f, S, |arcs|);
    }

    /** A flow that no residual arc takes across a cut attains that cut. */
    lemma SaturatedCut(f: seq<int>, S: set<nat>)
      requires Proper() && IsFlow(f) && IsCut(S)
      requires forall u, v :: u in S && v in Vertices() - S ==> !Residual(f, u, v)
      ensures Value(f) == CutCapacity(S)
    {
      InflowOfSinkSide(f, S);
      InflowVersusCut(f, S, |arcs|);
    }

    /** What the sink receives is what the source sends out. */
    lemma SourceSendsValue(f: seq<int>)
      requires Proper() && IsFlow(f)
      ensures Surplus(f, source) == -Value(f)
    {
      var V := Vertices();
      InflowSplit(f, V, source);
      InflowOfSinkSide(f, {source});
      InflowOfEverything(f, |arcs|);
    }

    lemma {:induction false} InflowOfEverything(f: seq<int>, m: nat)
      requires WithinCapacity(f) && m <= |arcs|
      ensures InflowUpTo(f, Vertices(), m) == 0
    {
      if m == 0 {
      } else {
        InflowOfEverything(f, m - 1);
        assert !Usable(m - 1) ==> f[m - 1] == 0;
      }
    }

    /** A vertex set that holds excess, and from which no residual arc leaves, holds the source. */
    lemma ExcessEscapes(f: seq<int>, T: set<nat>, u: nat)
      requires IsPreflow(f) && u in T && source !in T && Surplus(f, u) > 0
      requires forall v :: v in T ==> v < n
      ensures exists a, b :: a in T && b in Vertices() - T && Residual(f, a, b)
    {
      InflowOfPreflow(f, T);
      if forall a, b :: a in T && b in Vertices() - T ==> !Residual(f, a, b) {
        ClosedSetDrains(f, T, |arcs|);
        assert false;
      }
    }

    lemma {:induction false} ClosedSetDrains(f: seq<int>, T: set<nat>, m: nat)
      requires WithinCapacity(f) && m <= |arcs|
      requires forall v :: v in T ==> v < n
      requires forall a, b :: a in T && b in Vertices() - T ==> !Residual(f, a, b)
      ensures InflowUpTo(f, T, m) <= 0
    {
      if m == 0 {
      } else {
        ClosedSetDrains(f, T, m - 1);
        var a := arcs[m - 1];
        assert 0 <= f[m - 1] <= Cap(m - 1);
        if a.dst in T && a.src !in T && f[m - 1] > 0 {
          assert a.src in Vertices() - T;
          assert ResidualBy(f, a.dst, a.src, m - 1);
          assert Residual(f, a.dst, a.src);
          assert false;
        }
      }
    }

    lemma PathExtends(f: seq<int>, p: seq<nat>, b: nat)
      requires |f| == |arcs| && ResidualPath(f, p) && Residual(f, p[|p| - 1], b)
      ensures ResidualReach(f, p[0], b)
    {
      var q := p + [b];
      assert ResidualPath(f, q) && q[0] == p[0] && q[|q| - 1] == b;
    }

    /** Every vertex with excess has a residual path back to the source. */
    lemma ExcessReachesSource(f: seq<int>, u: nat)
      requires Proper() && IsPreflow(f) && u < n && u != source && Surplus(f, u) > 0
      ensures ResidualReach(f, u, source)
    {
      var R := set v | v in Vertices() && ResidualReach(f, u, v);
      assert ResidualPath(f, [u]);
      assert u in R;
      if source !in R {
        ExcessEscapes(f, R, u);
        var a, b :| a in R && b in Vertices() - R && Residual(f, a, b);
        var p :| ResidualPath(f, p) && p[0] == u && p[|p| - 1] == a;
        PathExtends(f, p, b);
        assert false;
      }
    }
  }

  // ------------------------------------------------------------------ height labellings

  /** A labelling that drops by at most one along every residual arc. */
  ghost predicate ValidLabelling(net: Network, f: seq<int>, h: seq<nat>) {
    && |f| == |net.arcs| && |h| == net.n
    && forall k :: 0 <= k < |net.arcs| && net.Usable(k) ==> LabelledArc(net, f, h, k)
  }

  ghost predicate LabelledArc(net: Network, f: seq<int>, h: seq<nat>, k: nat)
    requires k < |net.arcs| == |f| && |h| == net.n && net.Usable(k)
  {
    && (f[k] < net.Cap(k) ==> h[net.arcs[k].src] <= h[net.arcs[k].dst] + 1)
    && (0 < f[k] ==> h[net.arcs[k].dst] <= h[net.arcs[k].src] + 1)
  }

  lemma LabelsDropByOne(net: Network, f: seq<int>, h: seq<nat>, u: nat, v: nat)
    requires ValidLabelling(net, f, h) && net.WithinCapacity(f) && net.Residual(f, u, v)
    ensures u < net.n && v < net.n && h[u] <= h[v] + 1
  {
    var k :| 0 <= k < |net.arcs| && net.ResidualBy(f, u, v, k);
    assert 0 <= f[k] <= net.Cap(k);
    assert net.Usable(k);
    assert LabelledArc(net, f, h, k);
  }

  /** Pigeonhole: `n - 2` vertices cannot occupy `n - 1` consecutive heights. */
  lemma HeightGap(h: seq<nat>, a: nat, b: nat, lo: nat) returns (gap: nat)
    requires a < |h| && b < |h| && a != b
    requires h[a] <= lo && lo + |h| <= h[b]
    ensures lo < gap < lo + |h| && forall v :: 0 <= v < |h| ==> h[v] != gap
  {
    var n := |h|;
    var levels := Range(lo + 1, lo + n);
    var inner := Range(0, n) - {a} - {b};
    ImageAtMost(h, inner);
    gap := MissingElement(levels, Image(h, inner));
    forall v | 0 <= v < n
      ensures h[v] != gap
    {
      assert v in inner || v == a || v == b;
    }
  }

  lemma MissingElement(A: set<nat>, B: set<nat>) returns (x: nat)
    requires |B| < |A|
    ensures x in A && x !in B
  {
    if A <= B {
      SubsetSize(A, B);
      assert false;
    }
    x :| x in A && x !in B;
  }

  /** No residual arc crosses a height level that no vertex occupies. */
  lemma NothingCrossesGap(net: Network, f: seq<int>, h: seq<nat>, gap: nat)
    requires ValidLabelling(net, f, h) && net.WithinCapacity(f)
    requires forall v :: 0 <= v < net.n ==> h[v] != gap
    ensures forall u, v :: 0 <= u < net.n && 0 <= v < net.n && h[v] <= gap < h[u] ==> !net.Residual(f, u, v)
  {
    forall u, v | 0 <= u < net.n && 0 <= v < net.n && h[v] <= gap < h[u]
      ensures !net.Residual(f, u, v)
    {
      if net.Residual(f, u, v) {
        LabelsDropByOne(net, f, h, u, v);
        assert false;
      }
    }
  }

  /** A vertex that holds excess is never labelled higher than `2n - 1`. */
  lemma HeightBound(net: Network, f: seq<int>, h: seq<nat>, u: nat)
    requires net.Proper() && net.IsPreflow(f) && ValidLabelling(net, f, h)
    requires h[net.source] == net.n
    requires u < net.n && u != net.source && net.Surplus(f, u) > 0
    ensures h[u] <= 2 * net.n - 1
  {
    if h[u] >= 2 * net.n {
      var gap := HeightGap(h, net.source, u, net.n);
      NothingCrossesGap(net, f, h, gap);
      var T := set v | 0 <= v < net.n && h[v] > gap;
      net.ExcessEscapes(f, T, u);
      assert false;
    }
  }

  /** Push-relabel's halting state is a maximum flow, certified by the cut at a height gap. */
  lemma HaltingStateIsMaximum(net: Network, f: seq<int>, h: seq<nat>)
    requires net.Proper() && net.IsFlow(f) && ValidLabelling(net, f, h)
    requires h[net.source] == net.n && h[net.sink] == 0
    ensures exists S :: net.IsCut(S) && net.CutCapacity(S) == net.Value(f)
    ensures forall f' :: net.IsFlow(f') ==> net.Value(f') <= net.Value(f)
  {
    var gap := HeightGap(h, net.sink, net.source, 0);
    NothingCrossesGap(net, f, h, gap);
    var S := set v | 0 <= v < net.n && h[v] > gap;
    assert net.IsCut(S);
    net.SaturatedCut(f, S);
    forall f' | net.IsFlow(f')
      ensures net.Value(f') <= net.Value(f)
    {
      net.FlowAtMostCut(f', S);
    }
  }
}
