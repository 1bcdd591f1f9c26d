/** Dominators of a control-flow graph by iteration to the greatest fixpoint. */
module Dominators {
  import opened Digraph
  import opened Finite

  /** The graph's edges: from each predecessor that the map lists for a vertex below `count`. */
  ghost function Flow(count: nat, preds: Preds): (E: Edges)
    ensures forall a: nat, b: nat :: (a, b) in E <==> b < count && b in preds && a in preds[b]
  {
    set b: nat, i: nat | b in Range(0, count) && b in preds && 0 <= i < |preds[b]| :: (preds[b][i], b)
  }

  /** `v` lies on every path from `entry` to `n`. */
  ghost predicate Dominates(E: Edges, entry: nat, v: nat, n: nat) {
    forall p :: PathFromTo(E, p, entry, n) ==> v in p
  }

  /** The entry's own list is never read, so only the others must stay in range. */
  ghost predicate PredsInRange(count: nat, preds: Preds, entry: nat) {
    forall n: nat, i: nat :: n < count && n != entry && n in preds && i < |preds[n]| ==> preds[n][i] < count
  }

  /** One application of the dominator equation at `n`. */
  ghost function Equation(count: nat, preds: Preds, dom: seq<set<nat>>, n: nat): (S: set<nat>)
    requires |dom| == count && forall i :: 0 <= i < |PredList(preds, n)| ==> PredList(preds, n)[i] < count
  {
    (set v | v in Range(0, count) && forall i :: 0 <= i < |PredList(preds, n)| ==>
        v in dom[PredList(preds, n)[i]]) + {n}
  }

  /** Values only ever shrink towards the greatest solution, which holds all true dominators. */
  ghost predicate Descending(count: nat, preds: Preds, entry: nat, dom: seq<set<nat>>) {
    && |dom| == count && PredsInRange(count, preds, entry)
    && (forall n :: 0 <= n < count ==> dom[n] <= Range(0, count))
    && (entry < count ==> dom[entry] == {entry})
    && (forall n :: 0 <= n < count && n != entry ==> Equation(count, preds, dom, n) <= dom[n])
    && forall n: nat, v: nat :: n < count && v < count && Dominates(Flow(count, preds), entry, v, n) ==> v in dom[n]
  }

  /** The dominator equation holds at every vertex below `k` other than the entry. */
  ghost predicate SolvedBelow(count: nat, preds: Preds, entry: nat, dom: seq<set<nat>>, k: nat) {
    && |dom| == count && PredsInRange(count, preds, entry)
    && forall n :: 0 <= n < k && n < count && n != entry ==> dom[n] == Equation(count, preds, dom, n)
  }

  lemma EquationKeepsDominators(count: nat, preds: Preds, entry: nat, dom: seq<set<nat>>, n: nat, v: nat)
    requires Descending(count, preds, entry, dom) && n < count && n != entry && v < count
    requires Dominates(Flow(count, preds), entry, v, n)
    ensures v in Equation(count, preds, dom, n)
  {
    var E := Flow(count, preds);
    if v != n {
      forall i | 0 <= i < |PredList(preds, n)|
        ensures v in dom[PredList(preds, n)[i]]
      {
        var a := PredList(preds, n)[i];
        forall p | PathFromTo(E, p, entry, a)
          ensures v in p
        {
          PathConcat(E, p, [a, n]);
          assert p + [a, n][1..] == p + [n];
        }
        assert Dominates(E, entry, v, a);
      }
    }
  }

  lemma StepKeepsDescending(count: nat, preds: Preds, entry: nat, dom: seq<set<nat>>, n: nat)
    requires Descending(count, preds, entry, dom) && n < count && n != entry
    ensures Descending(count, preds, entry, dom[n := Equation(count, preds, dom, n)])
  {
    var S := Equation(count, preds, dom, n);
    var dom' := dom[n := S];
    forall k | 0 <= k < count && k != entry
      ensures Equation(count, preds, dom', k) <= dom'[k]
    {
    }
    forall k: nat, v: nat | k < count && v < count && Dominates(Flow(count, preds), entry, v, k)
      ensures v in dom'[k]
    {
      if k == n {
        EquationKeepsDominators(count, preds, entry, dom, n, v);
      }
    }
  }

  /** At a fixpoint, what is recorded at a path's end lies on the path. */
  lemma {:induction false} FixpointIsSound(count: nat, preds: Preds, entry: nat, dom: seq<set<nat>>, p: seq<nat>,
                                           v: nat)
    requires Descending(count, preds, entry, dom)
    requires SolvedBelow(count, preds, entry, dom, count)
    requires IsPath(Flow(count, preds), p) && p[0] == entry && p[|p| - 1] < count && v in dom[p[|p| - 1]]
    ensures v in p
    decreases |p|
  {
    var E := Flow(count, preds);
    var n := p[|p| - 1];
    if n == entry || v == n {
      assert v == n;
    } else {
      var q := p[..|p| - 1];
      var a := q[|q| - 1];
      assert (p[|p| - 2], p[|p| - 2 + 1]) in E;
      var i :| 0 <= i < |PredList(preds, n)| && PredList(preds, n)[i] == a;
      SubPath(E, p, 0, |p| - 2);
      assert p[0..|p| - 2 + 1] == q;
      FixpointIsSound(count, preds, entry, dom, q, v);
    }
  }

  ghost function Pairs(dom: seq<set<nat>>): (S: set<(nat, nat)>)
    ensures forall n: nat, v: nat :: (n, v) in S <==> n < |dom| && v in dom[n]
  {
    set n: nat, v: nat | n in Range(0, |dom|) && v in dom[n] :: (n, v)
  }

  ghost predicate Smaller(dom: seq<set<nat>>, dom0: seq<set<nat>>) {
    Pairs(dom) < Pairs(dom0)
  }

  lemma ShrinkOne(dom0: seq<set<nat>>, dom: seq<set<nat>>, n: nat, S: set<nat>)
    requires n < |dom| && S < dom[n] && (dom == dom0 || Smaller(dom, dom0))
    ensures Smaller(dom[n := S], dom0)
  {
    var v :| v in dom[n] && v !in S;
    assert (n, v) in Pairs(dom) && (n, v) !in Pairs(dom[n := S]);
  }

  /** The intersection over a list of vertices; everything, if the list is empty. */
  method Meet(all: set<nat>, dom: seq<set<nat>>, list: seq<nat>) returns (common: set<nat>)
    requires forall i :: 0 <= i < |list| ==> list[i] < |dom| && dom[list[i]] <= all
    ensures forall v :: v in common <==> v in all && forall i :: 0 <= i < |list| ==> v in dom[list[i]]
  {
    if list == [] {
      return all;
    }
    common := dom[list[0]];
    for i := 1 to |list|
      invariant forall v :: v in common <==> v in all && forall j :: 0 <= j < i ==> v in dom[list[j]]
    {
      common := common * dom[list[i]];
    }
  }

  /** The intersection over the predecessors, with the vertex itself added. */
  method NewDom(count: nat, all: set<nat>, preds: Preds, dom: seq<set<nat>>, n: nat) returns (newDom: set<nat>)
    requires |dom| == count && all == Range(0, count) && forall k :: 0 <= k < count ==> dom[k] <= all
    requires forall i :: 0 <= i < |PredList(preds, n)| ==> PredList(preds, n)[i] < count
    ensures newDom == Equation(count, preds, dom, n)
  {
    var list := if n in preds then preds[n] else [];
    assert list == PredList(preds, n);
    newDom := Meet(all, dom, list);
    newDom := newDom + {n};
  }

  method Indices(count: nat) returns (all: set<nat>)
    ensures all == Range(0, count)
  {
    all := {};
    for i := 0 to count
      invariant all == Range(0, i)
    {
      all := all + {i};
    }
  }

  lemma SolvedNext(count: nat, preds: Preds, entry: nat, dom: seq<set<nat>>, n: nat)
    requires SolvedBelow(count, preds, entry, dom, n) && n < count
    requires n == entry || dom[n] == Equation(count, preds, dom, n)
    ensures SolvedBelow(count, preds, entry, dom, n + 1)
  {
  }

  /** What a sweep has done to `dom0` so far. */
  ghost predicate Swept(count: nat, preds: Preds, entry: nat, dom0: seq<set<nat>>, dom: seq<set<nat>>, changed: bool,
                        n: nat) {
    && Descending(count, preds, entry, dom)
    && if changed then Smaller(dom, dom0) else dom == dom0 && SolvedBelow(count, preds, entry, dom, n)
  }

  /** Apply the equation at one vertex. */
  method SweepOne(count: nat, all: set<nat>, preds: Preds, entry: nat, ghost dom0: seq<set<nat>>, dom1: seq<set<nat>>,
                  changed1: bool, n: nat)
      returns (dom: seq<set<nat>>, changed: bool)
    requires Swept(count, preds, entry, dom0, dom1, changed1, n) && all == Range(0, count) && n < count
    ensures Swept(count, preds, entry, dom0, dom, changed, n + 1)
  {
    hide Descending, Equation, SolvedBelow, PredsInRange, Smaller;
    dom, changed := dom1, changed1;
    if n != entry {
      DescendingAt(count, preds, entry, dom, n);
      var newDom := NewDom(count, all, preds, dom, n);
      if newDom != dom[n] {
        StepKeepsDescending(count, preds, entry, dom, n);
        ShrinkOne(dom0, dom, n, newDom);
        dom := dom[n := newDom];
        changed := true;
      }
    }
    if !changed {
      SolvedNext(count, preds, entry, dom, n);
    }
  }

  /** One in-place sweep over all vertices. */
  method Sweep(count: nat, all: set<nat>, preds: Preds, entry: nat, dom0: seq<set<nat>>)
      returns (dom: seq<set<nat>>, changed: bool)
    requires Descending(count, preds, entry, dom0) && all == Range(0, count)
    ensures Descending(count, preds, entry, dom)
    ensures if changed then Pairs(dom) < Pairs(dom0) else dom == dom0 && SolvedBelow(count, preds, entry, dom, count)
  {
    dom, changed := dom0, false;
    assert Swept(count, preds, entry, dom0, dom, changed, 0);
    hide Descending, SolvedBelow;
    for n := 0 to count
      invariant Swept(count, preds, entry, dom0, dom, changed, n)
    {
      hide Swept;
      dom, changed := SweepOne(count, all, preds, entry, dom0, dom, changed, n);
    }
  }

  /** `dom[n]` is the set of vertices on every path from the entry to `n`; for an unreachable `n`
      that is every vertex. */
  method ComputeDominators(count: nat, preds: Preds, entry: nat) returns (dom: seq<set<nat>>)
    requires PredsInRange(count, preds, entry)
    ensures |dom| == count
    ensures forall n: nat, v: nat :: n < count ==>
      (v in dom[n] <==> v < count && Dominates(Flow(count, preds), entry, v, n))
  {
    var all := Indices(count);
    dom := seq(count, _ => all);
    if entry < count {
      dom := dom[entry := {entry}];
    }
    InitialIsDescending(count, preds, entry, dom);
    var changed := true;
    while changed
      invariant Descending(count, preds, entry, dom)
      invariant !changed ==> SolvedBelow(count, preds, entry, dom, count)
      decreases Pairs(dom), changed
    {
      dom, changed := Sweep(count, all, preds, entry, dom);
    }
    FixpointIsDominance(count, preds, entry, dom);
  }

  lemma DescendingAt(count: nat, preds: Preds, entry: nat, dom: seq<set<nat>>, n: nat)
    requires Descending(count, preds, entry, dom) && n < count && n != entry
    ensures |dom| == count && forall k :: 0 <= k < count ==> dom[k] <= Range(0, count)
    ensures forall i :: 0 <= i < |PredList(preds, n)| ==> PredList(preds, n)[i] < count
    ensures Equation(count, preds, dom, n) <= dom[n]
  {
  }

  lemma InitialIsDescending(count: nat, preds: Preds, entry: nat, dom: seq<set<nat>>)
    requires PredsInRange(count, preds, entry) && |dom| == count
    requires forall n :: 0 <= n < count ==> dom[n] == if n == entry then {entry} else Range(0, count)
    ensures Descending(count, preds, entry, dom)
  {
    forall n: nat, v: nat | n < count && v < count && Dominates(Flow(count, preds), entry, v, n)
      ensures v in dom[n]
    {
      if n == entry {
        assert PathFromTo(Flow(count, preds), [entry], entry, entry);
      }
    }
  }

  lemma FixpointIsDominance(count: nat, preds: Preds, entry: nat, dom: seq<set<nat>>)
    requires Descending(count, preds, entry, dom)
    requires SolvedBelow(count, preds, entry, dom, count)
    ensures forall n: nat, v: nat :: n < count ==>
      (v in dom[n] <==> v < count && Dominates(Flow(count, preds), entry, v, n))
  {
    forall n: nat, v: nat, p | n < count && v in dom[n] && PathFromTo(Flow(count, preds), p, entry, n)
      ensures v in p
    {
      FixpointIsSound(count, preds, entry, dom, p, v);
    }
  }
}
