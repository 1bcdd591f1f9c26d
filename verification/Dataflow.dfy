/** Reaching definitions by iteration to the least fixpoint. */
module Dataflow {
  import opened Digraph

  datatype Facts<!D> = Facts(gen: map<nat, set<D>>, kill: map<nat, set<D>>) {
    /** A block without an entry generates nothing. */
    function Gen(b: nat): (r: set<D>)
      ensures (b in gen ==> r == gen[b]) && (b !in gen ==> r == {})
    {
      if b in gen then gen[b] else {}
    }

    function Kill(b: nat): (r: set<D>)
      ensures (b in kill ==> r == kill[b]) && (b !in kill ==> r == {})
    {
      if b in kill then kill[b] else {}
    }
  }

  ghost function Flow(blocks: seq<nat>, pred: Preds): (E: Edges)
    ensures forall a: nat, b: nat :: (a, b) in E <==> b in blocks && b in pred && a in pred[b]
  {
    set i: nat, j: nat | 0 <= i < |blocks| && blocks[i] in pred && 0 <= j < |pred[blocks[i]]| ::
        (pred[blocks[i]][j], blocks[i])
  }

  /** The caller's map lists `d` for block `b`. */
  ghost predicate Listed<D>(m: map<nat, set<D>>, b: nat, d: D) {
    b in m && d in m[b]
  }

  /** The path `p` starts where `d` is generated and meets no block that kills `d` afterwards. */
  ghost predicate Carries<D>(E: Edges, facts: Facts<D>, d: D, p: seq<nat>) {
    IsPath(E, p) && Listed(facts.gen, p[0], d) && forall i :: 0 < i < |p| ==> !Listed(facts.kill, p[i], d)
  }

  ghost predicate ReachesEnd<D>(E: Edges, facts: Facts<D>, d: D, b: nat) {
    exists p :: Carries(E, facts, d, p) && p[|p| - 1] == b
  }

  ghost predicate ReachesStart<D>(E: Edges, facts: Facts<D>, d: D, b: nat) {
    exists a :: (a, b) in E && ReachesEnd(E, facts, d, a)
  }

  /** The union of `out` over the predecessors of `b`. */
  ghost function Incoming<D(!new)>(pred: Preds, out: map<nat, set<D>>, b: nat): (S: set<D>)
    requires forall i :: 0 <= i < |PredList(pred, b)| ==> PredList(pred, b)[i] in out
    ensures forall d :: d in S <==> exists i :: 0 <= i < |PredList(pred, b)| && d in out[PredList(pred, b)[i]]
  {
    set i, d | 0 <= i < |PredList(pred, b)| && d in out[PredList(pred, b)[i]] :: d
  }

  ghost predicate Closed(blocks: seq<nat>, pred: Preds) {
    forall b: nat, i: nat :: b in blocks && b in pred && i < |pred[b]| ==> pred[b][i] in blocks
  }

  ghost function Equation<D(!new)>(pred: Preds, facts: Facts<D>, out: map<nat, set<D>>, b: nat): set<D>
    requires forall i :: 0 <= i < |PredList(pred, b)| ==> PredList(pred, b)[i] in out
  {
    facts.Gen(b) + (Incoming(pred, out, b) - facts.Kill(b))
  }

  /** Values only ever grow, and everything recorded really reaches. */
  ghost predicate Ascending<D(!new)>(blocks: seq<nat>, pred: Preds, facts: Facts<D>, out: map<nat, set<D>>) {
    && Closed(blocks, pred)
    && (forall b: nat :: b in out <==> b in blocks)
    && (forall b :: b in blocks ==> out[b] <= Equation(pred, facts, out, b))
    && forall b, d :: b in blocks && d in out[b] ==> ReachesEnd(Flow(blocks, pred), facts, d, b)
  }

  lemma CarryOn<D>(E: Edges, facts: Facts<D>, d: D, a: nat, b: nat)
    requires ReachesEnd(E, facts, d, a) && (a, b) in E && d !in facts.Kill(b)
    ensures ReachesEnd(E, facts, d, b)
  {
    var p :| Carries(E, facts, d, p) && p[|p| - 1] == a;
    var q := p + [b];
    assert Carries(E, facts, d, q) && q[|q| - 1] == b;
  }

  lemma CarryStart<D>(E: Edges, facts: Facts<D>, d: D, b: nat)
    requires d in facts.Gen(b)
    ensures ReachesEnd(E, facts, d, b)
  {
    assert Carries(E, facts, d, [b]);
  }

  lemma EquationReaches<D(!new)>(blocks: seq<nat>, pred: Preds, facts: Facts<D>, out: map<nat, set<D>>, b: nat, d: D)
    requires Ascending(blocks, pred, facts, out) && b in blocks && d in Equation(pred, facts, out, b)
    ensures ReachesEnd(Flow(blocks, pred), facts, d, b)
  {
    var E := Flow(blocks, pred);
    if d in facts.Gen(b) {
      CarryStart(E, facts, d, b);
    } else {
      var i :| 0 <= i < |PredList(pred, b)| && d in out[PredList(pred, b)[i]];
      CarryOn(E, facts, d, PredList(pred, b)[i], b);
    }
  }

  lemma EquationGrows<D(!new)>(blocks: seq<nat>, pred: Preds, facts: Facts<D>, out: map<nat, set<D>>, m: nat,
                               S: set<D>, b: nat)
    requires Closed(blocks, pred) && (forall b: nat :: b in out <==> b in blocks)
    requires m in blocks && b in blocks && out[m] <= S
    ensures Equation(pred, facts, out, b) <= Equation(pred, facts, out[m := S], b)
  {
  }

  lemma StepKeepsAscending<D(!new)>(blocks: seq<nat>, pred: Preds, facts: Facts<D>, out: map<nat, set<D>>, b: nat)
    requires Ascending(blocks, pred, facts, out) && b in blocks
    ensures Ascending(blocks, pred, facts, out[b := Equation(pred, facts, out, b)])
  {
    var S := Equation(pred, facts, out, b);
    var out' := out[b := S];
    forall k | k in blocks
      ensures out'[k] <= Equation(pred, facts, out', k)
    {
      EquationGrows(blocks, pred, facts, out, b, S, k);
    }
    forall k, d | k in blocks && d in out'[k]
      ensures ReachesEnd(Flow(blocks, pred), facts, d, k)
    {
      if k == b {
        EquationReaches(blocks, pred, facts, out, b, d);
      }
    }
  }

  /** At a fixpoint every definition carried along a path is recorded at its end. */
  lemma {:induction false} FixpointIsComplete<D(!new)>(blocks: seq<nat>, pred: Preds, facts: Facts<D>,
                                                       out: map<nat, set<D>>,
                                                       d: D, p: seq<nat>)
    requires Ascending(blocks, pred, facts, out)
    requires forall b :: b in blocks ==> out[b] == Equation(pred, facts, out, b)
    requires Carries(Flow(blocks, pred), facts, d, p) && p[|p| - 1] in blocks
    ensures d in out[p[|p| - 1]]
    decreases |p|
  {
    var E := Flow(blocks, pred);
    if |p| > 1 {
      var q := p[..|p| - 1];
      var a, b := p[|p| - 2], p[|p| - 1];
      assert (p[|p| - 2], p[|p| - 2 + 1]) in E;
      SubPath(E, p, 0, |p| - 2);
      assert p[0..|p| - 2 + 1] == q;
      var i :| 0 <= i < |PredList(pred, b)| && PredList(pred, b)[i] == a;
      FixpointIsComplete(blocks, pred, facts, out, d, q);
    }
  }

  lemma FixpointIsReaching<D(!new)>(blocks: seq<nat>, pred: Preds, facts: Facts<D>, out: map<nat, set<D>>)
    requires Ascending(blocks, pred, facts, out)
    requires forall b :: b in blocks ==> out[b] == Equation(pred, facts, out, b)
    ensures forall b, d :: b in blocks ==> (d in out[b] <==> ReachesEnd(Flow(blocks, pred), facts, d, b))
    ensures forall b, d :: b in blocks ==> (d in Incoming(pred, out, b) <==>
        ReachesStart(Flow(blocks, pred), facts, d, b))
  {
    var E := Flow(blocks, pred);
    forall b, d | b in blocks
      ensures d in out[b] <==> ReachesEnd(E, facts, d, b)
    {
      if ReachesEnd(E, facts, d, b) {
        var p :| Carries(E, facts, d, p) && p[|p| - 1] == b;
        FixpointIsComplete(blocks, pred, facts, out, d, p);
      }
    }
    forall b, d | b in blocks
      ensures d in Incoming(pred, out, b) <==> ReachesStart(E, facts, d, b)
    {
      if d in Incoming(pred, out, b) {
        var i :| 0 <= i < |PredList(pred, b)| && d in out[PredList(pred, b)[i]];
        assert (PredList(pred, b)[i], b) in E;
      }
      if ReachesStart(E, facts, d, b) {
        var a :| (a, b) in E && ReachesEnd(E, facts, d, a);
        var i :| 0 <= i < |PredList(pred, b)| && PredList(pred, b)[i] == a;
        assert d in out[a];
      }
    }
  }

  // ------------------------------------------------------------------------- the loop

  ghost function Everything<D>(blocks: seq<nat>, facts: Facts<D>): set<(nat, D)> {
    set i, j, d | 0 <= i < |blocks| && 0 <= j < |blocks| && d in facts.Gen(blocks[j]) :: (blocks[i], d)
  }

  ghost function Missing<D>(blocks: seq<nat>, facts: Facts<D>, out: map<nat, set<D>>): set<(nat, D)> {
    set e | e in Everything(blocks, facts) && (e.0 !in out || e.1 !in out[e.0])
  }

  lemma ReachesFromBlock<D>(blocks: seq<nat>, pred: Preds, facts: Facts<D>, d: D, b: nat)
    requires Closed(blocks, pred) && b in blocks && ReachesEnd(Flow(blocks, pred), facts, d, b)
    ensures (b, d) in Everything(blocks, facts)
  {
    var E := Flow(blocks, pred);
    var p :| Carries(E, facts, d, p) && p[|p| - 1] == b;
    assert p[0] in blocks by {
      if |p| > 1 {
        assert (p[0], p[0 + 1]) in E;
      }
    }
    var i :| 0 <= i < |blocks| && blocks[i] == b;
    var j :| 0 <= j < |blocks| && blocks[j] == p[0];
  }

  lemma MissingShrinks<D(!new)>(blocks: seq<nat>, pred: Preds, facts: Facts<D>, out: map<nat, set<D>>, b: nat)
    requires Ascending(blocks, pred, facts, out) && b in blocks && out[b] != Equation(pred, facts, out, b)
    ensures Missing(blocks, facts, out[b := Equation(pred, facts, out, b)]) < Missing(blocks, facts, out)
  {
    var S := Equation(pred, facts, out, b);
    assert out[b] <= S;
    var d :| d in S && d !in out[b];
    EquationReaches(blocks, pred, facts, out, b, d);
    ReachesFromBlock(blocks, pred, facts, d, b);
    assert (b, d) in Missing(blocks, facts, out) && (b, d) !in Missing(blocks, facts, out[b := S]);
  }

  /** The definitions that reach the start of `b` according to `out`. */
  method NewIn<D(!new, ==)>(pred: Preds, out: map<nat, set<D>>, b: nat) returns (newIn: set<D>)
    requires forall i :: 0 <= i < |PredList(pred, b)| ==> PredList(pred, b)[i] in out
    ensures newIn == Incoming(pred, out, b)
  {
    var ps := if b in pred then pred[b] else [];
    assert ps == PredList(pred, b);
    newIn := {};
    for i := 0 to |ps|
      invariant forall d :: d in newIn <==> exists j :: 0 <= j < i && d in out[ps[j]]
    {
      newIn := newIn + out[ps[i]];
    }
  }

  /** The equations hold, and `ins` is up to date, at the first `k` blocks. */
  ghost predicate SolvedBelow<D(!new)>(blocks: seq<nat>, pred: Preds, facts: Facts<D>, ins: map<nat, set<D>>,
                                       out: map<nat, set<D>>, k: nat) {
    && Closed(blocks, pred) && k <= |blocks| && (forall b: nat :: b in out <==> b in blocks)
    && forall i :: 0 <= i < k ==>
         && Ready(blocks, pred, out, i)
         && blocks[i] in ins && ins[blocks[i]] == Incoming(pred, out, blocks[i])
         && out[blocks[i]] == Equation(pred, facts, out, blocks[i])
  }

  ghost predicate Ready<D>(blocks: seq<nat>, pred: Preds, out: map<nat, set<D>>, i: nat)
    requires i < |blocks|
  {
    blocks[i] in out && forall j :: 0 <= j < |PredList(pred, blocks[i])| ==> PredList(pred, blocks[i])[j] in out
  }

  lemma SolvedNext<D(!new)>(blocks: seq<nat>, pred: Preds, facts: Facts<D>, ins: map<nat, set<D>>,
                            out: map<nat, set<D>>, k: nat)
    requires SolvedBelow(blocks, pred, facts, ins, out, k) && k < |blocks| && Ready(blocks, pred, out, k)
    requires out[blocks[k]] == Equation(pred, facts, out, blocks[k])
    ensures SolvedBelow(blocks, pred, facts, ins[blocks[k] := Incoming(pred, out, blocks[k])], out, k + 1)
  {
  }

  /** One in-place sweep over the blocks. */
  method Sweep<D(!new, ==)>(blocks: seq<nat>, pred: Preds, facts: Facts<D>, ins0: map<nat, set<D>>,
                            out0: map<nat, set<D>>)
      returns (ins: map<nat, set<D>>, out: map<nat, set<D>>, changed: bool)
    requires Ascending(blocks, pred, facts, out0) && forall b :: b in ins0 ==> b in blocks
    ensures Ascending(blocks, pred, facts, out) && forall b :: b in ins ==> b in blocks
    ensures if changed then Missing(blocks, facts, out) < Missing(blocks, facts, out0)
            else out == out0 && SolvedBelow(blocks, pred, facts, ins, out, |blocks|)
  {
    assert SolvedBelow(blocks, pred, facts, ins0, out0, 0);
    hide Ascending, SolvedBelow, Missing;
    ins, out, changed := ins0, out0, false;
    for i := 0 to |blocks|
      invariant Ascending(blocks, pred, facts, out) && forall b :: b in ins ==> b in blocks
      invariant if changed then Missing(blocks, facts, out) < Missing(blocks, facts, out0)
                else out == out0 && SolvedBelow(blocks, pred, facts, ins, out, i)
    {
      var b := blocks[i];
      var newIn := NewIn(pred, out, b);
      var kill := if b in facts.kill then facts.kill[b] else {};
      var gen := if b in facts.gen then facts.gen[b] else {};
      var newOut := gen + (newIn - kill);
      if newOut != out[b] {
        StepKeepsAscending(blocks, pred, facts, out, b);
        MissingShrinks(blocks, pred, facts, out, b);
        out := out[b := newOut];
        changed := true;
      } else if !changed {
        SolvedNext(blocks, pred, facts, ins, out, i);
      }
      ins := ins[b := newIn];
    }
  }

  method Initial<D(!new, ==)>(blocks: seq<nat>, facts: Facts<D>) returns (ins: map<nat, set<D>>, out: map<nat, set<D>>)
    ensures forall b: nat :: (b in out <==> b in blocks) && (b in ins <==> b in blocks)
    ensures forall b :: b in out ==> out[b] == facts.Gen(b)
  {
    ins, out := map[], map[];
    for i := 0 to |blocks|
      invariant forall b: nat :: (b in out <==> b in blocks[..i]) && (b in ins <==> b in blocks[..i])
      invariant forall b :: b in out ==> out[b] == facts.Gen(b)
    {
      assert blocks[..i + 1] == blocks[..i] + [blocks[i]];
      ins := ins[blocks[i] := {}];
      out := out[blocks[i] := facts.Gen(blocks[i])];
    }
    assert blocks[..|blocks|] == blocks;
  }

  /** `out[b]` holds exactly the definitions that some path carries to the end of `b`, and
      `ins[b]` those that a predecessor hands to it. */
  method ReachingDefinitions<D(!new, ==)>(blocks: seq<nat>, pred: Preds, facts: Facts<D>)
      returns (ins: map<nat, set<D>>, out: map<nat, set<D>>)
    requires Closed(blocks, pred)
    ensures forall b: nat :: (b in out <==> b in blocks) && (b in ins <==> b in blocks)
    ensures forall b, d :: b in blocks ==> (d in out[b] <==> ReachesEnd(Flow(blocks, pred), facts, d, b))
    ensures forall b, d :: b in blocks ==> (d in ins[b] <==> ReachesStart(Flow(blocks, pred), facts, d, b))
  {
    ins, out := Initial(blocks, facts);
    InitialIsAscending(blocks, pred, facts, out);
    hide Ascending, SolvedBelow, Missing, ReachesEnd, ReachesStart, Closed;
    var changed := true;
    while changed
      invariant Ascending(blocks, pred, facts, out) && forall b :: b in ins ==> b in blocks
      invariant !changed ==> SolvedBelow(blocks, pred, facts, ins, out, |blocks|)
      decreases Missing(blocks, facts, out), changed
    {
      ins, out, changed := Sweep(blocks, pred, facts, ins, out);
    }
    Finish(blocks, pred, facts, ins, out);
  }

  lemma InitialIsAscending<D(!new)>(blocks: seq<nat>, pred: Preds, facts: Facts<D>, out: map<nat, set<D>>)
    requires Closed(blocks, pred) && forall b: nat :: b in out <==> b in blocks
    requires forall b :: b in out ==> out[b] == facts.Gen(b)
    ensures Ascending(blocks, pred, facts, out)
  {
    forall b, d | b in blocks && d in out[b]
      ensures ReachesEnd(Flow(blocks, pred), facts, d, b)
    {
      CarryStart(Flow(blocks, pred), facts, d, b);
    }
  }

  lemma Finish<D(!new)>(blocks: seq<nat>, pred: Preds, facts: Facts<D>, ins: map<nat, set<D>>, out: map<nat, set<D>>)
    requires Ascending(blocks, pred, facts, out) && SolvedBelow(blocks, pred, facts, ins, out, |blocks|)
    ensures forall b: nat :: (b in out <==> b in blocks) && (b in blocks ==> b in ins)
    ensures forall b, d :: b in blocks ==> (d in out[b] <==> ReachesEnd(Flow(blocks, pred), facts, d, b))
    ensures forall b, d :: b in blocks ==> (d in ins[b] <==> ReachesStart(Flow(blocks, pred), facts, d, b))
  {
    forall b | b in blocks
      ensures b in ins && out[b] == Equation(pred, facts, out, b) && ins[b] == Incoming(pred, out, b)
    {
      var i :| 0 <= i < |blocks| && blocks[i] == b;
      assert Ready(blocks, pred, out, i);
    }
    FixpointIsReaching(blocks, pred, facts, out);
  }
}
