/** AC-3 arc consistency: a queue of arcs shrinks the domains to the greatest consistent ones. */
module Ac3 {
  import opened Sums

  type Domains = seq<seq<int>>
  type Constraints = map<(nat, nat), (int, int) -> bool>

  ghost predicate ArcsInRange(C: Constraints, n: nat) {
    forall a :: a in C ==> a.0 < n && a.1 < n
  }

  /** `z` supports `x` along (i, j) and is itself supported along (j, i) by `x` or by `a`. */
  ghost predicate Serves(C: Constraints, i: nat, j: nat, x: int, a: int, z: int)
    requires (i, j) in C && (j, i) in C
  {
    C[(i, j)](x, z) && (C[(j, i)](z, x) || C[(j, i)](z, a))
  }

  /** If `x` has the support `y`, `a` has the support `b`, and `y'` is kept for the sake of `a`, then
      one of the three that serves `x` is kept as well. */
  ghost predicate Rescued(C: Constraints, i: nat, j: nat, x: int, a: int, y: int, y': int, b: int)
    requires (i, j) in C && (j, i) in C
  {
    C[(i, j)](x, y) && C[(i, j)](a, b) && C[(j, i)](y', a) ==>
      Serves(C, i, j, x, a, y) || Serves(C, i, j, x, a, y') || Serves(C, i, j, x, a, b)
  }

  /** When it does arc (i, j) no harm that revising the opposite arc does not queue it again. For an arc
      from a variable to itself, which is not queued again either: one of two related values supports
      itself, or they support each other. */
  ghost predicate Skippable(C: Constraints, doms: Domains, i: nat, j: nat)
    requires (i, j) in C && i < |doms| && j < |doms|
  {
    (j, i) in C ==>
      if i == j then
        forall x: int, y: int :: x in doms[i] && y in doms[i] && C[(i, i)](x, y) ==>
          C[(i, i)](y, x) || C[(i, i)](x, x) || C[(i, i)](y, y)
      else
        forall x: int, a: int, y: int, y': int, b: int ::
          x in doms[i] && a in doms[i] && y in doms[j] && y' in doms[j] && b in doms[j] ==>
            Rescued(C, i, j, x, a, y, y', b)
  }

  ghost predicate AllSkippable(C: Constraints, doms: Domains) {
    forall i: nat, j: nat :: (i, j) in C ==> i < |doms| && j < |doms| && Skippable(C, doms, i, j)
  }

  /** Where two opposite arcs both exist, each is the transpose of the other. */
  ghost predicate Transposed(C: Constraints, doms: Domains) {
    forall i: nat, j: nat, x: int, y: int ::
      (i, j) in C && (j, i) in C && i < |doms| && j < |doms| && x in doms[i] && y in doms[j] ==>
        C[(i, j)](x, y) == C[(j, i)](y, x)
  }

  lemma TransposedIsSkippable(C: Constraints, doms: Domains)
    requires ArcsInRange(C, |doms|) && Transposed(C, doms)
    ensures AllSkippable(C, doms)
  {
    forall i: nat, j: nat | (i, j) in C
      ensures Skippable(C, doms, i, j)
    {
      if (j, i) in C && i != j {
        forall x, a, y, y', b | x in doms[i] && a in doms[i] && y in doms[j] && y' in doms[j] && b in doms[j]
          ensures Rescued(C, i, j, x, a, y, y', b)
        {
          assert C[(i, j)](x, y) == C[(j, i)](y, x);
        }
      }
    }
  }

  ghost predicate Supported(C: Constraints, doms: Domains, i: nat, j: nat, x: int)
    requires (i, j) in C && j < |doms|
  {
    exists y :: y in doms[j] && C[(i, j)](x, y)
  }

  ghost predicate ConsistentArc(C: Constraints, doms: Domains, i: nat, j: nat)
    requires (i, j) in C && i < |doms| && j < |doms|
  {
    forall x :: x in doms[i] ==> Supported(C, doms, i, j, x)
  }

  ghost predicate ArcConsistent(C: Constraints, doms: Domains) {
    forall i: nat, j: nat :: (i, j) in C ==> i < |doms| && j < |doms| && ConsistentArc(C, doms, i, j)
  }

  ghost predicate Within(a: Domains, b: Domains) {
    |a| == |b| && forall i, x :: 0 <= i < |a| && x in a[i] ==> x in b[i]
  }

  /** The greatest arc-consistent domains inside `doms0`. */
  ghost predicate Greatest(C: Constraints, doms0: Domains, doms: Domains) {
    && Within(doms, doms0) && ArcConsistent(C, doms)
    && forall s :: Within(s, doms0) && ArcConsistent(C, s) ==> Within(s, doms)
  }

  /** An assignment that satisfies every constraint. */
  ghost predicate Solution(C: Constraints, doms: Domains, a: seq<int>) {
    && |a| == |doms| && (forall i :: 0 <= i < |a| ==> a[i] in doms[i])
    && forall i: nat, j: nat :: (i, j) in C ==> i < |a| && j < |a| && C[(i, j)](a[i], a[j])
  }

  /** No value of a solution is ever lost. */
  lemma SolutionSurvives(C: Constraints, doms0: Domains, doms: Domains, a: seq<int>)
    requires |doms| == |doms0| && Solution(C, doms0, a)
    requires forall s :: Within(s, doms0) && ArcConsistent(C, s) ==> Within(s, doms)
    ensures Solution(C, doms, a)
  {
    SolutionIsConsistent(C, doms0, a);
    var s := Singletons(a);
    forall i | 0 <= i < |a|
      ensures a[i] in doms[i]
    {
      var x := a[i];
      assert Within(s, doms) && x in s[i];
    }
  }

  ghost function Singletons(a: seq<int>): (s: Domains)
    ensures |s| == |a| && forall i :: 0 <= i < |a| ==> s[i] == [a[i]]
  {
    seq(|a|, i requires 0 <= i < |a| => [a[i]])
  }

  lemma SolutionIsConsistent(C: Constraints, doms0: Domains, a: seq<int>)
    requires Solution(C, doms0, a)
    ensures Within(Singletons(a), doms0) && ArcConsistent(C, Singletons(a))
  {
    var s := Singletons(a);
    forall i: nat, j: nat | (i, j) in C
      ensures i < |s| && j < |s| && ConsistentArc(C, s, i, j)
    {
      forall x | x in s[i]
        ensures Supported(C, s, i, j, x)
      {
        var y := a[j];
        assert x == a[i] && y in s[j] && C[(i, j)](x, y);
      }
    }
  }

  // ------------------------------------------------------------------------- revising

  /** `kept` is `dom` without the values that have no support. */
  ghost function Keep(C: Constraints, doms: Domains, i: nat, j: nat, dom: seq<int>): (kept: seq<int>)
    requires (i, j) in C && j < |doms|
    ensures forall x :: x in kept <==> x in dom && Supported(C, doms, i, j, x)
    ensures |kept| <= |dom| && (|kept| == |dom| ==> kept == dom)
  {
    if dom == [] then []
    else
      var rest := Keep(C, doms, i, j, dom[..|dom| - 1]);
      var x := dom[|dom| - 1];
      assert dom == dom[..|dom| - 1] + [x];
      if Supported(C, doms, i, j, x) then rest + [x] else rest
  }

  lemma KeepLast(C: Constraints, doms: Domains, i: nat, j: nat, xs: seq<int>, x: int)
    requires (i, j) in C && j < |doms|
    ensures Keep(C, doms, i, j, xs + [x]) ==
        Keep(C, doms, i, j, xs) + if Supported(C, doms, i, j, x) then [x] else []
  {
    assert (xs + [x])[..|xs|] == xs;
  }

  lemma KeepNone(C: Constraints, doms: Domains, i: nat, j: nat)
    requires (i, j) in C && j < |doms|
    ensures Keep(C, doms, i, j, []) == []
  {
  }

  /** Each value is judged on its own: those with support stay, in their places and as often as they were there. */
  lemma {:induction false} KeepIsFilter(C: Constraints, doms: Domains, i: nat, j: nat, xs: seq<int>, x: int,
                                        ys: seq<int>)
    requires (i, j) in C && j < |doms|
    ensures Keep(C, doms, i, j, xs + [x] + ys) ==
        Keep(C, doms, i, j, xs) + (if Supported(C, doms, i, j, x) then [x] else []) + Keep(C, doms, i, j, ys)
  {
    hide Keep;
    if ys == [] {
      assert xs + [x] + ys == xs + [x];
      KeepLast(C, doms, i, j, xs, x);
      KeepNone(C, doms, i, j);
    } else {
      var init, last := ys[..|ys| - 1], ys[|ys| - 1];
      KeepIsFilter(C, doms, i, j, xs, x, init);
      assert ys == init + [last] && xs + [x] + ys == (xs + [x] + init) + [last];
      KeepLast(C, doms, i, j, xs + [x] + init, last);
      KeepLast(C, doms, i, j, init, last);
    }
  }

  /** The domains after revising arc (i, j). */
  ghost function Reduced(C: Constraints, doms: Domains, i: nat, j: nat): (r: Domains)
    requires (i, j) in C && i < |doms| && j < |doms|
    ensures |r| == |doms|
  {
    doms[i := Keep(C, doms, i, j, doms[i])]
  }

  /** What must hold between two steps: skippable arcs that are not queued are consistent. */
  ghost predicate Pending(C: Constraints, doms0: Domains, doms: Domains, queue: seq<(nat, nat)>) {
    && |doms| == |doms0| && ArcsInRange(C, |doms|)
    && (forall a :: a in queue ==> a in C)
    && forall i: nat, j: nat :: (i, j) in C && (i, j) !in queue ==> SettledArc(C, doms0, doms, i, j)
  }

  ghost predicate SettledArc(C: Constraints, doms0: Domains, doms: Domains, i: nat, j: nat)
    requires (i, j) in C
  {
    && i < |doms| == |doms0| && j < |doms|
    && (Skippable(C, doms0, i, j) ==> ConsistentArc(C, doms, i, j))
  }

  lemma ReviseKeepsGreatest(C: Constraints, doms: Domains, i: nat, j: nat, s: Domains)
    requires (i, j) in C && i < |doms| && j < |doms| && Within(s, doms) && ArcConsistent(C, s)
    ensures Within(s, Reduced(C, doms, i, j))
  {
    forall x | x in s[i]
      ensures Supported(C, doms, i, j, x)
    {
      assert ConsistentArc(C, s, i, j) && Supported(C, s, i, j, x);
    }
  }

  /** In the revised domain some value is left that serves `x`. */
  lemma KeptServes(C: Constraints, doms0: Domains, doms: Domains, i: nat, j: nat, x: int) returns (z: int)
    requires Within(doms, doms0) && i < |doms| && j < |doms| && i != j && (i, j) in C && (j, i) in C
    requires Skippable(C, doms0, i, j) && ConsistentArc(C, doms, i, j)
    requires Reduced(C, doms, j, i)[j] != [] && x in doms[i]
    ensures z in Reduced(C, doms, j, i)[j] && C[(i, j)](x, z)
  {
    var kept := Reduced(C, doms, j, i)[j];
    var y' := kept[0];
    assert y' in kept && Supported(C, doms, j, i, y') && Supported(C, doms, i, j, x);
    var y :| y in doms[j] && C[(i, j)](x, y);
    var a :| a in doms[i] && C[(j, i)](y', a);
    assert Supported(C, doms, i, j, a);
    var b :| b in doms[j] && C[(i, j)](a, b);
    assert x in doms0[i] && a in doms0[i] && y in doms0[j] && y' in doms0[j] && b in doms0[j];
    assert Rescued(C, i, j, x, a, y, y', b);
    z := if Serves(C, i, j, x, a, y) then y else if Serves(C, i, j, x, a, y') then y' else b;
    assert Supported(C, doms, j, i, z);
  }

  lemma SelfArcServes(C: Constraints, doms0: Domains, doms: Domains, i: nat, x: int) returns (z: int)
    requires Within(doms, doms0) && i < |doms| && (i, i) in C && Skippable(C, doms0, i, i)
    requires x in Reduced(C, doms, i, i)[i]
    ensures z in Reduced(C, doms, i, i)[i] && C[(i, i)](x, z)
  {
    assert x in doms[i] && Supported(C, doms, i, i, x);
    z :| z in doms[i] && C[(i, i)](x, z);
    assert x in doms0[i] && z in doms0[i];
    if !C[(i, i)](z, x) && !C[(i, i)](z, z) {
      z := x;
    }
    assert Supported(C, doms, i, i, z);
  }

  /** After a revision that leaves something, an arc is consistent if it was and is not queued again. */
  lemma ReviseKeepsArc(C: Constraints, doms0: Domains, doms: Domains, i: nat, j: nat, k: nat, l: nat)
    requires Within(doms, doms0) && ArcsInRange(C, |doms|) && (i, j) in C && (k, l) in C && Skippable(C, doms0, k, l)
    requires (k, l) == (i, j) || (ConsistentArc(C, doms, k, l) && (l != i || k == j))
    requires Reduced(C, doms, i, j)[i] != []
    ensures ConsistentArc(C, Reduced(C, doms, i, j), k, l)
  {
    var doms' := Reduced(C, doms, i, j);
    forall x | x in doms'[k]
      ensures Supported(C, doms', k, l, x)
    {
      assert x in doms[k] && Supported(C, doms, k, l, x);
      var y :| y in doms[l] && C[(k, l)](x, y);
      if l == i && k == l {
        y := SelfArcServes(C, doms0, doms, k, x);
      } else if l == i {
        y := KeptServes(C, doms0, doms, k, l, x);
      }
      assert y in doms'[l];
    }
  }

  lemma ReviseKeepsPending(C: Constraints, doms0: Domains, doms: Domains, i: nat, j: nat, queue: seq<(nat, nat)>,
                           again: seq<(nat, nat)>)
    requires Within(doms, doms0) && (i, j) in C && Pending(C, doms0, doms, [(i, j)] + queue)
    requires i < |doms| && j < |doms| && Reduced(C, doms, i, j)[i] != []
    requires forall a :: a in again <==> a in C && a.1 == i && a.0 != j
    ensures Pending(C, doms0, Reduced(C, doms, i, j), queue + again)
  {
    var doms' := Reduced(C, doms, i, j);
    forall k: nat, l: nat | (k, l) in C && (k, l) !in queue + again
      ensures SettledArc(C, doms0, doms', k, l)
    {
      assert (k, l) == (i, j) || (k, l) !in [(i, j)] + queue;
      assert (k, l) == (i, j) || SettledArc(C, doms0, doms, k, l);
      if Skippable(C, doms0, k, l) {
        ReviseKeepsArc(C, doms0, doms, i, j, k, l);
      }
    }
  }

  // ------------------------------------------------------------------------- runs

  datatype Config = Config(doms: Domains, queue: seq<(nat, nat)>)

  /** `again` lists the arcs queued again after a revision of (i, j), in some order. */
  ghost predicate Requeued(C: Constraints, i: nat, j: nat, again: seq<(nat, nat)>) {
    forall a :: a in again <==> a in C && a.1 == i && a.0 != j
  }

  /** One turn of the loop that does not end the search. */
  ghost predicate Advances(C: Constraints, s: Config, t: Config) {
    && s.queue != [] && s.queue[0] in C && s.queue[0].0 < |s.doms| && s.queue[0].1 < |s.doms|
    && var (i, j) := s.queue[0];
       var reduced := Reduced(C, s.doms, i, j);
       if |reduced[i]| == |s.doms[i]| then t == Config(s.doms, s.queue[1..])
       else
         && reduced[i] != [] && t.doms == reduced
         && exists again :: Requeued(C, i, j, again) && t.queue == s.queue[1..] + again
  }

  ghost predicate IsRun(C: Constraints, run: seq<Config>) {
    run != [] && forall k :: 0 <= k < |run| - 1 ==> Advances(C, run[k], run[k + 1])
  }

  /** Some order of the arcs makes the search answer yes with the domains `doms`. */
  ghost predicate AnswersYes(C: Constraints, doms0: Domains, doms: Domains) {
    exists run: seq<Config> :: IsRun(C, run) && RunsFrom(C, run, doms0) && run[|run| - 1] == Config(doms, [])
  }

  ghost predicate RunsFrom(C: Constraints, run: seq<Config>, doms0: Domains) {
    run != [] && run[0].doms == doms0 && forall a :: a in run[0].queue <==> a in C
  }

  lemma TurnUnrevised(C: Constraints, doms: Domains, i: nat, j: nat, rest: seq<(nat, nat)>)
    requires (i, j) in C && i < |doms| && j < |doms| && Keep(C, doms, i, j, doms[i]) == doms[i]
    ensures Advances(C, Config(doms, [(i, j)] + rest), Config(doms, rest))
  {
    assert ([(i, j)] + rest)[1..] == rest;
  }

  lemma TurnRevised(C: Constraints, doms: Domains, i: nat, j: nat, rest: seq<(nat, nat)>, again: seq<(nat, nat)>)
    requires (i, j) in C && i < |doms| && j < |doms| && 0 < |Reduced(C, doms, i, j)[i]| < |doms[i]|
    requires Requeued(C, i, j, again)
    ensures Advances(C, Config(doms, [(i, j)] + rest), Config(Reduced(C, doms, i, j), rest + again))
  {
    assert ([(i, j)] + rest)[1..] == rest;
  }

  lemma ExtendedRun(C: Constraints, run: seq<Config>, doms0: Domains, t: Config) returns (longer: seq<Config>)
    requires IsRun(C, run) && RunsFrom(C, run, doms0) && Advances(C, run[|run| - 1], t)
    ensures longer == run + [t] && IsRun(C, longer) && RunsFrom(C, longer, doms0)
  {
    longer := run + [t];
    forall k | 0 <= k < |longer| - 1
      ensures Advances(C, longer[k], longer[k + 1])
    {
      if k < |run| - 1 {
        assert Advances(C, run[k], run[k + 1]);
      }
    }
  }

  lemma AdvanceKeepsPending(C: Constraints, doms0: Domains, s: Config, t: Config)
    requires Within(s.doms, doms0) && Pending(C, doms0, s.doms, s.queue) && Advances(C, s, t)
    ensures Within(t.doms, doms0) && Pending(C, doms0, t.doms, t.queue)
  {
    var (i, j) := s.queue[0];
    var rest := s.queue[1..];
    assert s.queue == [(i, j)] + rest;
    if |Reduced(C, s.doms, i, j)[i]| == |s.doms[i]| {
      UnrevisedIsConsistent(C, doms0, s.doms, i, j, rest);
    } else {
      var again :| Requeued(C, i, j, again) && t.queue == rest + again;
      ReviseKeepsPending(C, doms0, s.doms, i, j, rest, again);
    }
  }

  lemma {:induction false} RunKeepsPending(C: Constraints, doms0: Domains, run: seq<Config>, k: nat)
    requires IsRun(C, run) && k < |run| && Within(run[0].doms, doms0) && Pending(C, doms0, run[0].doms, run[0].queue)
    ensures Within(run[k].doms, doms0) && Pending(C, doms0, run[k].doms, run[k].queue)
  {
    if k == 0 {
    } else {
      RunKeepsPending(C, doms0, run, k - 1);
      assert Advances(C, run[k - 1], run[k - 1 + 1]);
      AdvanceKeepsPending(C, doms0, run[k - 1], run[k]);
    }
  }

  /** However a run from inside `doms0` goes, a yes leaves every skippable arc consistent. */
  lemma YesSettles(C: Constraints, doms0: Domains, start: Domains, doms: Domains)
    requires ArcsInRange(C, |doms0|) && Within(start, doms0) && AnswersYes(C, start, doms)
    ensures Settled(C, doms0, doms)
  {
    var run :| IsRun(C, run) && RunsFrom(C, run, start) && run[|run| - 1] == Config(doms, []);
    RunKeepsPending(C, doms0, run, |run| - 1);
  }

  // ------------------------------------------------- when skipping the opposite arc does harm

  /** All runs on the arcs (i, j) and (j, i), from all domains inside `doms0`: a yes leaves (i, j) consistent. */
  ghost predicate SkipIsHarmless(C: Constraints, doms0: Domains, i: nat, j: nat)
    requires (i, j) in C && i < |doms0| && j < |doms0|
  {
    forall start: Domains, doms: Domains :: Within(start, doms0) && AnswersYes(C, start, doms) ==>
      |doms| == |doms0| && ConsistentArc(C, doms, i, j)
  }

  /** On two opposite arcs, every yes leaves (i, j) consistent exactly when (i, j) is skippable. */
  lemma SkippableIsExact(C: Constraints, doms0: Domains, i: nat, j: nat)
    requires i < |doms0| && j < |doms0| && C.Keys == {(i, j), (j, i)}
    ensures Skippable(C, doms0, i, j) <==> SkipIsHarmless(C, doms0, i, j)
  {
    if Skippable(C, doms0, i, j) {
      forall start: Domains, doms: Domains | Within(start, doms0) && AnswersYes(C, start, doms)
        ensures |doms| == |doms0| && ConsistentArc(C, doms, i, j)
      {
        YesSettles(C, doms0, start, doms);
        assert SettledArc(C, doms0, doms, i, j);
      }
    } else if i == j {
      var x, y :| x in doms0[i] && y in doms0[i] && C[(i, i)](x, y) &&
        !C[(i, i)](y, x) && !C[(i, i)](x, x) && !C[(i, i)](y, y);
      SelfArcHarmed(C, doms0, i, x, y);
    } else {
      var x, a, y, y', b :| x in doms0[i] && a in doms0[i] && y in doms0[j] && y' in doms0[j] && b in doms0[j] &&
        !Rescued(C, i, j, x, a, y, y', b);
      OppositeArcHarms(C, doms0, i, j, x, a, y, y', b);
    }
  }

  lemma SelfArcHarmed(C: Constraints, doms0: Domains, i: nat, x: int, y: int)
    requires i < |doms0| && C.Keys == {(i, i)} && x in doms0[i] && y in doms0[i]
    requires C[(i, i)](x, y) && !C[(i, i)](y, x) && !C[(i, i)](x, x) && !C[(i, i)](y, y)
    ensures !SkipIsHarmless(C, doms0, i, i)
  {
    var start := doms0[i := [x, y]];
    var after := Reduced(C, start, i, i);
    assert start[i][0] == x && start[i][1] == y;
    assert x in start[i] && y in start[i] && Supported(C, start, i, i, x) && !Supported(C, start, i, i, y);
    assert x in after[i] && y !in after[i];
    assert !Supported(C, after, i, i, x) && !ConsistentArc(C, after, i, i);
    hide ConsistentArc, Supported;
    var s, t := Config(start, [(i, i)]), Config(after, []);
    assert Requeued(C, i, i, []) && t.queue == s.queue[1..] + [];
    assert Advances(C, s, t);
    assert IsRun(C, [s, t]) && RunsFrom(C, [s, t], start);
    assert Within(start, doms0) && AnswersYes(C, start, after);
  }

  /** The domains that hold just the offending values: (i, j) is consistent, revising (j, i) keeps `y'`,
      and leaves nothing that supports `x`. */
  lemma OppositeArcHarms(C: Constraints, doms0: Domains, i: nat, j: nat, x: int, a: int, y: int, y': int, b: int)
    requires i < |doms0| && j < |doms0| && i != j && C.Keys == {(i, j), (j, i)}
    requires x in doms0[i] && a in doms0[i] && y in doms0[j] && y' in doms0[j] && b in doms0[j]
    requires !Rescued(C, i, j, x, a, y, y', b)
    ensures !SkipIsHarmless(C, doms0, i, j)
  {
    var start := doms0[i := [x, a]][j := [y, y', b]];
    var after := Reduced(C, start, j, i);
    OffendingStart(C, start, i, j, x, a, y, y', b);
    OffendingEnd(C, start, i, j, x, a, y, y', b);
    assert Within(start, doms0);
    hide ConsistentArc, Keep, Rescued, AnswersYes;
    TwoTurns(C, start, i, j);
  }

  /** The order (i, j), (j, i), when the first revision changes nothing and the second leaves something. */
  lemma TwoTurns(C: Constraints, start: Domains, i: nat, j: nat)
    requires i < |start| && j < |start| && i != j && C.Keys == {(i, j), (j, i)}
    requires Keep(C, start, i, j, start[i]) == start[i]
    requires Reduced(C, start, j, i)[j] != [] && Reduced(C, start, j, i)[j] != start[j]
    ensures AnswersYes(C, start, Reduced(C, start, j, i))
  {
    hide ConsistentArc, Supported;
    var after := Reduced(C, start, j, i);
    var s, t, u := Config(start, [(i, j), (j, i)]), Config(start, [(j, i)]), Config(after, []);
    assert Advances(C, s, t);
    assert Advances(C, t, u) by {
      assert Requeued(C, j, i, []) && u.queue == t.queue[1..] + [];
    }
    hide Advances, Keep, Reduced;
    var run := [s, t, u];
    assert run[0] == s && run[1] == t && run[2] == u;
    assert IsRun(C, run) && RunsFrom(C, run, start);
  }

  lemma OffendingStart(C: Constraints, doms: Domains, i: nat, j: nat, x: int, a: int, y: int, y': int, b: int)
    requires i < |doms| && j < |doms| && i != j && (i, j) in C && (j, i) in C
    requires doms[i] == [x, a] && doms[j] == [y, y', b] && !Rescued(C, i, j, x, a, y, y', b)
    ensures Keep(C, doms, i, j, doms[i]) == doms[i]
  {
    assert y in doms[j] && b in doms[j];
    assert Supported(C, doms, i, j, x) && Supported(C, doms, i, j, a);
    AllKept(C, doms, i, j, doms[i]);
  }

  lemma {:induction false} AllKept(C: Constraints, doms: Domains, i: nat, j: nat, dom: seq<int>)
    requires (i, j) in C && j < |doms| && forall x :: x in dom ==> Supported(C, doms, i, j, x)
    ensures Keep(C, doms, i, j, dom) == dom
  {
    if dom == [] {
    } else {
      var x := dom[|dom| - 1];
      assert x in dom;
      AllKept(C, doms, i, j, dom[..|dom| - 1]);
    }
  }

  lemma OffendingEnd(C: Constraints, doms: Domains, i: nat, j: nat, x: int, a: int, y: int, y': int, b: int)
    requires i < |doms| && j < |doms| && i != j && (i, j) in C && (j, i) in C
    requires doms[i] == [x, a] && doms[j] == [y, y', b] && !Rescued(C, i, j, x, a, y, y', b)
    ensures var after := Reduced(C, doms, j, i);
      after[j] != [] && after[j] != doms[j] && !ConsistentArc(C, after, i, j)
  {
    var after := Reduced(C, doms, j, i);
    assert doms[i][0] == x && doms[i][1] == a && doms[j][0] == y && doms[j][1] == y' && doms[j][2] == b;
    assert a in doms[i] && y' in doms[j] && Supported(C, doms, j, i, y') && y' in after[j];
    assert !Serves(C, i, j, x, a, y);
    assert !Supported(C, doms, j, i, y) && y !in after[j] && y in doms[j];
    assert x in after[i] && !Supported(C, after, i, j, x);
  }

  /** Two opposite arcs that are not transposes of each other. */
  ghost const Skew: Constraints := map[(0, 1) := (x: int, y: int) => x == 1, (1, 0) := (y: int, x: int) => x == 0]
  ghost const SkewDomains: Domains := [[0, 1], [0]]

  /** A run that answers yes with an inconsistent arc: the order (1, 0), (0, 1) first changes nothing,
      then removes the only support of arc (1, 0), leaves every domain filled, and queues no arc again. */
  lemma SkippedArcNeedsTranspose()
    ensures ArcsInRange(Skew, |SkewDomains|) && !Skippable(Skew, SkewDomains, 1, 0)
    ensures var doms := Reduced(Skew, SkewDomains, 0, 1);
      && AnswersYes(Skew, SkewDomains, doms) && (forall i :: 0 <= i < |doms| ==> doms[i] != [])
      && !ConsistentArc(Skew, doms, 1, 0)
  {
    SkewKeeps();
    SkewLoses(Reduced(Skew, SkewDomains, 0, 1));
    var zero, one := 0, 1;
    assert zero in SkewDomains[1] && zero in SkewDomains[0] && one in SkewDomains[0];
    assert !Rescued(Skew, 1, 0, zero, zero, zero, one, zero);
    hide ConsistentArc, Supported, Keep, AnswersYes;
    TwoTurns(Skew, SkewDomains, 1, 0);
  }

  lemma SkewKeeps()
    ensures Keep(Skew, SkewDomains, 1, 0, SkewDomains[1]) == SkewDomains[1]
  {
    var x := 0;
    assert x in SkewDomains[0] && Skew[(1, 0)](0, x);
    assert Supported(Skew, SkewDomains, 1, 0, 0);
    AllKept(Skew, SkewDomains, 1, 0, SkewDomains[1]);
  }

  lemma SkewLoses(doms: Domains)
    requires doms == Reduced(Skew, SkewDomains, 0, 1)
    ensures doms[0] != [] && doms[0] != SkewDomains[0] && !ConsistentArc(Skew, doms, 1, 0)
  {
    var y, kept := 0, 1;
    assert !Supported(Skew, SkewDomains, 0, 1, 0) && y in SkewDomains[0];
    assert 0 !in doms[0];
    assert y in SkewDomains[1] && kept in SkewDomains[0] && Supported(Skew, SkewDomains, 0, 1, kept);
    assert kept in doms[0];
    assert y in doms[1] && !Supported(Skew, doms, 1, 0, y);
  }

  /** When nothing is removed, the revised arc was consistent already. */
  lemma UnrevisedIsConsistent(C: Constraints, doms0: Domains, doms: Domains, i: nat, j: nat, queue: seq<(nat, nat)>)
    requires (i, j) in C && Pending(C, doms0, doms, [(i, j)] + queue) && Keep(C, doms, i, j, doms[i]) == doms[i]
    ensures Pending(C, doms0, doms, queue)
  {
    assert ConsistentArc(C, doms, i, j);
    forall k: nat, l: nat | (k, l) in C && (k, l) !in queue
      ensures SettledArc(C, doms0, doms, k, l)
    {
      assert (k, l) == (i, j) || (k, l) !in [(i, j)] + queue;
    }
  }

  method HasSupport(C: Constraints, doms: Domains, i: nat, j: nat, x: int) returns (ok: bool)
    requires (i, j) in C && j < |doms|
    ensures ok <==> Supported(C, doms, i, j, x)
  {
    var pred, dom := C[(i, j)], doms[j];
    for b := 0 to |dom|
      invariant forall c :: 0 <= c < b ==> !pred(x, dom[c])
    {
      var y := dom[b];
      if pred(x, y) {
        assert y in dom;
        return true;
      }
    }
    ok := false;
  }

  /** What `revise` has after the first `a` values of `dom`. */
  ghost predicate KeptSoFar(C: Constraints, doms: Domains, i: nat, j: nat, dom: seq<int>, a: nat, keep: seq<int>,
                            revised: bool)
    requires (i, j) in C && j < |doms| && a <= |dom|
  {
    keep == Keep(C, doms, i, j, dom[..a]) && (revised <==> |keep| < a)
  }

  lemma KeepNext(C: Constraints, doms: Domains, i: nat, j: nat, dom: seq<int>, a: nat, keep: seq<int>, revised: bool)
    requires (i, j) in C && j < |doms| && a < |dom| && KeptSoFar(C, doms, i, j, dom, a, keep, revised)
    ensures Supported(C, doms, i, j, dom[a]) ==> KeptSoFar(C, doms, i, j, dom, a + 1, keep + [dom[a]], revised)
    ensures !Supported(C, doms, i, j, dom[a]) ==> KeptSoFar(C, doms, i, j, dom, a + 1, keep, true)
  {
    assert dom[..a + 1][..a] == dom[..a];
  }

  lemma KeptAll(C: Constraints, doms: Domains, i: nat, j: nat, dom: seq<int>, keep: seq<int>, revised: bool)
    requires (i, j) in C && j < |doms| && KeptSoFar(C, doms, i, j, dom, |dom|, keep, revised)
    ensures keep == Keep(C, doms, i, j, dom) && (revised <==> |keep| < |dom|)
  {
    assert dom[..|dom|] == dom;
  }

  /** The values of `doms[i]` with support in `doms[j]`, in order. */
  method KeepSupported(doms: Domains, C: Constraints, i: nat, j: nat) returns (keep: seq<int>, revised: bool)
    requires (i, j) in C && i < |doms| && j < |doms|
    ensures keep == Keep(C, doms, i, j, doms[i]) && (revised <==> |keep| < |doms[i]|)
  {
    var dom := doms[i];
    keep, revised := [], false;
    assert KeptSoFar(C, doms, i, j, dom, 0, keep, revised);
    hide KeptSoFar, Supported;
    for a := 0 to |dom|
      invariant KeptSoFar(C, doms, i, j, dom, a, keep, revised)
    {
      var ok := HasSupport(C, doms, i, j, dom[a]);
      KeepNext(C, doms, i, j, dom, a, keep, revised);
      if ok {
        keep := keep + [dom[a]];
      } else {
        revised := true;
      }
    }
    KeptAll(C, doms, i, j, dom, keep, revised);
  }

  method Revise(doms0: Domains, C: Constraints, i: nat, j: nat) returns (doms: Domains, revised: bool)
    requires ArcsInRange(C, |doms0|) && i < |doms0|
    ensures (i, j) !in C ==> !revised && doms == doms0
    ensures (i, j) in C ==> doms == Reduced(C, doms0, i, j)
    ensures (i, j) in C ==> (revised <==> |doms[i]| < |doms0[i]|)
  {
    doms := doms0;
    revised := false;
    if (i, j) !in C {
      return;
    }
    var keep: seq<int>;
    keep, revised := KeepSupported(doms, C, i, j);
    if revised {
      doms := doms[i := keep];
    } else {
      assert doms0[i := doms0[i]] == doms0;
    }
  }

  // ------------------------------------------------------------------------- the queue

  ghost function Sizes(doms: Domains): (s: seq<int>)
    ensures |s| == |doms| && forall i :: 0 <= i < |doms| ==> s[i] == |doms[i]|
  {
    seq(|doms|, i requires 0 <= i < |doms| => |doms[i]|)
  }

  lemma SizesUpdate(doms: Domains, i: nat, dom: seq<int>)
    requires i < |doms|
    ensures Sum(Sizes(doms[i := dom])) == Sum(Sizes(doms)) - |doms[i]| + |dom|
    ensures 0 <= Sum(Sizes(doms))
  {
    assert Sizes(doms[i := dom]) == Sizes(doms)[i := |dom|];
    SumUpdate(Sizes(doms), i, |dom|);
    var zeros: seq<int> := seq(|doms|, _ => 0);
    SumZero(zeros);
    SumMonotone(zeros, Sizes(doms));
  }

  /** The given arcs in some order: the one in which the hash map yields them. */
  method InAnyOrder(arcs: set<(nat, nat)>) returns (list: seq<(nat, nat)>)
    ensures forall a :: a in list <==> a in arcs
  {
    list := [];
    var left := arcs;
    while left != {}
      invariant left <= arcs && forall a :: a in list <==> a in arcs - left
      decreases left
    {
      var a :| a in left;
      list := list + [a];
      left := left - {a};
    }
  }

  /** Where domains start non-empty, none is emptied unless the answer is no. */
  ghost predicate StillFilled(doms0: Domains, doms: Domains) {
    |doms| == |doms0| && forall i :: 0 <= i < |doms| && doms0[i] != [] ==> doms[i] != []
  }

  /** Every skippable arc is consistent. */
  ghost predicate Settled(C: Constraints, doms0: Domains, doms: Domains) {
    |doms| == |doms0| && forall i: nat, j: nat :: (i, j) in C ==> SettledArc(C, doms0, doms, i, j)
  }

  lemma SettledIsGreatest(C: Constraints, doms0: Domains, doms: Domains)
    requires Settled(C, doms0, doms) && Within(doms, doms0) && AllSkippable(C, doms0)
    requires forall s :: Within(s, doms0) && ArcConsistent(C, s) ==> Within(s, doms)
    ensures Greatest(C, doms0, doms)
  {
    hide Skippable, ConsistentArc;
    forall i: nat, j: nat | (i, j) in C
      ensures i < |doms| && j < |doms| && ConsistentArc(C, doms, i, j)
    {
      assert SettledArc(C, doms0, doms, i, j);
    }
  }

  /** Whatever order the arcs are taken in: yes leaves settled domains, all still filled, that hold
      every arc-consistent choice, and if every arc is skippable these are the greatest
      arc-consistent ones; no means that every arc-consistent choice has an empty part. */
  method ArcConsistency(doms0: Domains, C: Constraints) returns (doms: Domains, ok: bool)
    requires ArcsInRange(C, |doms0|)
    ensures Within(doms, doms0) && forall s :: Within(s, doms0) && ArcConsistent(C, s) ==> Within(s, doms)
    ensures ok ==> AnswersYes(C, doms0, doms) && Settled(C, doms0, doms) && StillFilled(doms0, doms)
    ensures ok && AllSkippable(C, doms0) ==> Greatest(C, doms0, doms)
    ensures !ok ==> forall s :: Within(s, doms0) && ArcConsistent(C, s) ==> exists i :: 0 <= i < |s| && s[i] == []
  {
    doms := doms0;
    var queue := InAnyOrder(C.Keys);
    ghost var run := [Config(doms, queue)];
    while queue != []
      invariant IsRun(C, run) && RunsFrom(C, run, doms0) && run[|run| - 1] == Config(doms, queue)
      invariant Within(doms, doms0) && StillFilled(doms0, doms) && forall a :: a in queue ==> a in C
      invariant forall s :: Within(s, doms0) && ArcConsistent(C, s) ==> Within(s, doms)
      decreases Sum(Sizes(doms)), |queue|
    {
      hide ConsistentArc, AllSkippable, ArcConsistent, Skippable, SettledArc, IsRun, Advances, RunsFrom;
      var (i, j) := queue[0];
      var rest := queue[1..];
      assert queue == [(i, j)] + rest && queue[0] in queue;
      SizesUpdate(doms, i, Keep(C, doms, i, j, doms[i]));
      ghost var before := doms;
      var revised;
      doms, revised := Revise(doms, C, i, j);
      forall s | Within(s, doms0) && ArcConsistent(C, s)
        ensures Within(s, doms)
      {
        ReviseKeepsGreatest(C, before, i, j, s);
      }
      if revised {
        if doms[i] == [] {
          NoneLeft(doms, i);
          return doms, false;
        }
        var again := InAnyOrder(set a | a in C.Keys && a.1 == i && a.0 != j);
        queue := rest + again;
        TurnRevised(C, before, i, j, rest, again);
      } else {
        assert before[i := before[i]] == before;
        TurnUnrevised(C, before, i, j, rest);
        queue := rest;
      }
      run := ExtendedRun(C, run, doms0, Config(doms, queue));
    }
    YesSettles(C, doms0, doms0, doms);
    if AllSkippable(C, doms0) {
      SettledIsGreatest(C, doms0, doms);
    }
    ok := true;
  }

  lemma NoneLeft(doms: Domains, i: nat)
    requires i < |doms| && doms[i] == []
    ensures forall s :: Within(s, doms) ==> exists k :: 0 <= k < |s| && s[k] == []
  {
    forall s | Within(s, doms)
      ensures s[i] == []
    {
      WithinAt(s, doms, i);
    }
  }

  lemma WithinAt(s: Domains, doms: Domains, i: nat)
    requires Within(s, doms) && i < |s|
    ensures s[i] != [] ==> doms[i] != []
  {
    if s[i] != [] {
      var x := s[i][0];
      assert x in s[i] && x in doms[i];
    }
  }
}
