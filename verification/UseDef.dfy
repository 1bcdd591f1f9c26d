/** Use-def chains by graph search, and their agreement with reaching definitions. */
module UseDef {
  import opened Dataflow
  import opened Digraph

  /** A path of at least one edge from `from` to `to` whose inner blocks avoid `redefs`. */
  ghost predicate ClearPath(E: Edges, redefs: set<nat>, from: nat, to: nat, p: seq<nat>) {
    PathFromTo(E, p, from, to) && |p| > 1 && forall i :: 0 < i < |p| - 1 ==> p[i] !in redefs
  }

  ghost predicate ClearlyReaches(E: Edges, redefs: set<nat>, from: nat, to: nat) {
    exists p :: ClearPath(E, redefs, from, to, p)
  }

  /** A path from `from` all of whose later blocks avoid `redefs`. */
  ghost predicate ClearTo(E: Edges, redefs: set<nat>, from: nat, u: nat) {
    exists p :: PathFromTo(E, p, from, u) && forall i :: 0 < i < |p| ==> p[i] !in redefs
  }

  lemma ClearStep(E: Edges, redefs: set<nat>, from: nat, u: nat, v: nat)
    requires ClearTo(E, redefs, from, u) && (u, v) in E
    ensures ClearlyReaches(E, redefs, from, v)
    ensures v !in redefs ==> ClearTo(E, redefs, from, v)
  {
    var p :| PathFromTo(E, p, from, u) && forall i :: 0 < i < |p| ==> p[i] !in redefs;
    PathConcat(E, p, [u, v]);
    var q := p + [u, v][1..];
    assert q == p + [v];
    assert ClearPath(E, redefs, from, v, q);
  }

  /** Everything searched: its edges lead neither to the target nor to an unsearched, clear block. */
  lemma ExhaustedSearch(E: Edges, redefs: set<nat>, from: nat, to: nat, V: set<nat>)
    requires from in V
    requires forall u, v :: u in V && (u, v) in E ==> v != to && (v in redefs || v in V)
    ensures !ClearlyReaches(E, redefs, from, to)
  {
    if ClearlyReaches(E, redefs, from, to) {
      var p :| ClearPath(E, redefs, from, to, p);
      var q := p[..|p| - 1];
      SubPath(E, p, 0, |p| - 2);
      assert p[0..|p| - 2 + 1] == q;
      assert (p[|p| - 2], p[|p| - 2 + 1]) in E;
      if q[|q| - 1] !in V {
        var i := FirstExit(E, q, V);
      }
      assert false;
    }
  }

  ghost function Unseen(visited: seq<bool>): set<nat> {
    set v | 0 <= v < |visited| && !visited[v]
  }

  /** Invariant of the worklist: what is stacked or visited is clearly reached, what is visited is searched. */
  ghost predicate Searching(E: Edges, redefs: set<nat>, from: nat, to: nat, visited: seq<bool>, stack: seq<nat>) {
    && (forall u :: u in stack ==> u < |visited| && ClearTo(E, redefs, from, u))
    && (from in stack || (from < |visited| && visited[from]))
    && forall u: nat, v: nat :: u < |visited| && visited[u] && (u, v) in E ==>
         v != to && (v in redefs || v in stack || (v < |visited| && visited[v]))
  }

  /** What `u`'s edges add to the worklist: clear blocks only, all of them, unless one is the target. */
  ghost predicate Stacked(E: Edges, redefs: set<nat>, from: nat, to: nat, u: nat, stack0: seq<nat>, stack: seq<nat>,
                          n: nat) {
    && stack0 <= stack
    && (forall x :: x in stack ==> x in stack0 || (x < n && ClearTo(E, redefs, from, x)))
    && forall v: nat :: (u, v) in E ==> v != to && (v in redefs || v in stack)
  }

  method StackSuccessors(adj: seq<seq<nat>>, redefs: set<nat>, ghost from: nat, to: nat, u: nat, stack0: seq<nat>)
      returns (stack: seq<nat>, found: bool)
    requires u < |adj| && ClearTo(Inner(adj), redefs, from, u)
    ensures found ==> ClearlyReaches(Inner(adj), redefs, from, to)
    ensures !found ==> Stacked(Inner(adj), redefs, from, to, u, stack0, stack, |adj|)
  {
    hide ClearTo, ClearlyReaches;
    ghost var E := Inner(adj);
    stack, found := stack0, false;
    for i := 0 to |adj[u]|
      invariant stack0 <= stack && !found
      invariant forall x :: x in stack ==> x in stack0 || (x < |adj| && ClearTo(E, redefs, from, x))
      invariant forall j :: 0 <= j < i && adj[u][j] < |adj| ==>
        adj[u][j] != to && (adj[u][j] in redefs || adj[u][j] in stack)
    {
      var v := adj[u][i];
      if v >= |adj| {
        continue;
      }
      assert (u, v) in E;
      ClearStep(E, redefs, from, u, v);
      if v == to {
        return stack, true;
      }
      if v in redefs {
        continue;
      }
      stack := stack + [v];
    }
  }

  lemma StackKeepsSearching(E: Edges, redefs: set<nat>, from: nat, to: nat, visited: seq<bool>, stack0: seq<nat>,
                            u: nat,
                            stack: seq<nat>)
    requires Searching(E, redefs, from, to, visited, stack0 + [u]) && u < |visited|
    requires Stacked(E, redefs, from, to, u, stack0, stack, |visited|)
    ensures Searching(E, redefs, from, to, visited[u := true], stack)
  {
    hide ClearTo;
    assert forall x :: x in stack0 ==> x in stack0 + [u] && x in stack;
  }

  lemma PopKeepsSearching(E: Edges, redefs: set<nat>, from: nat, to: nat, visited: seq<bool>, stack: seq<nat>, u: nat)
    requires Searching(E, redefs, from, to, visited, stack + [u]) && u < |visited| && visited[u]
    ensures Searching(E, redefs, from, to, visited, stack)
  {
    hide ClearTo;
    assert forall x :: x in stack + [u] <==> x in stack || x == u;
    assert forall x :: x in stack ==> x in stack + [u];
  }

  lemma TopIsClear(E: Edges, redefs: set<nat>, from: nat, to: nat, visited: seq<bool>, stack: seq<nat>, u: nat)
    requires Searching(E, redefs, from, to, visited, stack + [u])
    ensures u < |visited| && ClearTo(E, redefs, from, u)
  {
    assert u in stack + [u];
  }

  lemma FewerUnseen(visited: seq<bool>, u: nat)
    requires u < |visited| && !visited[u]
    ensures Unseen(visited[u := true]) < Unseen(visited)
  {
    assert u in Unseen(visited) && u !in Unseen(visited[u := true]);
  }

  method CanReachWithoutRedef(from: nat, to: nat, adj: seq<seq<nat>>, n: nat, redefs: set<nat>) returns (r: bool)
    requires n == |adj| && (from != to ==> from < n)
    ensures r <==> from == to || ClearlyReaches(Inner(adj), redefs, from, to)
  {
    if from == to {
      return true;
    }
    ghost var E := Inner(adj);
    var visited: seq<bool> := seq(n, _ => false);
    var stack: seq<nat> := [from];
    assert ClearTo(E, redefs, from, from) by { assert PathFromTo(E, [from], from, from); }
    assert Searching(E, redefs, from, to, visited, stack);
    hide Searching, ClearTo, ClearlyReaches, Stacked, Unseen;
    while stack != []
      invariant |visited| == n && Searching(E, redefs, from, to, visited, stack)
      decreases Unseen(visited), |stack|
    {
      var u, rest := stack[|stack| - 1], stack[..|stack| - 1];
      assert stack == rest + [u];
      TopIsClear(E, redefs, from, to, visited, rest, u);
      if visited[u] {
        PopKeepsSearching(E, redefs, from, to, visited, rest, u);
        stack := rest;
        continue;
      }
      var found;
      stack, found := StackSuccessors(adj, redefs, from, to, u, rest);
      if found {
        return true;
      }
      StackKeepsSearching(E, redefs, from, to, visited, rest, u, stack);
      FewerUnseen(visited, u);
      visited := visited[u := true];
    }
    SearchedOut(E, redefs, from, to, visited);
    r := false;
  }

  lemma SearchedOut(E: Edges, redefs: set<nat>, from: nat, to: nat, visited: seq<bool>)
    requires Searching(E, redefs, from, to, visited, [])
    ensures !ClearlyReaches(E, redefs, from, to)
  {
    ExhaustedSearch(E, redefs, from, to, set v | 0 <= v < |visited| && visited[v]);
  }

  datatype UseDefFacts = UseDefFacts(defs: map<nat, set<nat>>, uses: map<nat, set<nat>>)

  ghost predicate DefsInRange(n: nat, facts: UseDefFacts) {
    forall x, d, u :: x in facts.defs && d in facts.defs[x] && x in facts.uses && u in facts.uses[x] && d != u ==> d < n
  }

  /** The definitions of one variable that reach the use in block `u`. */
  ghost predicate Reaching(E: Edges, defs: set<nat>, u: nat, d: nat) {
    d in defs && (d == u || ClearlyReaches(E, defs, d, u))
  }

  method ChainAt(adj: seq<seq<nat>>, defs: set<nat>, u: nat) returns (reaching: set<nat>)
    requires forall d :: d in defs && d != u ==> d < |adj|
    ensures forall d :: d in reaching <==> Reaching(Inner(adj), defs, u, d)
  {
    reaching := {};
    var left := defs;
    while left != {}
      invariant left <= defs
      invariant forall d :: d in reaching <==> d in defs - left && Reaching(Inner(adj), defs, u, d)
      decreases left
    {
      var d :| d in left;
      var reaches := true;
      if d != u {
        reaches := CanReachWithoutRedef(d, u, adj, |adj|, defs);
      }
      if reaches {
        reaching := reaching + {d};
      }
      left := left - {d};
    }
  }

  method ChainsOf(adj: seq<seq<nat>>, defs: set<nat>, uses: set<nat>) returns (chains: map<nat, set<nat>>)
    requires forall d, u :: d in defs && u in uses && d != u ==> d < |adj|
    ensures chains.Keys == uses
    ensures forall u, d :: u in uses ==> (d in chains[u] <==> Reaching(Inner(adj), defs, u, d))
  {
    chains := map[];
    var left := uses;
    while left != {}
      invariant left <= uses && chains.Keys == uses - left
      invariant forall u, d :: u in chains ==> (d in chains[u] <==> Reaching(Inner(adj), defs, u, d))
      decreases left
    {
      var u :| u in left;
      var reaching := ChainAt(adj, defs, u);
      chains := chains[u := reaching];
      left := left - {u};
    }
  }

  /** Chains for every defined variable, whatever order the maps and sets are walked in. */
  method BuildUseDefChains(adj: seq<seq<nat>>, facts: UseDefFacts) returns (chains: map<nat, map<nat, set<nat>>>)
    requires DefsInRange(|adj|, facts)
    ensures chains.Keys == facts.defs.Keys
    ensures forall x, u :: x in chains ==> (u in chains[x] <==> x in facts.uses && u in facts.uses[x])
    ensures forall x, u, d :: x in chains && u in chains[x] ==>
      (d in chains[x][u] <==> Reaching(Inner(adj), facts.defs[x], u, d))
  {
    chains := map[];
    var left := facts.defs.Keys;
    while left != {}
      invariant left <= facts.defs.Keys && chains.Keys == facts.defs.Keys - left
      invariant forall x, u :: x in chains ==> (u in chains[x] <==> x in facts.uses && u in facts.uses[x])
      invariant forall x, u, d :: x in chains && u in chains[x] ==>
        (d in chains[x][u] <==> Reaching(Inner(adj), facts.defs[x], u, d))
      decreases left
    {
      var x :| x in left;
      var uses := if x in facts.uses then facts.uses[x] else {};
      var varChains := ChainsOf(adj, facts.defs[x], uses);
      chains := chains[x := varChains];
      left := left - {x};
    }
  }

  // ------------------------------------------------------- agreement with reaching definitions

  /** One variable's definitions as dataflow facts: a defining block generates itself and kills all. */
  ghost predicate FactsOf(defs: set<nat>, facts: Facts<nat>) {
    && (forall b: nat, d: nat :: Listed(facts.gen, b, d) <==> b in defs && d == b)
    && forall b: nat, d: nat :: Listed(facts.kill, b, d) <==> b in defs && d in defs
  }

  /** The use-def chain at `u` is what reaches the start of `u`, and `u` itself if it defines the variable. */
  lemma ChainIsReachingDefinitions(E: Edges, defs: set<nat>, facts: Facts<nat>, u: nat, d: nat)
    requires FactsOf(defs, facts)
    ensures Reaching(E, defs, u, d) <==> ReachesStart(E, facts, d, u) || (d == u && u in defs)
  {
    hide FactsOf, ClearlyReaches, ReachesStart;
    if d in defs && ClearlyReaches(E, defs, d, u) {
      ClearIsCarried(E, defs, facts, u, d);
    }
    if ReachesStart(E, facts, d, u) {
      CarriedIsClear(E, defs, facts, u, d);
    }
  }

  lemma ClearIsCarried(E: Edges, defs: set<nat>, facts: Facts<nat>, u: nat, d: nat)
    requires FactsOf(defs, facts) && d in defs && ClearlyReaches(E, defs, d, u)
    ensures ReachesStart(E, facts, d, u)
  {
    var p :| ClearPath(E, defs, d, u, p);
    var a, q := p[|p| - 2], p[..|p| - 1];
    SubPath(E, p, 0, |p| - 2);
    assert p[0..|p| - 2 + 1] == q;
    assert (p[|p| - 2], p[|p| - 2 + 1]) in E;
    assert Carries(E, facts, d, q) && q[|q| - 1] == a;
    assert ReachesEnd(E, facts, d, a);
  }

  lemma CarriedIsClear(E: Edges, defs: set<nat>, facts: Facts<nat>, u: nat, d: nat)
    requires FactsOf(defs, facts) && ReachesStart(E, facts, d, u)
    ensures d in defs && ClearlyReaches(E, defs, d, u)
  {
    var a :| (a, u) in E && ReachesEnd(E, facts, d, a);
    var q :| Carries(E, facts, d, q) && q[|q| - 1] == a;
    var p := q + [u];
    assert q[0] == d && d in defs;
    assert ClearPath(E, defs, d, u, p);
  }

  /** Both analyses of one variable `x` on one graph: the chain at every use is what reaches its start,
      together with the use itself where it defines the variable. */
  method ChainsAndReachingDefinitions(adj: seq<seq<nat>>, useDefs: UseDefFacts, x: nat, blocks: seq<nat>, pred: Preds,
                                      facts: Facts<nat>)
      returns (chains: map<nat, map<nat, set<nat>>>, ins: map<nat, set<nat>>)
    requires DefsInRange(|adj|, useDefs) && x in useDefs.defs && FactsOf(useDefs.defs[x], facts)
    requires Closed(blocks, pred) && Flow(blocks, pred) == Inner(adj)
    ensures x in chains && forall u :: u in chains[x] <==> x in useDefs.uses && u in useDefs.uses[x]
    ensures forall b :: b in ins <==> b in blocks
    ensures forall u :: u in chains[x] && u in blocks ==>
        chains[x][u] == ins[u] + if u in useDefs.defs[x] then {u} else {}
  {
    chains := BuildUseDefChains(adj, useDefs);
    var out;
    ins, out := ReachingDefinitions(blocks, pred, facts);
    var defs := useDefs.defs[x];
    forall u | u in chains[x] && u in blocks
      ensures chains[x][u] == ins[u] + if u in defs then {u} else {}
    {
      forall d
        ensures d in chains[x][u] <==> d in ins[u] || (d == u && u in defs)
      {
        ChainIsReachingDefinitions(Inner(adj), defs, facts, u, d);
      }
    }
  }
}
