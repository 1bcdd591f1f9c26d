/** The compiler event log: the engine, the writer, the reader, and the check that replay rebuilds the state. */
module EventLog {
  import opened Machine
  import opened Lists

  datatype Edge = Edge(src: string, dst: string, kind: string)

  datatype Event =
    | NodeDefined(symbol: string, kind: string)
    | NodeUpdated(symbol: string, kind: string)
    | NodeRemoved(symbol: string)
    | EdgeDefined(edge: Edge)
    | EdgeRemoved(edge: Edge)
    | FileSeen(path: string)
    | CallsiteObserved
    | SymbolDefined
    | SpanDefined
    | PanicCaptured
    | WarningCaptured
    | SessionStart
    | CompilationUnitFinished
    | InvariantViolation

  datatype Delta = Delta(id: u64, tick: u64, event: Event)

  /** A line of the log: an event of the compiler, or anything else, which readers skip. */
  datatype Line = Code(event: Event) | Foreign

  datatype State = State(
    tick: u64,
    phase: string,
    lastEventId: u64,
    invariantHash: string,
    graphVersion: u64,
    knownSymbols: map<string, string>,
    knownEdges: seq<Edge>,
    knownFiles: set<string>,
    removedSymbols: set<string>,
    removedEdges: seq<Edge>)

  datatype Outcome = Rejected | Reached(state: State)

  /** The hash of node and edge counts; nothing is asked of it but that it is a function. */
  type Digest = (nat, nat) -> string

  // ------------------------------------------------------------ one event

  predicate Accepts(s: State, d: Delta) {
    s.lastEventId < d.id || d.event.SessionStart?
  }

  // What an event does to each component, whatever the others hold.

  predicate Defines(e: Event) { e.NodeDefined? || e.NodeUpdated? }

  function SymbolsAfter(e: Event, known: map<string, string>): map<string, string> {
    if e.SessionStart? then map[]
    else if Defines(e) then known[e.symbol := e.kind]
    else if e.NodeRemoved? then known - {e.symbol}
    else known
  }

  function RemovedSymbolsAfter(e: Event, removed: set<string>): set<string> {
    if e.SessionStart? then {}
    else if Defines(e) then removed - {e.symbol}
    else if e.NodeRemoved? then removed + {e.symbol}
    else removed
  }

  /** The known edges (`known`) and the removed ones treat the two edge events in opposite ways. */
  function EdgesAfter(e: Event, edges: seq<Edge>, known: bool): seq<Edge> {
    if e.SessionStart? then []
    else if e.EdgeDefined? then (if known then edges + [e.edge] else Without(edges, e.edge))
    else if e.EdgeRemoved? then (if known then Without(edges, e.edge) else edges + [e.edge])
    else edges
  }

  function FilesAfter(e: Event, files: set<string>): set<string> {
    if e.SessionStart? then {} else if e.FileSeen? then files + {e.path} else files
  }

  function Step(h: Digest, s: State, d: Delta): State {
    var symbols := SymbolsAfter(d.event, s.knownSymbols);
    var edges := EdgesAfter(d.event, s.knownEdges, true);
    State(
      d.tick,
      if d.event.CompilationUnitFinished? then "finished" else s.phase,
      if d.event.SessionStart? then 0 else d.id,
      h(|symbols|, |edges|),
      s.graphVersion,
      symbols,
      edges,
      FilesAfter(d.event, s.knownFiles),
      RemovedSymbolsAfter(d.event, s.removedSymbols),
      EdgesAfter(d.event, s.removedEdges, false))
  }

  /** Apply deltas in order, stopping at the first one rejected. */
  function Replay(h: Digest, s: State, ds: seq<Delta>): Outcome {
    if ds == [] then Reached(s)
    else
      match Replay(h, s, ds[..|ds| - 1])
      case Rejected => Rejected
      case Reached(t) => if Accepts(t, ds[|ds| - 1]) then Reached(Step(h, t, ds[|ds| - 1])) else Rejected
  }

  /** What is known and what is removed never overlap. */
  ghost predicate Separate(s: State) {
    && s.knownSymbols.Keys !! s.removedSymbols
    && forall g :: g in s.knownEdges ==> g !in s.removedEdges
  }

  lemma StepCounts(h: Digest, s: State, d: Delta)
    ensures Step(h, s, d).tick == d.tick
    ensures Step(h, s, d).lastEventId == if d.event.SessionStart? then 0 else d.id
  {
  }

  lemma StepKeepsSeparate(h: Digest, s: State, d: Delta)
    requires Separate(s)
    ensures Separate(Step(h, s, d))
  {
    if d.event.EdgeDefined? || d.event.EdgeRemoved? {
      WithoutMembers(s.knownEdges, d.event.edge);
      WithoutMembers(s.removedEdges, d.event.edge);
    }
  }

  /** Whatever the ids and ticks, no run of deltas makes known and removed overlap. */
  lemma {:induction false} ReplayKeepsSeparate(h: Digest, s: State, ds: seq<Delta>)
    requires Separate(s)
    ensures var r := Replay(h, s, ds); r.Reached? ==> Separate(r.state)
  {
    if ds == [] {
    } else {
      hide Separate, Step;
      var r := Replay(h, s, ds[..|ds| - 1]);
      ReplayKeepsSeparate(h, s, ds[..|ds| - 1]);
      if r.Reached? {
        StepKeepsSeparate(h, r.state, ds[|ds| - 1]);
      }
    }
  }

  /** The id that the delta at position `i` must exceed, unless it starts a session. */
  function IdBefore(last: u64, ds: seq<Delta>, i: nat): u64
    requires i <= |ds|
  {
    if i == 0 then last else if ds[i - 1].event.SessionStart? then 0 else ds[i - 1].id
  }

  ghost predicate RisesAt(last: u64, ds: seq<Delta>, i: nat)
    requires i < |ds|
  {
    ds[i].event.SessionStart? || ds[i].id > IdBefore(last, ds, i)
  }

  ghost predicate RisingIds(last: u64, ds: seq<Delta>) {
    forall i :: 0 <= i < |ds| ==> RisesAt(last, ds, i)
  }

  lemma RisingNext(last: u64, ds: seq<Delta>)
    requires ds != []
    ensures var n := |ds| - 1;
      && IdBefore(last, ds[..n], n) == IdBefore(last, ds, n)
      && (RisingIds(last, ds) <==> RisingIds(last, ds[..n]) && RisesAt(last, ds, n))
  {
    var n := |ds| - 1;
    var init := ds[..n];
    forall i | 0 <= i < n
      ensures RisesAt(last, init, i) <==> RisesAt(last, ds, i)
    {
    }
    hide RisesAt;
  }

  /** Whatever the ids, a run of deltas goes through exactly when they rise strictly within each session. */
  lemma {:induction false} ReplayNeedsRisingIds(h: Digest, s: State, ds: seq<Delta>)
    ensures Replay(h, s, ds).Reached? <==> RisingIds(s.lastEventId, ds)
    ensures Replay(h, s, ds).Reached? ==> Replay(h, s, ds).state.lastEventId == IdBefore(s.lastEventId, ds, |ds|)
  {
    if ds == [] {
    } else {
      hide Step, RisingIds;
      var n := |ds| - 1;
      var r := Replay(h, s, ds[..n]);
      ReplayNeedsRisingIds(h, s, ds[..n]);
      RisingNext(s.lastEventId, ds);
      if r.Reached? {
        StepCounts(h, r.state, ds[n]);
      }
    }
  }

  // ------------------------------------------------------------ numbering

  /** Events after the last session start; a session start itself counts zero. */
  function Since(es: seq<Event>): nat {
    if es == [] || es[|es| - 1].SessionStart? then 0 else Since(es[..|es| - 1]) + 1
  }

  function Cap(n: nat): u64 {
    if n <= U64_MAX then n else U64_MAX
  }

  function Numbered(es: seq<Event>): seq<Delta> {
    if es == [] then [] else Numbered(es[..|es| - 1]) + [Delta(Cap(Since(es)), Cap(Since(es)), es[|es| - 1])]
  }

  /** No session is longer than the counter can count. */
  predicate Fits(es: seq<Event>) {
    es == [] || (Fits(es[..|es| - 1]) && Since(es) <= U64_MAX)
  }

  /** Position `i` is the last session start. */
  ghost predicate LastStart(es: seq<Event>, i: nat) {
    i < |es| && es[i].SessionStart? && forall j :: i < j < |es| ==> !es[j].SessionStart?
  }

  /** The count is the distance from the last session start, or from the beginning where there is none. */
  lemma {:induction false} SinceIsDistance(es: seq<Event>)
    ensures forall i: nat :: LastStart(es, i) ==> Since(es) == |es| - 1 - i
    ensures SessionStart !in es ==> Since(es) == |es|
  {
    if es == [] {
    } else {
      var n := |es| - 1;
      assert es == es[..n] + [es[n]];
      SinceIsDistance(es[..n]);
      assert forall i: nat :: i < n && LastStart(es, i) ==> LastStart(es[..n], i);
    }
  }

  /** Each event keeps its place and carries its own count, saturated, as id and as tick. */
  lemma {:induction false} NumberedAt(es: seq<Event>, i: nat)
    requires i < |es|
    ensures |Numbered(es)| == |es|
    ensures var d := Numbered(es)[i]; d.event == es[i] && d.id == d.tick == Cap(Since(es[..i + 1]))
  {
    var n := |es| - 1;
    if i < n {
      NumberedAt(es[..n], i);
      assert es[..n][..i + 1] == es[..i + 1];
    } else {
      assert es[..i + 1] == es;
      if n > 0 {
        NumberedAt(es[..n], 0);
      }
    }
  }

  /** The state after the numbered events, acceptance aside. */
  function After(h: Digest, s: State, es: seq<Event>): State {
    if es == [] then s
    else Step(h, After(h, s, es[..|es| - 1]), Delta(Cap(Since(es)), Cap(Since(es)), es[|es| - 1]))
  }

  /** One more event: its number, its acceptance and its effect. */
  lemma OneMore(h: Digest, s: State, es: seq<Event>, e: Event)
    ensures var fs, n := es + [e], if e.SessionStart? then 0 else Since(es) + 1;
            && Since(fs) == n
            && Numbered(fs) == Numbered(es) + [Delta(Cap(n), Cap(n), e)]
            && (Fits(fs) <==> Fits(es) && n <= U64_MAX)
            && After(h, s, fs) == Step(h, After(h, s, es), Delta(Cap(n), Cap(n), e))
  {
    assert (es + [e])[..|es|] == es;
  }

  /** Renumbered events are accepted exactly as long as the counter does not saturate. */
  lemma {:induction false} ReplayAccepts(h: Digest, s: State, es: seq<Event>)
    requires s.lastEventId == 0
    ensures Replay(h, s, Numbered(es)) == if Fits(es) then Reached(After(h, s, es)) else Rejected
    ensures Fits(es) ==> After(h, s, es).lastEventId == Since(es)
  {
    if es == [] {
    } else {
      var init := es[..|es| - 1];
      ReplayAccepts(h, s, init);
      assert Numbered(es)[..|Numbered(es)| - 1] == Numbered(init);
      if Fits(init) {
        var t := After(h, s, init);
        var d := Delta(Cap(Since(es)), Cap(Since(es)), es[|es| - 1]);
        assert Accepts(t, d) <==> Since(es) <= U64_MAX;
        assert Step(h, t, d).lastEventId == d.id;
      }
    }
  }

  lemma {:induction false} TickIsLastId(h: Digest, s: State, es: seq<Event>)
    requires s.tick == s.lastEventId
    ensures After(h, s, es).tick == After(h, s, es).lastEventId
  {
    if es == [] {
    } else {
      TickIsLastId(h, s, es[..|es| - 1]);
    }
  }

  // ------------------------------------------------------------ what the state means

  /** An edge event's edge, if `e` adds to the known (`known`) or to the removed edges. */
  predicate Marks(e: Event, g: Edge, known: bool) {
    e == if known then EdgeDefined(g) else EdgeRemoved(g)
  }

  /** Position `i` records `g`, and no later event takes the record back. */
  ghost predicate Settled(es: seq<Event>, i: nat, g: Edge, known: bool) {
    && i < |es| && Marks(es[i], g, known)
    && forall j :: i < j < |es| ==> !es[j].SessionStart? && !Marks(es[j], g, !known)
  }

  /** The edges of the lasting records among the first `k` events, in order. */
  ghost function Survivors(es: seq<Event>, k: nat, known: bool): seq<Edge>
    requires k <= |es|
  {
    if k == 0 then []
    else if (es[k - 1].EdgeDefined? || es[k - 1].EdgeRemoved?) && Settled(es, k - 1, es[k - 1].edge, known) then
      Survivors(es, k - 1, known) + [es[k - 1].edge]
    else Survivors(es, k - 1, known)
  }

  lemma SettledNext(es: seq<Event>, x: Event, i: nat, g: Edge, known: bool)
    requires i < |es|
    ensures Settled(es + [x], i, g, known) <==> Settled(es, i, g, known) && !x.SessionStart? && !Marks(x, g, !known)
  {
    var fs := es + [x];
    assert forall j :: 0 <= j < |es| ==> fs[j] == es[j];
    assert fs[|es|] == x;
  }

  lemma {:induction false} SurvivorsNext(es: seq<Event>, x: Event, k: nat, known: bool)
    requires k <= |es|
    ensures x.SessionStart? ==> Survivors(es + [x], k, known) == []
    ensures (x.EdgeDefined? || x.EdgeRemoved?) && Marks(x, x.edge, !known) ==>
              Survivors(es + [x], k, known) == Without(Survivors(es, k, known), x.edge)
    ensures !x.SessionStart? && !((x.EdgeDefined? || x.EdgeRemoved?) && Marks(x, x.edge, !known)) ==>
              Survivors(es + [x], k, known) == Survivors(es, k, known)
  {
    if k == 0 {
    } else {
      SurvivorsNext(es, x, k - 1, known);
      var e := es[k - 1];
      assert (es + [x])[k - 1] == e;
      if e.EdgeDefined? || e.EdgeRemoved? {
        SettledNext(es, x, k - 1, e.edge, known);
        var front := Survivors(es, k - 1, known);
        assert (front + [e.edge])[..|front|] == front;
      }
    }
  }

  /** The two edge lists are exactly the lasting records, in log order and with multiplicity. */
  lemma {:induction false} EdgesAreSurvivors(h: Digest, s: State, es: seq<Event>)
    requires s.knownEdges == [] && s.removedEdges == []
    ensures After(h, s, es).knownEdges == Survivors(es, |es|, true)
    ensures After(h, s, es).removedEdges == Survivors(es, |es|, false)
  {
    if es == [] {
    } else {
      var n := |es| - 1;
      var init, x := es[..n], es[n];
      assert es == init + [x];
      EdgesAreSurvivors(h, s, init);
      SurvivorsNext(init, x, n, true);
      SurvivorsNext(init, x, n, false);
      if x.EdgeDefined? || x.EdgeRemoved? {
        assert Settled(es, n, x.edge, true) <==> x.EdgeDefined?;
        assert Settled(es, n, x.edge, false) <==> x.EdgeRemoved?;
      }
    }
  }

  predicate Touches(e: Event, x: string) {
    (Defines(e) || e.NodeRemoved?) && e.symbol == x
  }

  /** Position `i` is the last word on symbol `x`. */
  ghost predicate LastWord(es: seq<Event>, i: nat, x: string) {
    && i < |es| && Touches(es[i], x)
    && forall j :: i < j < |es| ==> !es[j].SessionStart? && !Touches(es[j], x)
  }

  ghost predicate Seen(es: seq<Event>, i: nat, p: string) {
    && i < |es| && es[i] == FileSeen(p)
    && forall j :: i < j < |es| ==> !es[j].SessionStart?
  }

  lemma LastWordNext(es: seq<Event>, e: Event, i: nat, x: string)
    requires i < |es|
    ensures LastWord(es + [e], i, x) <==> LastWord(es, i, x) && !e.SessionStart? && !Touches(e, x)
  {
    var fs := es + [e];
    assert forall j :: 0 <= j < |es| ==> fs[j] == es[j];
    assert fs[|es|] == e;
  }

  lemma SeenNext(es: seq<Event>, e: Event, i: nat, p: string)
    requires i < |es|
    ensures Seen(es + [e], i, p) <==> Seen(es, i, p) && !e.SessionStart?
  {
    var fs := es + [e];
    assert forall j :: 0 <= j < |es| ==> fs[j] == es[j];
    assert fs[|es|] == e;
  }

  datatype Status = Unmentioned | Known(kind: string) | Removed | Both(kind: string)

  /** What a state says about a symbol. */
  function StatusOf(s: State, x: string): Status {
    if x in s.knownSymbols then (if x in s.removedSymbols then Both(s.knownSymbols[x]) else Known(s.knownSymbols[x]))
    else if x in s.removedSymbols then Removed
    else Unmentioned
  }

  /** What an event says about its symbol. */
  function Verdict(e: Event): Status {
    if Defines(e) then Known(e.kind) else Removed
  }

  lemma StatusNext(h: Digest, s: State, es: seq<Event>, e: Event, x: string)
    ensures StatusOf(After(h, s, es + [e]), x) ==
              if e.SessionStart? then Unmentioned
              else if Touches(e, x) then Verdict(e)
              else StatusOf(After(h, s, es), x)
  {
    OneMore(h, s, es, e);
  }

  /** A symbol is known with the kind its last event gives and removed if that event removes it. Without
      such an event a session start leaves it unmentioned, and without that it stays as it was. */
  lemma {:induction false} SymbolsAreLastWords(h: Digest, s: State, es: seq<Event>, x: string)
    ensures forall i: nat :: LastWord(es, i, x) ==> StatusOf(After(h, s, es), x) == Verdict(es[i])
    ensures (forall i: nat :: !LastWord(es, i, x)) ==>
        StatusOf(After(h, s, es), x) == if SessionStart in es then Unmentioned else StatusOf(s, x)
  {
    if es == [] {
    } else {
      var n := |es| - 1;
      var init, e := es[..n], es[n];
      assert es == init + [e];
      SymbolsAreLastWords(h, s, init, x);
      StatusNext(h, s, init, e, x);
      assert SessionStart in es <==> SessionStart in init || e.SessionStart?;
      hide After, StatusOf, Verdict, Touches;
      forall i: nat | i < n
        ensures LastWord(es, i, x) <==> LastWord(init, i, x) && !e.SessionStart? && !Touches(e, x)
        ensures es[i] == init[i]
      {
        LastWordNext(init, e, i, x);
      }
      assert LastWord(es, n, x) <==> Touches(e, x);
      if i: nat :| LastWord(init, i, x) && !e.SessionStart? && !Touches(e, x) {
        assert LastWord(es, i, x);
      }
    }
  }

  lemma FilesNext(h: Digest, s: State, es: seq<Event>, e: Event)
    ensures After(h, s, es + [e]).knownFiles == FilesAfter(e, After(h, s, es).knownFiles)
  {
    OneMore(h, s, es, e);
  }

  lemma {:induction false} FilesAreSeen(h: Digest, s: State, es: seq<Event>, p: string)
    requires p !in s.knownFiles
    ensures p in After(h, s, es).knownFiles <==> exists i :: Seen(es, i, p)
  {
    if es == [] {
    } else {
      var n := |es| - 1;
      var init, e := es[..n], es[n];
      assert es == init + [e];
      FilesAreSeen(h, s, init, p);
      FilesNext(h, s, init, e);
      hide After;
      forall i: nat | i < n
        ensures Seen(es, i, p) <==> Seen(init, i, p) && !e.SessionStart?
      {
        SeenNext(init, e, i, p);
      }
      assert Seen(es, n, p) <==> e == FileSeen(p);
      if i :| Seen(init, i, p) && !e.SessionStart? {
        assert Seen(es, i, p);
      }
    }
  }

  /** The symbols whose last event defines them. */
  ghost function Defined(es: seq<Event>): (S: set<string>)
    ensures forall x :: x in S <==> exists i: nat :: LastWord(es, i, x) && Defines(es[i])
  {
    set i: nat | 0 <= i < |es| && Defines(es[i]) && LastWord(es, i, es[i].symbol) :: es[i].symbol
  }

  /** After any event the hash is that of the nodes and the edges known then, in this order. */
  lemma HashIsCurrent(h: Digest, s: State, es: seq<Event>)
    requires es != []
    ensures var t := After(h, s, es); t.invariantHash == h(|t.knownSymbols|, |t.knownEdges|)
  {
    hide SymbolsAfter, EdgesAfter, FilesAfter, RemovedSymbolsAfter;
  }

  /** From a blank state on, the hash is that of the number of symbols last defined and of lasting edges. */
  lemma HashIsOfCounts(h: Digest, s: State, es: seq<Event>)
    requires es != [] && s.knownEdges == [] && s.removedEdges == [] && s.knownSymbols == map[] && s.removedSymbols == {}
    ensures After(h, s, es).invariantHash == h(|Defined(es)|, |Survivors(es, |es|, true)|)
  {
    HashIsCurrent(h, s, es);
    EdgesAreSurvivors(h, s, es);
    hide After, Survivors;
    var known := After(h, s, es).knownSymbols;
    forall x
      ensures x in known <==> x in Defined(es)
    {
      SymbolsAreLastWords(h, s, es, x);
      assert x in known <==> StatusOf(After(h, s, es), x).Known? || StatusOf(After(h, s, es), x).Both?;
    }
    assert known.Keys == Defined(es);
  }

  // ------------------------------------------------------------ replaying a log

  function Opened(): State {
    State(0, "init", 0, "", 2, map[], [], {}, {}, [])
  }

  /** The state `verify_replay` starts from: the original, partly cleared. */
  function Cleared(s: State): State {
    s.(tick := 0, lastEventId := 0, knownSymbols := map[], knownEdges := [], knownFiles := {})
  }

  predicate Verified(h: Digest, original: State, es: seq<Event>) {
    Replay(h, Cleared(original), Numbered(es)) == Reached(original)
  }

  /** Edges among `gs` that replaying `es` leaves behind from the starting state. */
  function LeftBehind(gs: seq<Edge>, es: seq<Event>): (r: seq<Edge>)
    ensures forall g :: g in r <==> g in gs && SessionStart !in es && EdgeDefined(g) !in es
  {
    if es == [] then gs
    else
      var r := LeftBehind(gs, es[..|es| - 1]);
      var e := es[|es| - 1];
      assert es == es[..|es| - 1] + [e];
      if e.SessionStart? then [] else if e.EdgeDefined? then WithoutMembers(r, e.edge); Without(r, e.edge) else r
  }

  /** `a` is what `b` would be had it started from `s`: of the edges removed there, `left` are still there. */
  ghost predicate Shadows(s: State, a: State, b: State, left: seq<Edge>) {
    && a.knownSymbols == b.knownSymbols && a.knownEdges == b.knownEdges && a.knownFiles == b.knownFiles
    && a.tick == b.tick && a.lastEventId == b.lastEventId
    && a.removedEdges == left + b.removedEdges
    && a.removedSymbols <= s.removedSymbols + b.removedSymbols && b.removedSymbols <= a.removedSymbols
  }

  lemma ShadowsNext(h: Digest, s: State, a: State, b: State, left: seq<Edge>, d: Delta)
    requires Shadows(s, a, b, left)
    ensures Shadows(s, Step(h, a, d), Step(h, b, d), if d.event.SessionStart? then [] else
                                                     if d.event.EdgeDefined? then Without(left, d.event.edge) else left)
    ensures Step(h, a, d).invariantHash == Step(h, b, d).invariantHash
  {
    if d.event.EdgeDefined? {
      WithoutAppend(left, b.removedEdges, d.event.edge);
    }
  }

  /** Only the phase and the two lists of removals can tell the starting states apart. */
  lemma {:induction false} StartMatters(h: Digest, s: State, es: seq<Event>)
    requires s == Cleared(s)
    ensures Shadows(s, After(h, s, es), After(h, Opened(), es), LeftBehind(s.removedEdges, es))
    ensures es != [] ==> After(h, s, es).invariantHash == After(h, Opened(), es).invariantHash
  {
    if es == [] {
    } else {
      var init, e := es[..|es| - 1], es[|es| - 1];
      StartMatters(h, s, init);
      hide Step, Shadows;
      var d := Delta(Cap(Since(es)), Cap(Since(es)), e);
      ShadowsNext(h, s, After(h, s, init), After(h, Opened(), init), LeftBehind(s.removedEdges, init), d);
    }
  }

  lemma {:induction false} PhaseAfter(h: Digest, s: State, es: seq<Event>)
    ensures After(h, s, es).phase == if CompilationUnitFinished in es then "finished" else s.phase
    ensures After(h, s, es).graphVersion == s.graphVersion
  {
    if es == [] {
    } else {
      var init, e := es[..|es| - 1], es[|es| - 1];
      assert es == init + [e];
      PhaseAfter(h, s, init);
    }
  }

  lemma {:induction false} RemovalsAreLogged(h: Digest, es: seq<Event>, g: Edge)
    ensures g in After(h, Opened(), es).removedEdges ==> EdgeRemoved(g) in es
    ensures EdgeRemoved(g) in es && SessionStart !in es && EdgeDefined(g) !in es ==>
        g in After(h, Opened(), es).removedEdges
  {
    if es == [] {
    } else {
      var init, e := es[..|es| - 1], es[|es| - 1];
      assert es == init + [e];
      RemovalsAreLogged(h, init, g);
      if e.EdgeDefined? {
        WithoutMembers(After(h, Opened(), init).removedEdges, e.edge);
      }
    }
  }

  ghost predicate RemovalsMatched(es: seq<Event>) {
    forall g :: EdgeRemoved(g) in es ==> EdgeDefined(g) in es
  }

  /** A writer that starts a log: the replay is verified exactly when the log holds a session start
      or every edge it removes is also defined somewhere in it. */
  lemma FreshLogVerified(h: Digest, es: seq<Event>)
    requires Fits(es)
    ensures Verified(h, After(h, Opened(), es), es) <==> SessionStart in es || RemovalsMatched(es)
  {
    var b := After(h, Opened(), es);
    var s := Cleared(b);
    var a := After(h, s, es);
    ReplayAccepts(h, s, es);
    StartMatters(h, s, es);
    PhaseAfter(h, s, es);
    PhaseAfter(h, Opened(), es);
    var left := LeftBehind(b.removedEdges, es);
    assert a == b <==> left == [] by {
      assert |a.removedEdges| == |left| + |b.removedEdges|;
    }
    if SessionStart !in es {
      forall g
        ensures g in left <==> EdgeRemoved(g) in es && EdgeDefined(g) !in es
      {
        RemovalsAreLogged(h, es, g);
      }
    }
    assert left == [] <==> forall g :: g !in left by {
      if left != [] {
        var g := left[0];
        assert g in left;
      }
    }
  }

  // ------------------------------------------------------------ what a verified state is

  lemma {:induction false} LeftBehindAppend(gs: seq<Edge>, fs: seq<Edge>, es: seq<Event>)
    ensures LeftBehind(gs + fs, es) == LeftBehind(gs, es) + LeftBehind(fs, es)
  {
    if es == [] {
    } else {
      var n := |es| - 1;
      LeftBehindAppend(gs, fs, es[..n]);
      if es[n].EdgeDefined? {
        WithoutAppend(LeftBehind(gs, es[..n]), LeftBehind(fs, es[..n]), es[n].edge);
      }
    }
  }

  lemma {:induction false} LeftAlone(gs: seq<Edge>, es: seq<Event>)
    requires SessionStart !in es && forall g :: g in gs ==> EdgeDefined(g) !in es
    ensures LeftBehind(gs, es) == gs
  {
    if es == [] {
    } else {
      var n := |es| - 1;
      assert es == es[..n] + [es[n]];
      LeftAlone(gs, es[..n]);
      if es[n].EdgeDefined? {
        WithoutMembers(gs, es[n].edge);
      }
    }
  }

  /** The removed edges of `s` are those the log removes for good, after others it never defines. */
  ghost predicate RemovalsTold(s: State, es: seq<Event>) {
    if SessionStart in es then s.removedEdges == Survivors(es, |es|, false)
    else exists kept :: RemovedBefore(s, es, kept)
  }

  ghost predicate RemovedBefore(s: State, es: seq<Event>, kept: seq<Edge>) {
    && s.removedEdges == kept + Survivors(es, |es|, false)
    && (forall g :: g in kept ==> EdgeDefined(g) !in es)
    && forall g :: g in Survivors(es, |es|, false) ==> EdgeDefined(g) in es
  }

  lemma RemovalsAgree(s: State, es: seq<Event>)
    ensures s.removedEdges == LeftBehind(s.removedEdges, es) + Survivors(es, |es|, false) <==> RemovalsTold(s, es)
  {
    var left, lasting := LeftBehind(s.removedEdges, es), Survivors(es, |es|, false);
    hide Survivors, LeftBehind;
    if SessionStart in es {
      NoneIn(left);
      assert [] + lasting == lasting;
    } else {
      hide RemovedBefore;
      if s.removedEdges == left + lasting {
        LeftIsBefore(s, es);
      }
      if kept :| RemovedBefore(s, es, kept) {
        BeforeIsLeft(s, es, kept);
      }
    }
  }

  lemma LeftIsBefore(s: State, es: seq<Event>)
    requires SessionStart !in es && s.removedEdges == LeftBehind(s.removedEdges, es) + Survivors(es, |es|, false)
    ensures RemovedBefore(s, es, LeftBehind(s.removedEdges, es))
  {
    var left, lasting := LeftBehind(s.removedEdges, es), Survivors(es, |es|, false);
    LeftBehindAppend(left, lasting, es);
    LeftAlone(left, es);
    var gone := LeftBehind(lasting, es);
    hide Survivors, LeftBehind;
    assert |left + gone| == |left|;
    assert gone == [];
  }

  lemma BeforeIsLeft(s: State, es: seq<Event>, kept: seq<Edge>)
    requires SessionStart !in es && RemovedBefore(s, es, kept)
    ensures s.removedEdges == LeftBehind(s.removedEdges, es) + Survivors(es, |es|, false)
  {
    var lasting := Survivors(es, |es|, false);
    LeftBehindAppend(kept, lasting, es);
    LeftAlone(kept, es);
    NoneIn(LeftBehind(lasting, es));
    hide Survivors, LeftBehind;
    assert kept + [] == kept;
  }

  lemma NoneIn(gs: seq<Edge>)
    ensures (forall g :: g !in gs) ==> gs == []
  {
    if gs != [] {
      assert gs[0] in gs;
    }
  }

  /** What `s` says about `x` is what the log says; a symbol it does not mention may only be one that was
      removed before, and not even that after a session start. */
  ghost predicate SymbolTold(s: State, es: seq<Event>, x: string) {
    && (forall i: nat :: LastWord(es, i, x) ==> StatusOf(s, x) == Verdict(es[i]))
    && ((forall i: nat :: !LastWord(es, i, x)) ==>
          x !in s.knownSymbols && (SessionStart in es ==> x !in s.removedSymbols))
  }

  /** `s` is what the log tells, component by component, with no reference to replaying it. */
  ghost predicate Told(h: Digest, s: State, es: seq<Event>) {
    && Fits(es) && s.tick == s.lastEventId == Since(es)
    && (CompilationUnitFinished in es ==> s.phase == "finished")
    && (es != [] ==> s.invariantHash == h(|s.knownSymbols|, |s.knownEdges|))
    && (forall x :: SymbolTold(s, es, x))
    && s.knownEdges == Survivors(es, |es|, true) && RemovalsTold(s, es)
    && forall p :: p in s.knownFiles <==> exists i :: Seen(es, i, p)
  }

  lemma SameSymbols(a: State, b: State)
    requires forall x :: StatusOf(a, x) == StatusOf(b, x)
    ensures a.knownSymbols == b.knownSymbols && a.removedSymbols == b.removedSymbols
  {
    forall x
      ensures x in a.knownSymbols <==> x in b.knownSymbols
      ensures x in a.removedSymbols <==> x in b.removedSymbols
      ensures x in a.knownSymbols && x in b.knownSymbols ==> a.knownSymbols[x] == b.knownSymbols[x]
    {
      assert StatusOf(a, x) == StatusOf(b, x);
    }
  }

  lemma SymbolAgrees(h: Digest, s: State, es: seq<Event>, x: string)
    ensures StatusOf(After(h, Cleared(s), es), x) == StatusOf(s, x) <==> SymbolTold(s, es, x)
  {
    SymbolsAreLastWords(h, Cleared(s), es, x);
    hide After, Verdict;
    if i: nat :| LastWord(es, i, x) {
      assert StatusOf(After(h, Cleared(s), es), x) == Verdict(es[i]);
    }
  }

  lemma SymbolsAgree(h: Digest, s: State, es: seq<Event>)
    ensures var a := After(h, Cleared(s), es);
      a.knownSymbols == s.knownSymbols && a.removedSymbols == s.removedSymbols <==> forall x :: SymbolTold(s, es, x)
  {
    var a := After(h, Cleared(s), es);
    hide After, SymbolTold, Cleared;
    forall x
      ensures StatusOf(a, x) == StatusOf(s, x) <==> SymbolTold(s, es, x)
    {
      SymbolAgrees(h, s, es, x);
    }
    if forall x :: SymbolTold(s, es, x) {
      SameSymbols(a, s);
    }
  }

  lemma FilesAgree(h: Digest, s: State, es: seq<Event>)
    ensures After(h, Cleared(s), es).knownFiles == s.knownFiles <==>
        forall p :: p in s.knownFiles <==> exists i :: Seen(es, i, p)
  {
    var files := After(h, Cleared(s), es).knownFiles;
    forall p
      ensures p in files <==> exists i :: Seen(es, i, p)
    {
      FilesAreSeen(h, Cleared(s), es, p);
    }
    hide After, Seen;
    assert (forall p :: p in s.knownFiles <==> exists i :: Seen(es, i, p)) ==> files == s.knownFiles;
  }

  /** Replay verifies a state against a log exactly when every component is what the log tells. */
  lemma VerifiedIsTold(h: Digest, s: State, es: seq<Event>)
    ensures Verified(h, s, es) <==> Told(h, s, es)
  {
    var start := Cleared(s);
    var a := After(h, start, es);
    ReplayAccepts(h, start, es);
    TickIsLastId(h, start, es);
    PhaseAfter(h, start, es);
    StartMatters(h, start, es);
    EdgesAreSurvivors(h, Opened(), es);
    RemovalsAgree(s, es);
    SymbolsAgree(h, s, es);
    FilesAgree(h, s, es);
    if es != [] {
      HashIsCurrent(h, start, es);
    }
    hide After, Survivors, RemovalsTold, SymbolTold, LeftBehind, Seen, Fits, Since;
  }

  predicate SameButPhase(a: State, b: State) {
    a == b.(phase := a.phase, graphVersion := a.graphVersion)
  }

  /** The same up to the hash as well, which the next event computes afresh. */
  predicate SameRecords(a: State, b: State) {
    a == b.(phase := a.phase, graphVersion := a.graphVersion, invariantHash := a.invariantHash)
  }

  lemma StepForgets(h: Digest, a: State, b: State, d: Delta)
    requires SameRecords(a, b) || d.event.SessionStart?
    ensures SameButPhase(Step(h, a, d), Step(h, b, d)) && SameRecords(Step(h, a, d), Step(h, b, d))
  {
  }

  /** From a session start on, neither the starting state nor what was logged before matters, the
      phase and the schema version aside. */
  lemma {:induction false} SessionForgets(h: Digest, s: State, t: State, pre: seq<Event>, es: seq<Event>)
    requires SessionStart in es
    ensures SameButPhase(After(h, s, pre + es), After(h, t, es)) && SameRecords(After(h, s, pre + es), After(h, t, es))
    ensures Since(pre + es) == Since(es)
  {
    hide Step, SameButPhase, SameRecords;
    var n := |es| - 1;
    var init, e := es[..n], es[n];
    assert es == init + [e];
    var all := pre + es;
    assert all == (pre + init) + [e];
    assert all[..|all| - 1] == pre + init && all[|all| - 1] == e;
    if !e.SessionStart? {
      SessionForgets(h, s, t, pre, init);
    }
    StepForgets(h, After(h, s, pre + init), After(h, t, init), Delta(Cap(Since(es)), Cap(Since(es)), e));
  }

  predicate EndsSession(es: seq<Event>) {
    es != [] && es[|es| - 1].SessionStart?
  }

  lemma SessionIsBlank(h: Digest, s: State, es: seq<Event>)
    requires EndsSession(es)
    ensures SameRecords(After(h, s, es), Opened()) && Since(es) == 0
    ensures After(h, s, es).invariantHash == h(0, 0)
  {
  }

  /** A log that ends with a session start leaves nothing but the phase and the hash behind. */
  lemma {:induction false} StartsOver(h: Digest, s: State, pre: seq<Event>, es: seq<Event>)
    requires EndsSession(pre)
    ensures SameRecords(After(h, s, pre + es), After(h, Opened(), es))
    ensures es != [] ==> SameButPhase(After(h, s, pre + es), After(h, Opened(), es))
    ensures Since(pre + es) == Since(es)
  {
    if es == [] {
      assert pre + es == pre;
      SessionIsBlank(h, s, pre);
    } else {
      hide Step, SameButPhase, SameRecords, Opened, After, Since;
      var init, e := es[..|es| - 1], es[|es| - 1];
      assert es == init + [e] && pre + es == (pre + init) + [e];
      StartsOver(h, s, pre, init);
      OneMore(h, s, pre + init, e);
      OneMore(h, Opened(), init, e);
      StepForgets(h, After(h, s, pre + init), After(h, Opened(), init), Delta(Cap(Since(es)), Cap(Since(es)), e));
    }
  }

  lemma {:induction false} SinceGoesOn(pre: seq<Event>, es: seq<Event>)
    requires SessionStart !in es
    ensures Since(pre + es) == Since(pre) + |es| && Since(es) == |es|
  {
    if es == [] {
      assert pre + es == pre;
    } else {
      var n := |es| - 1;
      var all := pre + es;
      assert es == es[..n] + [es[n]];
      assert all[..|all| - 1] == pre + es[..n] && all[|all| - 1] == es[n];
      SinceGoesOn(pre, es[..n]);
    }
  }

  /** When the replay of an earlier log and this writer's events gives this writer's state. */
  ghost predicate ReplayRebuilds(h: Digest, prior: seq<Event>, es: seq<Event>) {
    if prior == [] then SessionStart in es || RemovalsMatched(es)
    else
      && Fits(prior + es) && (CompilationUnitFinished in prior ==> CompilationUnitFinished in es)
      && (SessionStart in es || (EndsSession(prior) && (es == [] ==> h(0, 0) == "")))
  }

  /** A writer that appends to an earlier log: the replay of the whole is verified exactly when no session
      overflows the counter, the earlier log did not reach the finished phase without this one doing so,
      and a session start separates the two. A writer with nothing written has no hash yet. */
  lemma AppendedLogVerified(h: Digest, prior: seq<Event>, es: seq<Event>)
    requires Fits(es)
    ensures Verified(h, After(h, Opened(), es), prior + es) <==> ReplayRebuilds(h, prior, es)
  {
    if prior == [] {
      assert prior + es == es;
      FreshLogVerified(h, es);
    } else {
      var b := After(h, Opened(), es);
      var s := Cleared(b);
      ReplayAccepts(h, s, prior + es);
      PhaseAfter(h, s, prior + es);
      PhaseAfter(h, Opened(), es);
      assert "init"[0] == 'i' && "finished"[0] == 'f';
      if SessionStart in es {
        SessionForgets(h, s, Opened(), prior, es);
      } else if EndsSession(prior) {
        StartsOver(h, s, prior, es);
        if es == [] {
          SessionIsBlank(h, s, prior);
          assert prior + es == prior;
        }
      } else {
        SinceGoesOn(prior, es);
        ReplayAccepts(h, Opened(), es);
      }
    }
  }

  /** Removing an edge nobody defined doubles the removal on replay. */
  lemma LoneRemovalBreaksReplay(h: Digest, g: Edge)
    ensures !Verified(h, After(h, Opened(), [EdgeRemoved(g)]), [EdgeRemoved(g)])
  {
    var es := [EdgeRemoved(g)];
    assert es[..0] == [];
    assert Since(es) == 1;
    FreshLogVerified(h, es);
    assert EdgeRemoved(g) in es && EdgeDefined(g) !in es;
  }

  /** A session start does not reset the phase. */
  lemma EarlierFinishBreaksReplay(h: Digest)
    ensures !Verified(h, After(h, Opened(), [SessionStart]), [CompilationUnitFinished] + [SessionStart])
  {
    var es := [SessionStart];
    assert es[..0] == [];
    assert es[0] == SessionStart;
    assert Fits(es);
    var prior := [CompilationUnitFinished];
    assert prior[0] == CompilationUnitFinished;
    AppendedLogVerified(h, prior, es);
  }

  // ------------------------------------------------------------ the log's lines

  /** The compiler events among the lines. */
  function Events(lines: seq<Line>): seq<Event> {
    if lines == [] then []
    else if lines[|lines| - 1].Code? then Events(lines[..|lines| - 1]) + [lines[|lines| - 1].event]
    else Events(lines[..|lines| - 1])
  }

  /** The reader takes the lines one by one: a foreign one counts for nothing. */
  lemma {:induction false} EventsAreCodeLines(xs: seq<Line>, line: Line, ys: seq<Line>)
    ensures Events(xs + [line] + ys) == Events(xs) + (if line.Code? then [line.event] else []) + Events(ys)
  {
    var all := xs + [line] + ys;
    if ys == [] {
      assert all[..|all| - 1] == xs && all[|all| - 1] == line;
    } else {
      var n := |ys| - 1;
      assert all[..|all| - 1] == xs + [line] + ys[..n] && all[|all| - 1] == ys[n];
      EventsAreCodeLines(xs, line, ys[..n]);
    }
  }

  /** The reader's variables after the events `es`. */
  ghost predicate Counting(es: seq<Event>, out: seq<Delta>, tick: u64, nextId: u64) {
    out == Numbered(es) && tick == Cap(Since(es)) && nextId == Cap(Since(es) + 1)
  }

  lemma CountNext(es: seq<Event>, out: seq<Delta>, tick: u64, nextId: u64, e: Event)
    requires Counting(es, out, tick, nextId)
    ensures e.SessionStart? ==> Counting(es + [e], out + [Delta(0, 0, e)], 0, 1)
    ensures !e.SessionStart? ==>
              var tick' := SaturatingAdd(tick, 1);
              Counting(es + [e], out + [Delta(nextId, tick', e)], tick', SaturatingAdd(nextId, 1))
  {
    assert (es + [e])[..|es|] == es;
  }

  lemma EventsNext(lines: seq<Line>, i: nat)
    requires i < |lines|
    ensures var before := Events(lines[..i]);
            Events(lines[..i + 1]) == if lines[i].Code? then before + [lines[i].event] else before
  {
    assert lines[..i + 1][..i] == lines[..i];
  }

  /** Number the events again from one, starting over at each session. */
  method ReadDeltas(lines: seq<Line>) returns (out: seq<Delta>)
    ensures out == Numbered(Events(lines))
  {
    out := [];
    var nextId: u64, tick: u64 := 1, 0;
    assert Events(lines[..0]) == [] && Counting([], out, tick, nextId);
    hide Events, Counting, SaturatingAdd;
    for i := 0 to |lines|
      invariant Counting(Events(lines[..i]), out, tick, nextId)
    {
      EventsNext(lines, i);
      if lines[i].Foreign? {
        continue;
      }
      var event := lines[i].event;
      CountNext(Events(lines[..i]), out, tick, nextId, event);
      if event.SessionStart? {
        nextId, tick := 1, 0;
        out := out + [Delta(0, 0, event)];
        continue;
      }
      tick := SaturatingAdd(tick, 1);
      out := out + [Delta(nextId, tick, event)];
      nextId := SaturatingAdd(nextId, 1);
    }
    assert lines[..|lines|] == lines;
    CountedIsNumbered(Events(lines), out, tick, nextId);
  }

  lemma CountedIsNumbered(es: seq<Event>, out: seq<Delta>, tick: u64, nextId: u64)
    requires Counting(es, out, tick, nextId)
    ensures out == Numbered(es)
  {
  }

  // ------------------------------------------------------------ the mutable state

  class RustcState {
    const digest: Digest
    var tick: u64
    var phase: string
    var lastEventId: u64
    var invariantHash: string
    var graphVersion: u64
    var knownSymbols: map<string, string>
    var knownEdges: seq<Edge>
    var knownFiles: set<string>
    var removedSymbols: set<string>
    var removedEdges: seq<Edge>

    function View(): State
      reads this
    {
      State(tick, phase, lastEventId, invariantHash, graphVersion, knownSymbols, knownEdges, knownFiles,
          removedSymbols, removedEdges)
    }

    constructor (digest: Digest, s: State)
      ensures this.digest == digest && View() == s
    {
      this.digest := digest;
      tick, phase, lastEventId, invariantHash, graphVersion :=
          s.tick, s.phase, s.lastEventId, s.invariantHash, s.graphVersion;
      knownSymbols, knownEdges, knownFiles := s.knownSymbols, s.knownEdges, s.knownFiles;
      removedSymbols, removedEdges := s.removedSymbols, s.removedEdges;
    }

    /** Fold one event into the state; a stale id is an error and changes nothing. */
    method ApplyDelta(delta: Delta) returns (ok: bool)
      modifies this
      ensures ok <==> delta.id > old(lastEventId) || delta.event.SessionStart?
      ensures View() == if ok then Step(digest, old(View()), delta) else old(View())
    {
      if delta.id <= lastEventId && !delta.event.SessionStart? {
        return false;
      }
      tick := delta.tick;
      lastEventId := delta.id;
      Fold(delta.event);
      invariantHash := digest(|knownSymbols|, |knownEdges|);
      ok := true;
    }

    /** What the event itself says. */
    method Fold(event: Event)
      modifies this`lastEventId, this`phase, this`knownSymbols, this`knownEdges, this`knownFiles,
          this`removedSymbols, this`removedEdges
      ensures lastEventId == if event.SessionStart? then 0 else old(lastEventId)
      ensures phase == if event.CompilationUnitFinished? then "finished" else old(phase)
      ensures knownSymbols == SymbolsAfter(event, old(knownSymbols))
      ensures removedSymbols == RemovedSymbolsAfter(event, old(removedSymbols))
      ensures knownEdges == EdgesAfter(event, old(knownEdges), true)
      ensures removedEdges == EdgesAfter(event, old(removedEdges), false)
      ensures knownFiles == FilesAfter(event, old(knownFiles))
    {
      match event {
        case NodeDefined(symbol, kind) =>
          knownSymbols := knownSymbols[symbol := kind];
          removedSymbols := removedSymbols - {symbol};
        case NodeUpdated(symbol, kind) =>
          knownSymbols := knownSymbols[symbol := kind];
          removedSymbols := removedSymbols - {symbol};
        case NodeRemoved(symbol) =>
          knownSymbols := knownSymbols - {symbol};
          removedSymbols := removedSymbols + {symbol};
        case EdgeDefined(edge) =>
          knownEdges := knownEdges + [edge];
          removedEdges := Without(removedEdges, edge);
        case EdgeRemoved(edge) =>
          knownEdges := Without(knownEdges, edge);
          removedEdges := removedEdges + [edge];
        case FileSeen(path) =>
          knownFiles := knownFiles + {path};
        case SessionStart =>
          lastEventId := 0;
          knownSymbols, knownEdges, knownFiles := map[], [], {};
          removedSymbols, removedEdges := {}, [];
        case CompilationUnitFinished =>
          phase := "finished";
        case _ =>
      }
    }

    /** Apply deltas until one is rejected. */
    method ReplayEvents(deltas: seq<Delta>) returns (ok: bool)
      modifies this
      ensures ok <==> Replay(digest, old(View()), deltas).Reached?
      ensures ok ==> Replay(digest, old(View()), deltas) == Reached(View())
    {
      for i := 0 to |deltas|
        invariant Replay(digest, old(View()), deltas[..i]) == Reached(View())
      {
        var accepted := ApplyDelta(deltas[i]);
        assert deltas[..i + 1][..i] == deltas[..i];
        if !accepted {
          RejectedStaysRejected(digest, old(View()), deltas, i + 1);
          return false;
        }
      }
      assert deltas[..|deltas|] == deltas;
      ok := true;
    }
  }

  lemma {:induction false} RejectedStaysRejected(h: Digest, s: State, ds: seq<Delta>, k: nat)
    requires k <= |ds| && Replay(h, s, ds[..k]) == Rejected
    ensures Replay(h, s, ds) == Rejected
    decreases |ds|
  {
    if k == |ds| {
      assert ds[..k] == ds;
    } else {
      assert ds[..|ds| - 1][..k] == ds[..k];
      RejectedStaysRejected(h, s, ds[..|ds| - 1], k);
    }
  }

  /** Replay the log from the partly cleared original and compare. */
  method VerifyReplay(digest: Digest, original: State, lines: seq<Line>) returns (ok: bool)
    ensures ok <==> Verified(digest, original, Events(lines))
    ensures ok <==> Told(digest, original, Events(lines))
  {
    VerifiedIsTold(digest, original, Events(lines));
    hide Told;
    var replayed := new RustcState(digest, Cleared(original));
    var deltas := ReadDeltas(lines);
    var replay := replayed.ReplayEvents(deltas);
    if !replay {
      return false;
    }
    if replayed.View() != original {
      return false;
    }
    if replayed.removedSymbols != original.removedSymbols || replayed.removedEdges != original.removedEdges {
      return false;
    }
    ok := true;
  }

  // ------------------------------------------------------------ the writer

  class TlogWriter {
    var nextEventId: u64
    var nextTick: u64
    const state: RustcState
    /** The events this writer has appended. */
    var written: seq<Event>

    /** The counters and the state are those of the events written, and no session overflowed. */
    ghost predicate Valid()
      reads this, state
    {
      && Fits(written)
      && nextEventId == Since(written) && nextTick == nextEventId
      && state.View() == After(state.digest, Opened(), written)
      && state.tick == state.lastEventId == nextEventId
      && Separate(state.View())
    }

    constructor (digest: Digest)
      ensures Valid() && written == [] && fresh(state) && state.digest == digest
      ensures state.View() == State(0, "init", 0, "", 2, map[], [], {}, {}, [])
    {
      nextEventId, nextTick, written := 0, 0, [];
      state := new RustcState(digest, Opened());
    }

    /** An event is refused only when the counter has saturated; then nothing changes. */
    method Emit(event: Event) returns (ok: bool)
      requires Valid()
      modifies this, state
      ensures Valid()
      ensures ok <==> event.SessionStart? || Since(old(written)) < U64_MAX
      ensures written == if ok then old(written) + [event] else old(written)
      ensures !ok ==> state.View() == old(state.View())
    {
      hide Step, Separate, After, Fits, Since;
      OneMore(state.digest, Opened(), written, event);
      var id: u64 := 0;
      if event.SessionStart? {
        nextEventId, nextTick := 0, 0;
      } else {
        nextTick := SaturatingAdd(nextTick, 1);
        nextEventId := SaturatingAdd(nextEventId, 1);
        id := nextEventId;
      }
      var delta := Delta(id, nextTick, event);
      StepKeepsSeparate(state.digest, state.View(), delta);
      StepCounts(state.digest, state.View(), delta);
      ok := state.ApplyDelta(delta);
      if ok {
        written := written + [event];
      }
    }
  }

  /** The events as lines of the log. */
  function Lines(es: seq<Event>): (r: seq<Line>)
    ensures |r| == |es|
  {
    seq(|es|, i requires 0 <= i < |es| => Code(es[i]))
  }

  lemma {:induction false} EventsOfLines(prior: seq<Line>, es: seq<Event>)
    ensures Events(prior + Lines(es)) == Events(prior) + es
  {
    if es == [] {
      assert prior + Lines(es) == prior;
    } else {
      var n := |es| - 1;
      var all := prior + Lines(es);
      assert all[..|all| - 1] == prior + Lines(es[..n]) && all[|all| - 1] == Code(es[n]);
      EventsOfLines(prior, es[..n]);
      assert es == es[..n] + [es[n]];
    }
  }

  /** A whole run: a writer appends what it accepts of `attempts` to an earlier log, and the log is
      verified against the writer's state. */
  method WriteThenVerify(digest: Digest, prior: seq<Line>, attempts: seq<Event>) returns (ok: bool, written: seq<Event>)
    ensures Fits(written) && (Fits(attempts) ==> written == attempts)
    ensures ok <==> ReplayRebuilds(digest, Events(prior), written)
  {
    var writer := new TlogWriter(digest);
    for i := 0 to |attempts|
      invariant writer.Valid() && writer.state.digest == digest && fresh(writer) && fresh(writer.state)
      invariant Fits(attempts[..i]) ==> writer.written == attempts[..i]
    {
      hide After, Step, Numbered;
      var accepted := writer.Emit(attempts[i]);
      assert attempts[..i + 1] == attempts[..i] + [attempts[i]];
      OneMore(digest, Opened(), attempts[..i], attempts[i]);
    }
    assert attempts[..|attempts|] == attempts;
    written := writer.written;
    EventsOfLines(prior, written);
    ok := VerifyReplay(digest, writer.state.View(), prior + Lines(written));
    AppendedLogVerified(digest, Events(prior), written);
  }
}
