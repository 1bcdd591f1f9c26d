/** The node arena as far as types go: what a node denotes, and why deduplication makes ids structural. */
module TypeArena {
  import opened Lists
  import opened Options
  import opened PathForm

  datatype Prim =
    | Bool | Char | Str | U8 | U16 | U32 | U64 | U128 | Usize
    | I8 | I16 | I32 | I64 | I128 | Isize | F32 | F64 | Unit | Never

  /** Type expressions as captured from the compiler. */
  datatype TypeExpr =
    | Primitive(prim: Prim)
    | Ref(lifetime: Option<string>, inner: TypeExpr, mutable: bool)
    | RawPtr(inner: TypeExpr, mutable: bool)
    | Array(inner: TypeExpr, len: Option<nat>)
    | Slice(inner: TypeExpr)
    | Tuple(items: seq<TypeExpr>)
    | FnPtr(params: seq<TypeExpr>, ret: TypeExpr)
    | Param(name: string)
    | DynTrait(path: string)
    | ImplTrait(path: string)
    | Path(path: string)
    | AppliedPath(base: string, args: seq<TypeExpr>)

  /** The content of a type node: children are node ids, names and paths are ids in their tables. */
  datatype TypeKind =
    | KPrimitive(prim: Prim)
    | KRef(lifetime: Option<nat>, inner: nat, mutable: bool)
    | KRawPtr(inner: nat, mutable: bool)
    | KArray(inner: nat, len: nat)
    | KSlice(inner: nat)
    | KTuple(items: seq<nat>)
    | KFnPtr(sig: nat)
    | KParam(nameId: nat)
    | KDynTrait(trait_: nat)
    | KImplTrait(trait_: nat)
    | KExtern(pathId: nat)
    | KApplied(base: nat, args: seq<nat>)

  /** The two tables of interned strings. */
  datatype Strings = Strings(names: seq<string>, paths: seq<string>)

  predicate Extends(a: Strings, b: Strings) {
    a.names <= b.names && a.paths <= b.paths
  }

  datatype Node =
    | TypeNode(kind: TypeKind)
    | LifetimeNode(nameId: nat)
    | ParamNode(nameId: nat, ty: nat)
    | FnSigNode(params: seq<nat>, ret: nat)
    | TypeRefNode(nameId: nat)
    | OtherNode(tag: nat)

  // ------------------------------------------------------------------ well-formed arenas

  predicate IsType(nodes: seq<Node>, id: nat) {
    id < |nodes| && nodes[id].TypeNode?
  }

  /** All references of node `i` point at earlier nodes of the right sort and at known strings. */
  ghost predicate NodeOk(nodes: seq<Node>, strings: Strings, i: nat)
    requires i < |nodes|
  {
    match nodes[i]
    case LifetimeNode(n) => n < |strings.names|
    case TypeRefNode(n) => n < |strings.names|
    case ParamNode(n, ty) => n < |strings.names| && ty < i && IsType(nodes, ty)
    case FnSigNode(ps, ret) =>
      && ret < i && IsType(nodes, ret)
      && forall k :: 0 <= k < |ps| ==> ps[k] < i && ps[k] < |nodes| && nodes[ps[k]].ParamNode?
    case OtherNode(_) => true
    case TypeNode(kind) => KindOk(nodes, strings, i, kind)
  }

  ghost predicate KindOk(nodes: seq<Node>, strings: Strings, i: nat, kind: TypeKind) {
    match kind
    case KPrimitive(_) => true
    case KRef(lt, inner, _) =>
      && inner < i && IsType(nodes, inner)
      && (lt.Some? ==> lt.value < i && lt.value < |nodes| && nodes[lt.value].LifetimeNode?)
    case KRawPtr(inner, _) => inner < i && IsType(nodes, inner)
    case KArray(inner, _) => inner < i && IsType(nodes, inner)
    case KSlice(inner) => inner < i && IsType(nodes, inner)
    case KTuple(items) => forall k :: 0 <= k < |items| ==> items[k] < i && IsType(nodes, items[k])
    case KFnPtr(sig) => sig < i && sig < |nodes| && nodes[sig].FnSigNode?
    case KParam(n) => n < |strings.names|
    case KDynTrait(t) => t < i && t < |nodes| && nodes[t].TypeRefNode?
    case KImplTrait(t) => t < i && t < |nodes| && nodes[t].TypeRefNode?
    case KExtern(p) => p < |strings.paths|
    case KApplied(base, args) =>
      && base < i && IsType(nodes, base) && nodes[base].kind.KExtern?
      && forall k :: 0 <= k < |args| ==> args[k] < i && IsType(nodes, args[k])
  }

  ghost predicate Arena(nodes: seq<Node>, strings: Strings) {
    forall i :: 0 <= i < |nodes| ==> NodeOk(nodes, strings, i)
  }

  // --------------------------------------------------------------------- what a node means

  ghost function Read(nodes: seq<Node>, strings: Strings, id: nat): TypeExpr
    requires Arena(nodes, strings) && IsType(nodes, id)
    decreases id, 2, 0
  {
    assert NodeOk(nodes, strings, id);
    ReadKind(nodes, strings, nodes[id].kind, id)
  }

  /** What a type node with this content denotes; its children lie below `below`. */
  ghost function ReadKind(nodes: seq<Node>, strings: Strings, kind: TypeKind, below: nat): TypeExpr
    requires Arena(nodes, strings) && KindOk(nodes, strings, below, kind)
    decreases below, 1, 0
  {
    match kind
    case KPrimitive(p) => Primitive(p)
    case KRef(lt, inner, m) =>
      Ref(if lt.None? then None else Some(NameOf(nodes, strings, lt.value)), Read(nodes, strings, inner), m)
    case KRawPtr(inner, m) => RawPtr(Read(nodes, strings, inner), m)
    case KArray(inner, len) => Array(Read(nodes, strings, inner), Some(len))
    case KSlice(inner) => Slice(Read(nodes, strings, inner))
    case KTuple(items) => Tuple(ReadAll(nodes, strings, items, below))
    case KFnPtr(sig) => assert NodeOk(nodes, strings, sig);
      FnPtr(ReadParams(nodes, strings, nodes[sig].params, sig), Read(nodes, strings, nodes[sig].ret))
    case KParam(n) => Param(strings.names[n])
    case KDynTrait(t) => DynTrait(NameOf(nodes, strings, t))
    case KImplTrait(t) => ImplTrait(NameOf(nodes, strings, t))
    case KExtern(p) => Path(strings.paths[p])
    case KApplied(base, args) =>
      assert NodeOk(nodes, strings, base);
      AppliedPath(strings.paths[nodes[base].kind.pathId], ReadAll(nodes, strings, args, below))
  }

  /** The name a lifetime or trait reference carries. */
  ghost function NameOf(nodes: seq<Node>, strings: Strings, id: nat): string
    requires Arena(nodes, strings) && id < |nodes| && (nodes[id].LifetimeNode? || nodes[id].TypeRefNode?)
  {
    assert NodeOk(nodes, strings, id);
    strings.names[nodes[id].nameId]
  }

  ghost function ReadAll(nodes: seq<Node>, strings: Strings, ids: seq<nat>, below: nat): (r: seq<TypeExpr>)
    requires Arena(nodes, strings) && forall k :: 0 <= k < |ids| ==> ids[k] < below && IsType(nodes, ids[k])
    ensures |r| == |ids|
    decreases below, 0, |ids|
  {
    if ids == [] then []
    else ReadAll(nodes, strings, ids[..|ids| - 1], below) + [Read(nodes, strings, ids[|ids| - 1])]
  }

  ghost function ReadParams(nodes: seq<Node>, strings: Strings, ids: seq<nat>, below: nat): (r: seq<TypeExpr>)
    requires Arena(nodes, strings)
    requires forall k :: 0 <= k < |ids| ==> ids[k] < below && ids[k] < |nodes| && nodes[ids[k]].ParamNode?
    ensures |r| == |ids|
    decreases below, 0, |ids|
  {
    if ids == [] then []
    else
      var last := ids[|ids| - 1];
      assert NodeOk(nodes, strings, last);
      ReadParams(nodes, strings, ids[..|ids| - 1], below) + [Read(nodes, strings, nodes[last].ty)]
  }

  /** Allocator arguments are implicit in the source language and are left out. */
  predicate Dropped(t: TypeExpr) {
    t.Path? && Contains(t.path, "alloc::Global")
  }

  function Kept(ts: seq<TypeExpr>): seq<TypeExpr> {
    if ts == [] then []
    else if Dropped(ts[|ts| - 1]) then Kept(ts[..|ts| - 1])
    else Kept(ts[..|ts| - 1]) + [ts[|ts| - 1]]
  }

  /** Each argument is judged on its own: a path that names the global allocator goes, all else stays in place. */
  lemma {:induction false} KeptIsFilter(xs: seq<TypeExpr>, t: TypeExpr, ys: seq<TypeExpr>)
    ensures Kept(xs + [t] + ys) ==
        Kept(xs) + (if t.Path? && Infix(t.path, "alloc::Global") then [] else [t]) + Kept(ys)
  {
    var all := xs + [t] + ys;
    if ys == [] {
      assert all[..|all| - 1] == xs && all[|all| - 1] == t;
      if t.Path? {
        ContainsIsInfix(t.path, "alloc::Global");
      }
    } else {
      hide Dropped, Infix;
      var n := |ys| - 1;
      assert all[..|all| - 1] == xs + [t] + ys[..n] && all[|all| - 1] == ys[n];
      KeptIsFilter(xs, t, ys[..n]);
    }
  }

  /** What interning forgets: an array of unknown length is stored as a slice, paths are brought into form,
      and allocator arguments are left out. */
  function Norm(t: TypeExpr): TypeExpr {
    match t
    case Ref(lt, inner, m) => Ref(lt, Norm(inner), m)
    case RawPtr(inner, m) => RawPtr(Norm(inner), m)
    case Array(inner, None) => Slice(Norm(inner))
    case Array(inner, Some(len)) => Array(Norm(inner), Some(len))
    case Slice(inner) => Slice(Norm(inner))
    case Tuple(items) => Tuple(NormAll(items))
    case FnPtr(params, ret) => FnPtr(NormAll(params), Norm(ret))
    case Primitive(_) => t
    case Param(_) => t
    case DynTrait(_) => t
    case ImplTrait(_) => t
    case Path(p) => Path(PathOf(p))
    case AppliedPath(base, args) => AppliedPath(PathOf(base), NormKept(args))
  }

  function NormKept(ts: seq<TypeExpr>): seq<TypeExpr> {
    if ts == [] then []
    else if Dropped(ts[|ts| - 1]) then NormKept(ts[..|ts| - 1])
    else NormKept(ts[..|ts| - 1]) + [Norm(ts[|ts| - 1])]
  }

  lemma {:induction false} KeptIsNormed(ts: seq<TypeExpr>)
    ensures NormKept(ts) == NormAll(Kept(ts))
  {
    if ts == [] {
    } else {
      var init, last := Kept(ts[..|ts| - 1]), ts[|ts| - 1];
      KeptIsNormed(ts[..|ts| - 1]);
      assert (init + [last])[..|init|] == init;
    }
  }

  function NormAll(ts: seq<TypeExpr>): (r: seq<TypeExpr>)
    ensures |r| == |ts|
  {
    if ts == [] then [] else NormAll(ts[..|ts| - 1]) + [Norm(ts[|ts| - 1])]
  }

  /** Types that interning keeps word for word: every array has a length, every path is in form already, and
      no argument is left out. */
  predicate Verbatim(t: TypeExpr) {
    match t
    case Ref(_, inner, _) => Verbatim(inner)
    case RawPtr(inner, _) => Verbatim(inner)
    case Array(inner, len) => len.Some? && Verbatim(inner)
    case Slice(inner) => Verbatim(inner)
    case Tuple(items) => AllVerbatim(items)
    case FnPtr(params, ret) => AllVerbatim(params) && Verbatim(ret)
    case Primitive(_) => true
    case Param(_) => true
    case DynTrait(_) => true
    case ImplTrait(_) => true
    case Path(p) => PathOf(p) == p
    case AppliedPath(base, args) => PathOf(base) == base && AllVerbatim(args) && NoneDropped(args)
  }

  predicate AllVerbatim(ts: seq<TypeExpr>) {
    ts == [] || (AllVerbatim(ts[..|ts| - 1]) && Verbatim(ts[|ts| - 1]))
  }

  predicate NoneDropped(ts: seq<TypeExpr>) {
    forall i :: 0 <= i < |ts| ==> !Dropped(ts[i])
  }

  /** Nothing else is kept word for word. */
  lemma {:induction false} NormIsIdentity(t: TypeExpr)
    ensures Norm(t) == t <==> Verbatim(t)
  {
    hide PathOf, Dropped, NormAll, NormKept, AllVerbatim, NoneDropped;
    match t
    case Ref(_, inner, _) => NormIsIdentity(inner);
    case RawPtr(inner, _) => NormIsIdentity(inner);
    case Array(inner, _) => NormIsIdentity(inner);
    case Slice(inner) => NormIsIdentity(inner);
    case Tuple(items) => NormAllIsIdentity(items);
    case FnPtr(params, ret) =>
      NormAllIsIdentity(params);
      NormIsIdentity(ret);
    case AppliedPath(_, args) => NormKeptIsIdentity(args);
    case _ =>
  }

  lemma SameLast<T>(xs: seq<T>, x: T, ys: seq<T>)
    requires ys != []
    ensures xs + [x] == ys <==> xs == ys[..|ys| - 1] && x == ys[|ys| - 1]
  {
    if xs + [x] == ys {
      assert (xs + [x])[..|xs|] == xs && (xs + [x])[|xs|] == x;
    }
    assert ys == ys[..|ys| - 1] + [ys[|ys| - 1]];
  }

  lemma {:induction false} NormAllIsIdentity(ts: seq<TypeExpr>)
    ensures NormAll(ts) == ts <==> AllVerbatim(ts)
  {
    if ts == [] {
    } else {
      var n := |ts| - 1;
      NormAllIsIdentity(ts[..n]);
      NormIsIdentity(ts[n]);
      hide Norm, Verbatim;
      SameLast(NormAll(ts[..n]), Norm(ts[n]), ts);
    }
  }

  lemma {:induction false} NormKeptIsIdentity(ts: seq<TypeExpr>)
    ensures |NormKept(ts)| <= |ts|
    ensures NormKept(ts) == ts <==> AllVerbatim(ts) && NoneDropped(ts)
  {
    if ts == [] {
    } else {
      var n := |ts| - 1;
      NormKeptIsIdentity(ts[..n]);
      NormIsIdentity(ts[n]);
      var front := NormKept(ts[..n]);
      assert NormKept(ts) == if Dropped(ts[n]) then front else front + [Norm(ts[n])];
      assert NoneDropped(ts) <==> NoneDropped(ts[..n]) && !Dropped(ts[n]) by {
        assert ts == ts[..n] + [ts[n]];
      }
      hide Norm, Verbatim, Dropped, NormKept, NoneDropped;
      SameLast(front, Norm(ts[n]), ts);
    }
  }

  /** Types whose nodes carry nothing but structure. Lifetimes, trait objects and function pointers
      get auxiliary nodes of their own each time. */
  predicate Shareable(t: TypeExpr) {
    match t
    case Ref(lt, inner, _) => lt.None? && Shareable(inner)
    case RawPtr(inner, _) => Shareable(inner)
    case Array(inner, _) => Shareable(inner)
    case Slice(inner) => Shareable(inner)
    case Tuple(items) => AllShareable(items)
    case FnPtr(_, _) => false
    case DynTrait(_) => false
    case ImplTrait(_) => false
    case Primitive(_) => true
    case Param(_) => true
    case Path(_) => true
    case AppliedPath(_, args) => AllShareable(args)
  }

  /** An argument left out is a path, which carries nothing but structure. */
  lemma {:induction false} KeptIsShareable(ts: seq<TypeExpr>)
    ensures AllShareable(Kept(ts)) == AllShareable(ts)
  {
    if ts == [] {
    } else {
      var init, last := Kept(ts[..|ts| - 1]), ts[|ts| - 1];
      KeptIsShareable(ts[..|ts| - 1]);
      assert (init + [last])[..|init|] == init;
    }
  }

  predicate AllShareable(ts: seq<TypeExpr>) {
    ts == [] || (AllShareable(ts[..|ts| - 1]) && Shareable(ts[|ts| - 1]))
  }

  // ------------------------------------------------------------- one level of a type

  /** The content's own fields are those of `t`, and its children read as the parts of `t`, in order. */
  ghost predicate Denotes(nodes: seq<Node>, strings: Strings, id: nat, t: TypeExpr)
    requires Arena(nodes, strings) && IsType(nodes, id)
  {
    assert NodeOk(nodes, strings, id);
    match nodes[id].kind
    case KPrimitive(p) => t.Primitive? && t.prim == p
    case KRef(lt, c, m) =>
      && t.Ref? && t.mutable == m && t.inner == Read(nodes, strings, c)
      && t.lifetime == if lt.Some? then Some(NameOf(nodes, strings, lt.value)) else None
    case KRawPtr(c, m) => t.RawPtr? && t.mutable == m && t.inner == Read(nodes, strings, c)
    case KArray(c, len) => t.Array? && t.len == Some(len) && t.inner == Read(nodes, strings, c)
    case KSlice(c) => t.Slice? && t.inner == Read(nodes, strings, c)
    case KTuple(ids) => t.Tuple? && ReadEach(nodes, strings, ids, id, t.items)
    case KFnPtr(sig) =>
      assert NodeOk(nodes, strings, sig);
      && t.FnPtr? && t.ret == Read(nodes, strings, nodes[sig].ret)
      && |t.params| == |nodes[sig].params|
      && forall i :: 0 <= i < |t.params| ==> ParamReads(nodes, strings, nodes[sig].params[i], t.params[i])
    case KParam(n) => t.Param? && t.name == strings.names[n]
    case KDynTrait(x) => t.DynTrait? && t.path == NameOf(nodes, strings, x)
    case KImplTrait(x) => t.ImplTrait? && t.path == NameOf(nodes, strings, x)
    case KExtern(p) => t.Path? && t.path == strings.paths[p]
    case KApplied(base, ids) =>
      && t.AppliedPath? && Path(t.base) == Read(nodes, strings, base) && ReadEach(nodes, strings, ids, id, t.args)
  }

  ghost predicate ReadEach(nodes: seq<Node>, strings: Strings, ids: seq<nat>, below: nat, ts: seq<TypeExpr>)
    requires Arena(nodes, strings) && forall k :: 0 <= k < |ids| ==> ids[k] < below && IsType(nodes, ids[k])
  {
    |ts| == |ids| && forall i :: 0 <= i < |ids| ==> ts[i] == Read(nodes, strings, ids[i])
  }

  ghost predicate ParamReads(nodes: seq<Node>, strings: Strings, id: nat, t: TypeExpr)
    requires Arena(nodes, strings) && id < |nodes| && nodes[id].ParamNode?
  {
    assert NodeOk(nodes, strings, id);
    t == Read(nodes, strings, nodes[id].ty)
  }

  lemma {:induction false} ReadAllEach(nodes: seq<Node>, strings: Strings, ids: seq<nat>, below: nat)
    requires Arena(nodes, strings) && forall k :: 0 <= k < |ids| ==> ids[k] < below && IsType(nodes, ids[k])
    ensures ReadEach(nodes, strings, ids, below, ReadAll(nodes, strings, ids, below))
    decreases |ids|
  {
    if ids == [] {
    } else {
      hide Arena, Read;
      ReadAllEach(nodes, strings, ids[..|ids| - 1], below);
    }
  }

  lemma {:induction false} ReadParamsEach(nodes: seq<Node>, strings: Strings, ids: seq<nat>, below: nat)
    requires Arena(nodes, strings)
    requires forall k :: 0 <= k < |ids| ==> ids[k] < below && ids[k] < |nodes| && nodes[ids[k]].ParamNode?
    ensures forall i :: 0 <= i < |ids| ==>
      ParamReads(nodes, strings, ids[i], ReadParams(nodes, strings, ids, below)[i])
    decreases |ids|
  {
    if ids == [] {
    } else {
      hide Arena, Read;
      ReadParamsEach(nodes, strings, ids[..|ids| - 1], below);
    }
  }

  /** Reading a node goes by its content and by nothing else. */
  lemma ReadDenotes(nodes: seq<Node>, strings: Strings, id: nat)
    requires Arena(nodes, strings) && IsType(nodes, id)
    ensures Denotes(nodes, strings, id, Read(nodes, strings, id))
  {
    assert NodeOk(nodes, strings, id);
    match nodes[id].kind
    case KTuple(ids) => ReadAllEach(nodes, strings, ids, id);
    case KApplied(base, ids) =>
      assert NodeOk(nodes, strings, base);
      ReadAllEach(nodes, strings, ids, id);
    case KFnPtr(sig) =>
      assert NodeOk(nodes, strings, sig);
      ReadParamsEach(nodes, strings, nodes[sig].params, sig);
    case _ =>
  }

  // ------------------------------------------------------------- arenas only ever grow

  lemma ArenaGrows(nodes: seq<Node>, strings: Strings, node: Node, strings': Strings)
    requires Arena(nodes, strings) && Extends(strings, strings') && NodeOk(nodes + [node], strings', |nodes|)
    ensures Arena(nodes + [node], strings')
  {
    var nodes' := nodes + [node];
    forall i | 0 <= i < |nodes'|
      ensures NodeOk(nodes', strings', i)
    {
      if i < |nodes| {
        assert NodeOk(nodes, strings, i);
      }
    }
  }

  lemma ArenaNamesGrow(nodes: seq<Node>, strings: Strings, strings': Strings)
    requires Arena(nodes, strings) && Extends(strings, strings')
    ensures Arena(nodes, strings')
  {
    forall i | 0 <= i < |nodes|
      ensures NodeOk(nodes, strings', i)
    {
      assert NodeOk(nodes, strings, i);
    }
  }

  /** Reading a node gives the same expression in every later arena. */
  lemma {:induction false} ReadStable(nodes: seq<Node>, strings: Strings, nodes': seq<Node>, strings': Strings,
                                      id: nat)
    requires nodes <= nodes' && Extends(strings, strings')
    requires Arena(nodes, strings) && Arena(nodes', strings') && IsType(nodes, id)
    ensures IsType(nodes', id) && Read(nodes', strings', id) == Read(nodes, strings, id)
    decreases id, 2, 0
  {
    assert NodeOk(nodes, strings, id);
    ReadKindStable(nodes, strings, nodes', strings', nodes[id].kind, id);
  }

  lemma {:induction false} ReadKindStable(nodes: seq<Node>, strings: Strings, nodes': seq<Node>, strings': Strings,
                                          kind: TypeKind, below: nat)
    requires nodes <= nodes' && Extends(strings, strings')
    requires Arena(nodes, strings) && Arena(nodes', strings') && KindOk(nodes, strings, below, kind)
    ensures KindOk(nodes', strings', below, kind) &&
        ReadKind(nodes', strings', kind, below) == ReadKind(nodes, strings, kind, below)
    decreases below, 1, 0
  {
    match kind
    case KRef(lt, inner, _) =>
      assert lt.Some? ==> NodeOk(nodes, strings, lt.value);
      ReadStable(nodes, strings, nodes', strings', inner);
    case KRawPtr(inner, _) => ReadStable(nodes, strings, nodes', strings', inner);
    case KArray(inner, _) => ReadStable(nodes, strings, nodes', strings', inner);
    case KSlice(inner) => ReadStable(nodes, strings, nodes', strings', inner);
    case KTuple(items) => ReadAllStable(nodes, strings, nodes', strings', items, below);
    case KFnPtr(sig) =>
      assert NodeOk(nodes, strings, sig);
      ReadParamsStable(nodes, strings, nodes', strings', nodes[sig].params, sig);
      ReadStable(nodes, strings, nodes', strings', nodes[sig].ret);
    case KDynTrait(t) => assert NodeOk(nodes, strings, t);
    case KImplTrait(t) => assert NodeOk(nodes, strings, t);
    case KApplied(base, args) =>
      assert NodeOk(nodes, strings, base);
      ReadAllStable(nodes, strings, nodes', strings', args, below);
    case _ =>
  }

  lemma {:induction false} ReadAllStable(nodes: seq<Node>, strings: Strings, nodes': seq<Node>, strings': Strings,
                                         ids: seq<nat>, below: nat)
    requires nodes <= nodes' && Extends(strings, strings')
    requires Arena(nodes, strings) && Arena(nodes', strings')
    requires forall k :: 0 <= k < |ids| ==> ids[k] < below && IsType(nodes, ids[k])
    ensures forall k :: 0 <= k < |ids| ==> IsType(nodes', ids[k])
    ensures ReadAll(nodes', strings', ids, below) == ReadAll(nodes, strings, ids, below)
    decreases below, 0, |ids|
  {
    if ids == [] {
    } else {
      ReadAllStable(nodes, strings, nodes', strings', ids[..|ids| - 1], below);
      ReadStable(nodes, strings, nodes', strings', ids[|ids| - 1]);
    }
  }

  lemma {:induction false} ReadParamsStable(nodes: seq<Node>, strings: Strings, nodes': seq<Node>,
                                            strings': Strings,
                                            ids: seq<nat>, below: nat)
    requires nodes <= nodes' && Extends(strings, strings')
    requires Arena(nodes, strings) && Arena(nodes', strings')
    requires forall k :: 0 <= k < |ids| ==> ids[k] < below && ids[k] < |nodes| && nodes[ids[k]].ParamNode?
    ensures ReadParams(nodes', strings', ids, below) == ReadParams(nodes, strings, ids, below)
    decreases below, 0, |ids|
  {
    if ids == [] {
    } else {
      var last := ids[|ids| - 1];
      assert NodeOk(nodes, strings, last);
      ReadParamsStable(nodes, strings, nodes', strings', ids[..|ids| - 1], below);
      ReadStable(nodes, strings, nodes', strings', nodes[last].ty);
    }
  }

  // --------------------------------------------------------------------- deduplication

  /** No two type nodes have the same content. */
  ghost predicate Deduplicated(nodes: seq<Node>) {
    forall i, j :: 0 <= i < j < |nodes| && nodes[i].TypeNode? ==> nodes[i] != nodes[j]
  }

  ghost predicate Canonical(nodes: seq<Node>, strings: Strings) {
    Arena(nodes, strings) && Deduplicated(nodes) && NoDuplicates(strings.names) && NoDuplicates(strings.paths)
  }

  /** In a deduplicated arena equal shareable structure means equal ids. */
  lemma {:induction false} EqualStructureEqualIds(nodes: seq<Node>, strings: Strings, a: nat, b: nat)
    requires Canonical(nodes, strings) && IsType(nodes, a) && IsType(nodes, b)
    requires Read(nodes, strings, a) == Read(nodes, strings, b) && Shareable(Read(nodes, strings, a))
    ensures a == b
    decreases a, 2, 0
  {
    assert NodeOk(nodes, strings, a) && NodeOk(nodes, strings, b);
    EqualStructureEqualKinds(nodes, strings, nodes[a].kind, a, nodes[b].kind, b);
    assert nodes[a] == nodes[b];
  }

  lemma {:induction false} EqualStructureEqualKinds(nodes: seq<Node>, strings: Strings, k: TypeKind, a: nat,
                                                    l: TypeKind, b: nat)
    requires Canonical(nodes, strings) && KindOk(nodes, strings, a, k) && KindOk(nodes, strings, b, l)
    requires ReadKind(nodes, strings, k, a) == ReadKind(nodes, strings, l, b) &&
        Shareable(ReadKind(nodes, strings, k, a))
    ensures k == l
    decreases a, 1, 0
  {
    match k
    case KRef(_, inner, _) => EqualStructureEqualIds(nodes, strings, inner, l.inner);
    case KRawPtr(inner, _) => EqualStructureEqualIds(nodes, strings, inner, l.inner);
    case KArray(inner, _) => EqualStructureEqualIds(nodes, strings, inner, l.inner);
    case KSlice(inner) => EqualStructureEqualIds(nodes, strings, inner, l.inner);
    case KTuple(items) => EqualTuples(nodes, strings, items, l.items, a, b);
    case KParam(n) => assert n == l.nameId;
    case KExtern(p) => assert p == l.pathId;
    case KApplied(base, args) =>
      EqualBases(nodes, strings, base, l.base);
      EqualTuples(nodes, strings, args, l.args, a, b);
    case _ =>
  }

  lemma EqualBases(nodes: seq<Node>, strings: Strings, x: nat, y: nat)
    requires Canonical(nodes, strings) && IsType(nodes, x) && IsType(nodes, y)
    requires nodes[x].kind.KExtern? && nodes[y].kind.KExtern?
    requires NodeOk(nodes, strings, x) && NodeOk(nodes, strings, y)
    requires strings.paths[nodes[x].kind.pathId] == strings.paths[nodes[y].kind.pathId]
    ensures x == y
  {
    assert nodes[x].kind.pathId == nodes[y].kind.pathId;
    assert nodes[x] == nodes[y];
  }

  lemma ReadAllLast(nodes: seq<Node>, strings: Strings, ids: seq<nat>, below: nat)
    requires Arena(nodes, strings) && forall k :: 0 <= k < |ids| ==> ids[k] < below && IsType(nodes, ids[k])
    requires ids != []
    ensures var rs, n := ReadAll(nodes, strings, ids, below), |ids| - 1;
      |rs| == |ids| && rs[..n] == ReadAll(nodes, strings, ids[..n], below) && rs[n] == Read(nodes, strings, ids[n])
  {
    hide Arena, Read;
  }

  lemma {:induction false} EqualTuples(nodes: seq<Node>, strings: Strings, xs: seq<nat>, ys: seq<nat>, a: nat, b: nat)
    requires Canonical(nodes, strings)
    requires forall k :: 0 <= k < |xs| ==> xs[k] < a && IsType(nodes, xs[k])
    requires forall k :: 0 <= k < |ys| ==> ys[k] < b && IsType(nodes, ys[k])
    requires ReadAll(nodes, strings, xs, a) == ReadAll(nodes, strings, ys, b) &&
        AllShareable(ReadAll(nodes, strings, xs, a))
    ensures xs == ys
    decreases a, 0, |xs|
  {
    hide Arena, Deduplicated, NoDuplicates, Read, ReadAll, Shareable;
    if xs == [] {
    } else {
      var m, n := |xs| - 1, |ys| - 1;
      ReadAllLast(nodes, strings, xs, a);
      ReadAllLast(nodes, strings, ys, b);
      EqualTuples(nodes, strings, xs[..m], ys[..n], a, b);
      EqualStructureEqualIds(nodes, strings, xs[m], ys[n]);
      assert xs == xs[..m] + [xs[m]] && ys == ys[..n] + [ys[n]];
    }
  }

  /** Some type node of the arena denotes `t`. */
  ghost predicate Stored(nodes: seq<Node>, strings: Strings, t: TypeExpr)
    requires Arena(nodes, strings)
  {
    exists id: nat :: IsType(nodes, id) && Read(nodes, strings, id) == t
  }

  /** A stored content that denotes the same shareable type is the same content. */
  lemma StoredKind(nodes: seq<Node>, strings: Strings, kind: TypeKind, below: nat)
    requires Canonical(nodes, strings) && KindOk(nodes, strings, below, kind)
    requires Shareable(ReadKind(nodes, strings, kind, below)) &&
        Stored(nodes, strings, ReadKind(nodes, strings, kind, below))
    ensures TypeNode(kind) in nodes
  {
    var id: nat :| IsType(nodes, id) && Read(nodes, strings, id) == ReadKind(nodes, strings, kind, below);
    assert NodeOk(nodes, strings, id);
    EqualStructureEqualKinds(nodes, strings, kind, below, nodes[id].kind, id);
    assert nodes[id] == TypeNode(kind);
  }

  /** What is stored has its parts stored. */
  lemma StoredParts(nodes: seq<Node>, strings: Strings, t: TypeExpr)
    requires Arena(nodes, strings) && Stored(nodes, strings, t)
    ensures t.Ref? || t.RawPtr? || t.Array? || t.Slice? ==> Stored(nodes, strings, t.inner)
    ensures t.Tuple? ==> AllStored(nodes, strings, t.items)
    ensures t.Param? ==> t.name in strings.names
    ensures t.Path? ==> t.path in strings.paths
    ensures t.AppliedPath? ==> Stored(nodes, strings, Path(t.base)) && AllStored(nodes, strings, t.args)
  {
    var id: nat :| IsType(nodes, id) && Read(nodes, strings, id) == t;
    assert NodeOk(nodes, strings, id);
    var kind := nodes[id].kind;
    assert t == ReadKind(nodes, strings, kind, id);
    match kind
    case KRef(_, inner, _) => assert Read(nodes, strings, inner) == t.inner;
    case KRawPtr(inner, _) => assert Read(nodes, strings, inner) == t.inner;
    case KArray(inner, _) => assert Read(nodes, strings, inner) == t.inner;
    case KSlice(inner) => assert Read(nodes, strings, inner) == t.inner;
    case KTuple(items) => ItemsStored(nodes, strings, items, id);
    case KApplied(base, args) =>
      assert NodeOk(nodes, strings, base) && Read(nodes, strings, base) == Path(t.base);
      ItemsStored(nodes, strings, args, id);
    case _ =>
  }

  ghost predicate AllStored(nodes: seq<Node>, strings: Strings, ts: seq<TypeExpr>)
    requires Arena(nodes, strings)
  {
    ts == [] || (AllStored(nodes, strings, ts[..|ts| - 1]) && Stored(nodes, strings, ts[|ts| - 1]))
  }

  lemma {:induction false} ItemsStored(nodes: seq<Node>, strings: Strings, ids: seq<nat>, below: nat)
    requires Arena(nodes, strings) && forall k :: 0 <= k < |ids| ==> ids[k] < below && IsType(nodes, ids[k])
    ensures AllStored(nodes, strings, ReadAll(nodes, strings, ids, below))
    decreases |ids|
  {
    if ids == [] {
    } else {
      var rs := ReadAll(nodes, strings, ids, below);
      ItemsStored(nodes, strings, ids[..|ids| - 1], below);
      assert rs[..|rs| - 1] == ReadAll(nodes, strings, ids[..|ids| - 1], below);
      assert rs[|rs| - 1] == Read(nodes, strings, ids[|ids| - 1]);
    }
  }

  lemma {:induction false} NormShareable(t: TypeExpr)
    ensures Shareable(Norm(t)) == Shareable(t)
  {
    hide PathOf, Dropped, NormAll, NormKept;
    match t
    case Ref(_, inner, _) => NormShareable(inner);
    case RawPtr(inner, _) => NormShareable(inner);
    case Array(inner, _) => NormShareable(inner);
    case Slice(inner) => NormShareable(inner);
    case Tuple(items) => NormAllShareable(items);
    case AppliedPath(_, args) => NormKeptShareable(args);
    case _ =>
  }

  lemma {:induction false} NormKeptShareable(ts: seq<TypeExpr>)
    ensures AllShareable(NormKept(ts)) == AllShareable(ts)
  {
    if ts == [] {
    } else {
      var n := |ts| - 1;
      NormKeptShareable(ts[..n]);
      NormShareable(ts[n]);
      if !Dropped(ts[n]) {
        var init := NormKept(ts[..n]);
        assert (init + [Norm(ts[n])])[..|init|] == init;
      }
    }
  }

  lemma {:induction false} NormAllShareable(ts: seq<TypeExpr>)
    ensures AllShareable(NormAll(ts)) == AllShareable(ts)
  {
    if ts == [] {
    } else {
      var n := |ts| - 1;
      NormAllShareable(ts[..n]);
      NormShareable(ts[n]);
      assert NormAll(ts)[..n] == NormAll(ts[..n]) && NormAll(ts)[n] == Norm(ts[n]);
    }
  }
}
