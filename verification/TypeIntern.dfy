/** Interning of names, paths and types into the canonical IR. */
module TypeIntern {
  import opened Lists
  import opened Machine
  import opened Options
  import opened PathForm
  import opened TypeArena

  datatype Result<+T> = Ok(value: T) | ArtifactName(name: string)

  /** Names the compiler makes up for allocations must not reach the name table. */
  predicate IsAllocArtifact(name: string) {
    || "__rust_" <= name
    || "__rdl_" <= name
    || "alloc::" <= name
    || Contains(name, "\0")
    || Contains(name, "{{")
    || Contains(name, "{alloc")
    || Contains(name, "promoted[")
  }

  /** What makes a name an artifact: how it begins, or what stands in it. */
  lemma ArtifactNames(name: string)
    ensures IsAllocArtifact(name) <==>
        || (exists rest: string :: name in {"__rust_" + rest, "__rdl_" + rest, "alloc::" + rest})
        || Infix(name, "\0") || Infix(name, "{{") || Infix(name, "{alloc") || Infix(name, "promoted[")
  {
    ContainsIsInfix(name, "\0");
    ContainsIsInfix(name, "{{");
    ContainsIsInfix(name, "{alloc");
    ContainsIsInfix(name, "promoted[");
    hide Contains, Infix;
    if "__rust_" <= name {
      assert name == "__rust_" + name[7..];
    } else if "__rdl_" <= name {
      assert name == "__rdl_" + name[6..];
    } else if "alloc::" <= name {
      assert name == "alloc::" + name[7..];
    }
  }

  function Decimal(n: nat): string {
    if n < 10 then ["0123456789"[n]] else Decimal(n / 10) + ["0123456789"[n % 10]]
  }

  /** The name given to the `i`-th parameter of a function pointer. */
  function ArgName(i: nat): string {
    "__fnptr_arg" + Decimal(i)
  }

  function DigitValue(c: char): int {
    c as int - '0' as int
  }

  /** The number that a string of digits stands for. */
  ghost function Value(s: string): int {
    if s == "" then 0 else 10 * Value(s[..|s| - 1]) + DigitValue(s[|s| - 1])
  }

  /** Decimal digits read back to the number, and do not begin with a zero unless it is zero. */
  lemma {:induction false} DecimalReads(n: nat)
    ensures Value(Decimal(n)) == n && Decimal(n) != "" && (Decimal(n)[0] == '0' <==> n == 0)
    decreases n
  {
    var digits := "0123456789";
    assert forall d :: 0 <= d < 10 ==> DigitValue(digits[d]) == d;
    if n < 10 {
      var s := Decimal(n);
      assert s[..0] == "";
      assert Value(s) == 10 * Value(s[..0]) + DigitValue(s[0]);
    } else {
      DecimalReads(n / 10);
      var s := Decimal(n);
      assert s[..|s| - 1] == Decimal(n / 10) && s[|s| - 1] == digits[n % 10];
    }
  }

  /** No two parameters get the same name. */
  lemma ArgNamesDiffer(i: nat, j: nat)
    ensures ArgName(i) == ArgName(j) <==> i == j
  {
    DecimalReads(i);
    DecimalReads(j);
    assert ArgName(i)[11..] == Decimal(i) && ArgName(j)[11..] == Decimal(j);
  }

  /** The parameter nodes carry the made-up names in order. */
  ghost predicate ParamsNamed(nodes: seq<Node>, strings: Strings, ids: seq<nat>) {
    forall i: nat :: i < |ids| ==> ParamNamed(nodes, strings, ids[i], i)
  }

  ghost predicate ParamNamed(nodes: seq<Node>, strings: Strings, id: nat, i: nat) {
    && id < |nodes| && nodes[id].ParamNode?
    && nodes[id].nameId < |strings.names| && strings.names[nodes[id].nameId] == "__fnptr_arg" + Decimal(i)
  }

  /** The signature behind a function pointer has its parameters named in order. */
  ghost predicate FnPtrNamed(nodes: seq<Node>, strings: Strings, id: nat) {
    && IsType(nodes, id) && nodes[id].kind.KFnPtr? && nodes[id].kind.sig < |nodes|
    && nodes[nodes[id].kind.sig].FnSigNode? && ParamsNamed(nodes, strings, nodes[nodes[id].kind.sig].params)
  }

  lemma NamedStays(nodes: seq<Node>, strings: Strings, nodes': seq<Node>, strings': Strings, ids: seq<nat>)
    requires nodes <= nodes' && Extends(strings, strings') && ParamsNamed(nodes, strings, ids)
    ensures ParamsNamed(nodes', strings', ids)
  {
    hide Decimal;
    forall i: nat | i < |ids|
      ensures ParamNamed(nodes', strings', ids[i], i)
    {
      assert ParamNamed(nodes, strings, ids[i], i);
    }
  }

  lemma SignatureNamed(nodes1: seq<Node>, strings1: Strings, nodes: seq<Node>, strings: Strings, id: nat)
    requires nodes1 <= nodes && Extends(strings1, strings)
    requires IsType(nodes, id) && nodes[id].kind.KFnPtr? && nodes[id].kind.sig < |nodes1|
    requires nodes1[nodes[id].kind.sig].FnSigNode?
    requires ParamsNamed(nodes1, strings1, nodes1[nodes[id].kind.sig].params)
    ensures FnPtrNamed(nodes, strings, id)
  {
    hide ParamsNamed;
    NamedStays(nodes1, strings1, nodes, strings, nodes1[nodes[id].kind.sig].params);
  }

  lemma NamedNext(nodes: seq<Node>, strings: Strings, nodes': seq<Node>, strings': Strings, ids: seq<nat>, id: nat)
    requires nodes <= nodes' && Extends(strings, strings') && ParamsNamed(nodes, strings, ids)
    requires ParamNamed(nodes', strings', id, |ids|)
    ensures ParamsNamed(nodes', strings', ids + [id])
  {
    NamedStays(nodes, strings, nodes', strings', ids);
    hide ParamNamed;
  }

  /** Every name that interning `t` will put into the table is acceptable. */
  predicate Clean(t: TypeExpr) {
    match t
    case Primitive(_) => true
    case Ref(lt, inner, _) => (lt.Some? ==> !IsAllocArtifact(lt.value)) && Clean(inner)
    case RawPtr(inner, _) => Clean(inner)
    case Array(inner, _) => Clean(inner)
    case Slice(inner) => Clean(inner)
    case Tuple(items) => AllClean(items)
    case FnPtr(params, ret) => AllClean(params) && Clean(ret)
    case Param(name) => !IsAllocArtifact(name)
    case DynTrait(path) => !IsAllocArtifact(path)
    case ImplTrait(path) => !IsAllocArtifact(path)
    case Path(_) => true
    case AppliedPath(_, args) => KeptClean(args)
  }

  predicate KeptClean(ts: seq<TypeExpr>) {
    ts == [] || (KeptClean(ts[..|ts| - 1]) && (Dropped(ts[|ts| - 1]) || Clean(ts[|ts| - 1])))
  }

  lemma {:induction false} KeptIsClean(ts: seq<TypeExpr>)
    ensures KeptClean(ts) == AllClean(Kept(ts))
  {
    if ts == [] {
    } else {
      var init, last := Kept(ts[..|ts| - 1]), ts[|ts| - 1];
      KeptIsClean(ts[..|ts| - 1]);
      assert (init + [last])[..|init|] == init;
    }
  }

  predicate AllClean(ts: seq<TypeExpr>) {
    ts == [] || (AllClean(ts[..|ts| - 1]) && Clean(ts[|ts| - 1]))
  }

  /** At most this many nodes, and strings of each sort, are added. */
  function Weight(t: TypeExpr): (w: nat)
    ensures w >= 1
  {
    match t
    case Ref(lt, inner, _) => 2 + Weight(inner)
    case RawPtr(inner, _) => 1 + Weight(inner)
    case Array(inner, _) => 1 + Weight(inner)
    case Slice(inner) => 1 + Weight(inner)
    case Tuple(items) => 1 + WeightAll(items)
    case FnPtr(params, ret) => 2 + WeightAll(params) + Weight(ret)
    case Primitive(_) => 1
    case Param(_) => 2
    case DynTrait(_) => 2
    case ImplTrait(_) => 2
    case Path(_) => 2
    case AppliedPath(_, args) => 2 + WeightAll(args)
  }

  function WeightAll(ts: seq<TypeExpr>): nat {
    if ts == [] then 0 else WeightAll(ts[..|ts| - 1]) + Weight(ts[|ts| - 1]) + 1
  }

  lemma {:induction false} KeptWeighsLess(ts: seq<TypeExpr>)
    ensures WeightAll(Kept(ts)) <= WeightAll(ts)
  {
    if ts == [] {
    } else {
      var init, last := Kept(ts[..|ts| - 1]), ts[|ts| - 1];
      KeptWeighsLess(ts[..|ts| - 1]);
      assert (init + [last])[..|init|] == init;
    }
  }

  /** Ids for `w` more nodes and strings of each sort fit 32 bits. */
  predicate Room(nodes: seq<Node>, strings: Strings, w: nat) {
    |nodes| + w <= U32_SPAN && |strings.names| + w <= U32_SPAN && |strings.paths| + w <= U32_SPAN
  }

  /** The index inverts the table. */
  ghost predicate TableIndexed(table: seq<string>, index: map<string, nat>) {
    && (forall s :: s in index ==> index[s] < |table| && table[index[s]] == s)
    && forall i :: 0 <= i < |table| ==> table[i] in index && index[table[i]] == i
  }

  ghost predicate StringsIndexed(strings: Strings, names: map<string, nat>, paths: map<string, nat>) {
    TableIndexed(strings.names, names) && TableIndexed(strings.paths, paths)
  }

  /** The type index maps each stored content to its one node. */
  ghost predicate TypesIndexed(nodes: seq<Node>, index: map<TypeKind, nat>) {
    && (forall k :: k in index ==> index[k] < |nodes| && nodes[index[k]] == TypeNode(k))
    && forall i :: 0 <= i < |nodes| && nodes[i].TypeNode? ==> nodes[i].kind in index && index[nodes[i].kind] == i
  }

  /** The index is determined by what it indexes. */
  lemma IndexIsUnique(nodes: seq<Node>, t1: map<TypeKind, nat>, t2: map<TypeKind, nat>)
    requires TypesIndexed(nodes, t1) && TypesIndexed(nodes, t2)
    ensures t1 == t2
  {
    forall k
      ensures k in t1 <==> k in t2
    {
      if k in t1 {
        assert nodes[t1[k]].kind in t2;
      }
      if k in t2 {
        assert nodes[t2[k]].kind in t1;
      }
    }
    forall k | k in t1
      ensures t1[k] == t2[k]
    {
      assert nodes[t1[k]].kind == k;
    }
  }

  lemma TableIndexIsUnique(table: seq<string>, n1: map<string, nat>, n2: map<string, nat>)
    requires TableIndexed(table, n1) && TableIndexed(table, n2)
    ensures n1 == n2
  {
    forall s
      ensures s in n1 <==> s in n2
    {
      if s in n1 {
        assert table[n1[s]] in n2;
      }
      if s in n2 {
        assert table[n2[s]] in n1;
      }
    }
    forall s | s in n1
      ensures n1[s] == n2[s]
    {
      assert table[n1[s]] == s;
    }
  }

  /** The same promises for a list of types. */
  ghost predicate InternedAll(nodes0: seq<Node>, strings0: Strings, nodes: seq<Node>, strings: Strings,
                              ts: seq<TypeExpr>, r: Result<seq<nat>>) {
    && Grown(nodes0, strings0, nodes, strings, WeightAll(ts))
    && (r.Ok? <==> AllClean(ts))
    && (r.Ok? ==>
          && |r.value| == |ts| && TypesBelow(nodes, r.value, |nodes|)
          && ReadAll(nodes, strings, r.value, |nodes|) == NormAll(ts))
    && (r.Ok? && !AllShareable(ts) ==> exists k :: 0 <= k < |r.value| && r.value[k] >= |nodes0|)
    && (r.Ok? && AllShareable(ts) && AllStored(nodes0, strings0, NormAll(ts)) ==>
        nodes == nodes0 && strings == strings0)
  }

  ghost predicate TypesBelow(nodes: seq<Node>, ids: seq<nat>, below: nat) {
    forall k :: 0 <= k < |ids| ==> ids[k] < below && IsType(nodes, ids[k])
  }

  ghost predicate ParamsBelow(nodes: seq<Node>, ids: seq<nat>, below: nat) {
    forall k :: 0 <= k < |ids| ==> ids[k] < below && ids[k] < |nodes| && nodes[ids[k]].ParamNode?
  }

  ghost predicate InternedParams(nodes0: seq<Node>, strings0: Strings, nodes: seq<Node>, strings: Strings,
                                 ts: seq<TypeExpr>, r: Result<seq<nat>>) {
    && Grown(nodes0, strings0, nodes, strings, WeightAll(ts))
    && (r.Ok? <==> AllClean(ts))
    && (r.Ok? ==>
          && |r.value| == |ts| && ParamsBelow(nodes, r.value, |nodes|) && ParamsNamed(nodes, strings, r.value)
          && ReadParams(nodes, strings, r.value, |nodes|) == NormAll(ts))
  }

  ghost predicate InternedParam(nodes0: seq<Node>, strings0: Strings, nodes: seq<Node>, strings: Strings,
                                n: nat, t: TypeExpr, r: Result<nat>) {
    && Grown(nodes0, strings0, nodes, strings, Weight(t) + 1)
    && (r.Ok? <==> Clean(t))
    && (r.Ok? ==>
          && |nodes0| <= r.value < |nodes| && ParamNamed(nodes, strings, r.value, n) && nodes[r.value].ty < r.value
          && IsType(nodes, nodes[r.value].ty) && Read(nodes, strings, nodes[r.value].ty) == Norm(t))
  }

  lemma IndexedIsCanonical(nodes: seq<Node>, strings: Strings, types: map<TypeKind, nat>, names: map<string, nat>,
                           paths: map<string, nat>)
    requires Arena(nodes, strings) && TypesIndexed(nodes, types) && StringsIndexed(strings, names, paths)
    ensures Canonical(nodes, strings)
  {
  }

  /** What interning `ty` promises: the arena only grew, the result reads back to `ty` up to
      `Norm`, a type that is not shareable is new, and a shareable one that was there adds nothing. */
  ghost predicate Interned(nodes0: seq<Node>, strings0: Strings, nodes: seq<Node>, strings: Strings,
                           ty: TypeExpr, r: Result<nat>) {
    && Grown(nodes0, strings0, nodes, strings, Weight(ty))
    && (r.Ok? <==> Clean(ty))
    && (r.Ok? ==> IsType(nodes, r.value) && Read(nodes, strings, r.value) == Norm(ty))
    && (r.Ok? && !Shareable(ty) ==> r.value >= |nodes0|)
    && (r.Ok? && Shareable(ty) && Stored(nodes0, strings0, Norm(ty)) ==> nodes == nodes0 && strings == strings0)
  }

  /** Everything but the type node itself is in place. */
  ghost predicate Ready(nodes0: seq<Node>, strings0: Strings, nodes: seq<Node>, strings: Strings, ty: TypeExpr,
                        kind: TypeKind) {
    && Clean(ty) && Grown(nodes0, strings0, nodes, strings, Weight(ty) - 1)
    && KindOk(nodes, strings, |nodes|, kind) && ReadKind(nodes, strings, kind, |nodes|) == Norm(ty)
    && (Shareable(ty) && Stored(nodes0, strings0, Norm(ty)) ==> nodes == nodes0 && strings == strings0)
    && (!Shareable(ty) ==> Refers(kind, |nodes0|))
  }

  ghost predicate Grown(nodes0: seq<Node>, strings0: Strings, nodes: seq<Node>, strings: Strings, weight: nat) {
    && Arena(nodes0, strings0) && Arena(nodes, strings)
    && nodes0 <= nodes && Extends(strings0, strings)
    && |nodes| <= |nodes0| + weight
    && |strings.names| <= |strings0.names| + weight && |strings.paths| <= |strings0.paths| + weight
  }

  lemma GrownTwice(nodes0: seq<Node>, strings0: Strings, nodes1: seq<Node>, strings1: Strings, nodes: seq<Node>,
                   strings: Strings, v: nat, w: nat)
    requires Grown(nodes0, strings0, nodes1, strings1, v) && Grown(nodes1, strings1, nodes, strings, w)
    ensures Grown(nodes0, strings0, nodes, strings, v + w)
  {
    hide Arena;
  }

  lemma GrownMore(nodes0: seq<Node>, strings0: Strings, nodes: seq<Node>, strings: Strings, v: nat, w: nat)
    requires Grown(nodes0, strings0, nodes, strings, v) && v <= w
    ensures Grown(nodes0, strings0, nodes, strings, w)
  {
    hide Arena;
  }

  lemma RoomLeft(nodes0: seq<Node>, strings0: Strings, nodes: seq<Node>, strings: Strings, v: nat, w: nat)
    requires Grown(nodes0, strings0, nodes, strings, v) && Room(nodes0, strings0, w) && v <= w
    ensures Room(nodes, strings, w - v)
  {
    hide Arena;
  }

  /** `Interner::restore_index`. */
  method RestoreIndex(table: seq<string>) returns (index: map<string, nat>)
    requires NoDuplicates(table)
    ensures TableIndexed(table, index)
  {
    index := map[];
    for i := 0 to |table|
      invariant forall s :: s in index ==> index[s] < i && table[index[s]] == s
      invariant forall k :: 0 <= k < i ==> table[k] in index && index[table[k]] == k
    {
      index := index[table[i] := i];
    }
  }

  method RestoreTypeIndex(nodes: seq<Node>) returns (index: map<TypeKind, nat>)
    requires Deduplicated(nodes)
    ensures TypesIndexed(nodes, index)
  {
    index := map[];
    for i := 0 to |nodes|
      invariant forall k :: k in index ==> index[k] < i && nodes[index[k]] == TypeNode(k)
      invariant forall k :: 0 <= k < i && nodes[k].TypeNode? ==> nodes[k].kind in index && index[nodes[k].kind] == k
    {
      if nodes[i].TypeNode? && nodes[i].kind !in index {
        index := index[nodes[i].kind := i];
      }
    }
  }

  class CanonIR {
    var nodes: seq<Node>
    var strings: Strings
    var nameIndex: map<string, nat>
    var pathIndex: map<string, nat>
    var typeIndex: map<TypeKind, nat>

    ghost predicate Valid()
      reads this
    {
      && Arena(nodes, strings) && StringsIndexed(strings, nameIndex, pathIndex) && TypesIndexed(nodes, typeIndex)
      && Room(nodes, strings, 0)
    }

    constructor ()
      ensures Valid() && nodes == [] && strings == Strings([], [])
    {
      nodes, strings, nameIndex, pathIndex, typeIndex := [], Strings([], []), map[], map[], map[];
    }

    /** The same name always gets the same id, and the id reads back to it. */
    method InternName(s: string) returns (r: Result<nat>)
      requires Valid() && |strings.names| < U32_SPAN
      modifies this`strings, this`nameIndex
      ensures Valid() && Extends(old(strings), strings) && strings.paths == old(strings.paths)
      ensures |strings.names| <= old(|strings.names|) + 1
      ensures r.Ok? <==> !IsAllocArtifact(s)
      ensures r.Ok? ==> r.value < |strings.names| && strings.names[r.value] == s
      ensures s in old(strings.names) ==> strings == old(strings)
    {
      if IsAllocArtifact(s) {
        return ArtifactName(s);
      }
      if s in nameIndex {
        return Ok(nameIndex[s]);
      }
      var id := |strings.names|;
      var longer := strings.(names := strings.names + [s]);
      ArenaNamesGrow(nodes, strings, longer);
      strings := longer;
      nameIndex := nameIndex[s := id];
      r := Ok(id);
    }

    /** The same form always gets the same id, and the id reads back to it. */
    method InternForm(s: string) returns (id: nat)
      requires Valid() && |strings.paths| < U32_SPAN
      modifies this`strings, this`pathIndex
      ensures Valid() && Extends(old(strings), strings) && strings.names == old(strings.names)
      ensures |strings.paths| <= old(|strings.paths|) + 1
      ensures id < |strings.paths| && strings.paths[id] == s
      ensures s in old(strings.paths) ==> strings == old(strings)
    {
      if s in pathIndex {
        return pathIndex[s];
      }
      id := |strings.paths|;
      var longer := strings.(paths := strings.paths + [s]);
      ArenaNamesGrow(nodes, strings, longer);
      strings := longer;
      pathIndex := pathIndex[s := id];
    }

    /** A path is stored under the form it is given, else the sanitised one, else a fixed one; it never fails. */
    method InternPath(raw: string) returns (id: nat)
      requires Valid() && |strings.paths| < U32_SPAN
      modifies this`strings, this`pathIndex
      ensures Valid() && Extends(old(strings), strings) && strings.names == old(strings.names)
      ensures |strings.paths| <= old(|strings.paths|) + 1
      ensures id < |strings.paths| && strings.paths[id] == StoredForm(raw)
      ensures StoredForm(raw) in old(strings.paths) ==> strings == old(strings)
    {
      hide Fragment, Sanitized, Accepted;
      var path := Fragment(raw);
      var form := Accepted(path);
      if form.Some? {
        id := InternForm(form.value);
        return;
      }
      var sanitized := Sanitized(raw);
      if sanitized != path {
        var second := Accepted(sanitized);
        if second.Some? {
          id := InternForm(second.value);
          return;
        }
      }
      LastResortIsAccepted();
      var last := Accepted("invalid_path");
      id := InternForm(last.value);
    }

    method PushNode(node: Node) returns (id: nat)
      requires Valid() && |nodes| < U32_SPAN && !node.TypeNode?
      requires NodeOk(nodes + [node], strings, |nodes|)
      modifies this`nodes
      ensures Valid() && nodes == old(nodes) + [node] && id == old(|nodes|)
    {
      id := |nodes|;
      ArenaGrows(nodes, strings, node, strings);
      nodes := nodes + [node];
    }

    /** Identical content gets the existing node; new content gets a new one. */
    method InternType(kind: TypeKind) returns (id: nat)
      requires Valid() && |nodes| < U32_SPAN && KindOk(nodes, strings, |nodes|, kind)
      modifies this`nodes, this`typeIndex
      ensures Valid() && IsType(nodes, id) && nodes[id].kind == kind
      ensures nodes == old(nodes) || (nodes == old(nodes) + [TypeNode(kind)] && id == old(|nodes|))
      ensures TypeNode(kind) in old(nodes) ==> nodes == old(nodes)
    {
      if kind in typeIndex {
        return typeIndex[kind];
      }
      id := |nodes|;
      ghost var before := nodes;
      assert NodeOk(nodes + [TypeNode(kind)], strings, |nodes|);
      ArenaGrows(nodes, strings, TypeNode(kind), strings);
      nodes := nodes + [TypeNode(kind)];
      typeIndex := typeIndex[kind := id];
      assert forall i :: 0 <= i < |before| ==> before[i] != TypeNode(kind);
    }

    /** Store the content once its children are interned. */
    method Finish(ghost nodes0: seq<Node>, ghost strings0: Strings, ghost ty: TypeExpr, kind: TypeKind)
        returns (r: Result<nat>)
      requires Valid() && Room(nodes0, strings0, Weight(ty)) && Ready(nodes0, strings0, nodes, strings, ty, kind)
      modifies this`nodes, this`typeIndex
      ensures Valid() && Interned(nodes0, strings0, nodes, strings, ty, r)
      ensures old(nodes) <= nodes && r.Ok? && IsType(nodes, r.value) && nodes[r.value].kind == kind
    {
      hide Arena, Interned, TypesIndexed, StringsIndexed, Norm, Weight, Clean, Shareable, Stored, ReadKind, Refers;
      ghost var nodes1 := nodes;
      RoomLeft(nodes0, strings0, nodes, strings, Weight(ty) - 1, Weight(ty));
      IndexedIsCanonical(nodes, strings, typeIndex, nameIndex, pathIndex);
      PresentKind(nodes0, strings0, nodes, strings, ty, kind);
      var id := InternType(kind);
      FinishInterned(nodes0, strings0, nodes1, nodes, strings, ty, kind, id);
      r := Ok(id);
    }

    /** Rebuild the three indices from the saved tables. */
    method Restore()
      requires Canonical(nodes, strings) && Room(nodes, strings, 0)
      modifies this`nameIndex, this`pathIndex, this`typeIndex
      ensures Valid()
      ensures StringsIndexed(strings, old(nameIndex), old(pathIndex)) && TypesIndexed(nodes, old(typeIndex)) ==>
                nameIndex == old(nameIndex) && pathIndex == old(pathIndex) && typeIndex == old(typeIndex)
    {
      nameIndex := RestoreIndex(strings.names);
      pathIndex := RestoreIndex(strings.paths);
      typeIndex := RestoreTypeIndex(nodes);
      if StringsIndexed(strings, old(nameIndex), old(pathIndex)) && TypesIndexed(nodes, old(typeIndex)) {
        IndexIsUnique(nodes, typeIndex, old(typeIndex));
        TableIndexIsUnique(strings.names, nameIndex, old(nameIndex));
        TableIndexIsUnique(strings.paths, pathIndex, old(pathIndex));
      }
    }

    /** Intern a type expression, children first. */
    method InternTyExpr(ty: TypeExpr) returns (r: Result<nat>)
      requires Valid() && Room(nodes, strings, Weight(ty))
      modifies this
      ensures Valid() && Interned(old(nodes), old(strings), nodes, strings, ty, r)
      ensures r.Ok? ==> (Read(nodes, strings, r.value) == ty <==> Verbatim(ty))
      ensures r.Ok? && ty.FnPtr? ==> FnPtrNamed(nodes, strings, r.value)
      decreases Weight(ty), 2
    {
      NormIsIdentity(ty);
      match ty {
        case Primitive(prim) =>
          r := Finish(nodes, strings, ty, KPrimitive(prim));
        case Ref(lifetime, inner, mutable) =>
          if lifetime.Some? {
            r := InternRefWithLifetime(ty, lifetime.value, inner, mutable);
          } else {
            r := InternWrapped(ty, inner);
          }
        case RawPtr(inner, _) =>
          r := InternWrapped(ty, inner);
        case Array(inner, _) =>
          r := InternWrapped(ty, inner);
        case Slice(inner) =>
          r := InternWrapped(ty, inner);
        case Tuple(items) =>
          r := InternTuple(ty, items);
        case FnPtr(params, ret) =>
          r := InternFnPtr(ty, params, ret);
        case Param(name) =>
          r := InternParam(ty, name);
        case DynTrait(path) =>
          r := InternTrait(ty, path);
        case ImplTrait(path) =>
          r := InternTrait(ty, path);
        case Path(path) =>
          r := InternPathType(ty, path);
        case AppliedPath(base, args) =>
          r := InternApplied(ty, base, args);
      }
    }

    /** One child and no auxiliary node. */
    method InternWrapped(ty: TypeExpr, inner: TypeExpr) returns (r: Result<nat>)
      requires Valid() && Room(nodes, strings, Weight(ty))
      requires IsWrapper(ty) && ty.inner == inner
      modifies this
      ensures Valid() && Interned(old(nodes), old(strings), nodes, strings, ty, r)
      decreases Weight(ty), 0
    {
      hide Arena, TypesIndexed, StringsIndexed, Interned;
      ghost var nodes0, strings0 := nodes, strings;
      var child := InternTyExpr(inner);
      if child.ArtifactName? {
        WrapperFails(nodes0, strings0, nodes, strings, ty, child);
        return child;
      }
      WrapperReady(nodes0, strings0, nodes, strings, ty, child.value);
      r := Finish(nodes0, strings0, ty, WrapperKind(ty, child.value));
    }

    /** A lifetime or a trait reference is a node of its own that carries a name. */
    method PushNamed(s: string, lifetime: bool) returns (r: Result<nat>)
      requires Valid() && Room(nodes, strings, 1)
      modifies this`nodes, this`strings, this`nameIndex
      ensures Valid() && Named(old(nodes), old(strings), nodes, strings, s, lifetime, r)
    {
      var id := InternName(s);
      if id.ArtifactName? {
        return ArtifactName(s);
      }
      var node := PushNode(if lifetime then LifetimeNode(id.value) else TypeRefNode(id.value));
      r := Ok(node);
    }

    /** A reference with a lifetime pushes a lifetime node of its own. */
    method InternRefWithLifetime(ty: TypeExpr, lt: string, inner: TypeExpr, mutable: bool) returns (r: Result<nat>)
      requires Valid() && Room(nodes, strings, Weight(ty))
      requires ty == Ref(Some(lt), inner, mutable)
      modifies this
      ensures Valid() && Interned(old(nodes), old(strings), nodes, strings, ty, r)
      decreases Weight(ty), 0
    {
      assert Weight(ty) == 2 + Weight(inner);
      hide Arena, TypesIndexed, StringsIndexed, Interned, Named, Grown, Ready, Weight;
      ghost var nodes0, strings0 := nodes, strings;
      var lifetime := PushNamed(lt, true);
      NamedGrows(nodes0, strings0, nodes, strings, lt, true, lifetime);
      RoomLeft(nodes0, strings0, nodes, strings, 1, Weight(ty));
      if lifetime.ArtifactName? {
        NameFails(nodes0, strings0, nodes, strings, ty, lt, true, lifetime);
        return ArtifactName(lt);
      }
      ghost var nodes1, strings1 := nodes, strings;
      var child := InternTyExpr(inner);
      if child.ArtifactName? {
        LifetimeFails(nodes0, strings0, nodes1, strings1, nodes, strings, ty, child);
        return child;
      }
      LifetimeReady(nodes0, strings0, nodes1, strings1, nodes, strings, ty, lifetime.value, child.value);
      r := Finish(nodes0, strings0, ty, KRef(Some(lifetime.value), child.value, mutable));
    }

    method InternParam(ty: TypeExpr, name: string) returns (r: Result<nat>)
      requires Valid() && Room(nodes, strings, Weight(ty)) && ty == Param(name)
      modifies this
      ensures Valid() && Interned(old(nodes), old(strings), nodes, strings, ty, r)
      decreases Weight(ty), 0
    {
      ghost var nodes0, strings0 := nodes, strings;
      var id := InternName(name);
      if id.ArtifactName? {
        return ArtifactName(name);
      }
      ParamReady(nodes0, strings0, strings, ty, id.value);
      r := Finish(nodes0, strings0, ty, KParam(id.value));
    }

    /** `dyn Trait` and `impl Trait` push a trait reference of their own. */
    method InternTrait(ty: TypeExpr, path: string) returns (r: Result<nat>)
      requires Valid() && Room(nodes, strings, Weight(ty))
      requires ty == DynTrait(path) || ty == ImplTrait(path)
      modifies this
      ensures Valid() && Interned(old(nodes), old(strings), nodes, strings, ty, r)
      decreases Weight(ty), 0
    {
      assert Weight(ty) == 2;
      hide Arena, TypesIndexed, StringsIndexed, Interned, Named, Grown, Ready, Weight;
      ghost var nodes0, strings0 := nodes, strings;
      var t := PushNamed(path, false);
      if t.ArtifactName? {
        NameFails(nodes0, strings0, nodes, strings, ty, path, false, t);
        return ArtifactName(path);
      }
      TraitReady(nodes0, strings0, nodes, strings, ty, t.value);
      r := Finish(nodes0, strings0, ty, if ty.DynTrait? then KDynTrait(t.value) else KImplTrait(t.value));
    }

    /** A path on its own is an external type. */
    method InternPathType(ty: TypeExpr, path: string) returns (r: Result<nat>)
      requires Valid() && Room(nodes, strings, Weight(ty)) && ty == Path(path)
      modifies this
      ensures Valid() && Interned(old(nodes), old(strings), nodes, strings, ty, r)
      decreases Weight(ty), 0
    {
      ghost var strings0 := strings;
      var id := InternPath(Fragment(path));
      PathReady(nodes, strings0, strings, ty, id);
      r := Finish(nodes, strings0, ty, KExtern(id));
    }

    /** The external type of the base, then the arguments that are not left out. */
    method InternApplied(ty: TypeExpr, base: string, args: seq<TypeExpr>) returns (r: Result<nat>)
      requires Valid() && Room(nodes, strings, Weight(ty)) && ty == AppliedPath(base, args)
      modifies this
      ensures Valid() && Interned(old(nodes), old(strings), nodes, strings, ty, r)
      decreases Weight(ty), 0
    {
      assert Weight(ty) == 2 + WeightAll(args);
      KeptWeighsLess(args);
      hide Arena, TypesIndexed, StringsIndexed, Interned, InternedAll, BaseInterned, Grown, Ready, Weight, Kept;
      ghost var nodes0, strings0 := nodes, strings;
      var baseTy := InternBase(base);
      ghost var nodes1, strings1 := nodes, strings;
      BaseGrows(nodes0, strings0, nodes1, strings1, base, baseTy);
      RoomLeft(nodes0, strings0, nodes1, strings1, 1, Weight(ty));
      var ids := InternAll(Kept(args));
      if ids.ArtifactName? {
        AppliedFails(nodes0, strings0, nodes1, strings1, nodes, strings, ty, baseTy, ids.name);
        return ArtifactName(ids.name);
      }
      AppliedReady(nodes0, strings0, nodes1, strings1, nodes, strings, ty, baseTy, ids.value);
      r := Finish(nodes0, strings0, ty, KApplied(baseTy, ids.value));
    }

    method InternBase(base: string) returns (id: nat)
      requires Valid() && Room(nodes, strings, 1)
      modifies this`nodes, this`strings, this`pathIndex, this`typeIndex
      ensures Valid() && BaseInterned(old(nodes), old(strings), nodes, strings, base, id)
    {
      hide PathOf, StoredForm, Fragment;
      ghost var nodes0, strings0 := nodes, strings;
      var path := InternPath(Fragment(base));
      PathIsStored(base);
      IndexedIsCanonical(nodes, strings, typeIndex, nameIndex, pathIndex);
      BasePresent(nodes0, strings0, strings, base, path);
      id := InternType(KExtern(path));
    }

    method InternTuple(ty: TypeExpr, items: seq<TypeExpr>) returns (r: Result<nat>)
      requires Valid() && Room(nodes, strings, Weight(ty)) && ty == Tuple(items)
      modifies this
      ensures Valid() && Interned(old(nodes), old(strings), nodes, strings, ty, r)
      decreases Weight(ty), 0
    {
      hide Arena, TypesIndexed, StringsIndexed;
      ghost var nodes0, strings0 := nodes, strings;
      var ids := InternAll(items);
      if ids.ArtifactName? {
        return ArtifactName(ids.name);
      }
      TupleReady(nodes0, strings0, nodes, strings, ty, ids.value);
      r := Finish(nodes0, strings0, ty, KTuple(ids.value));
    }

    /** Intern each item in turn, stopping at the first that fails. */
    method InternAll(items: seq<TypeExpr>) returns (r: Result<seq<nat>>)
      requires Valid() && Room(nodes, strings, WeightAll(items))
      modifies this
      ensures Valid() && InternedAll(old(nodes), old(strings), nodes, strings, items, r)
      decreases WeightAll(items), 0
    {
      if items == [] {
        return Ok([]);
      }
      var n := |items| - 1;
      assert WeightAll(items) == WeightAll(items[..n]) + Weight(items[n]) + 1;
      hide Arena, TypesIndexed, StringsIndexed, Interned, InternedAll, Grown, Weight, WeightAll;
      ghost var nodes0, strings0 := nodes, strings;
      var front := InternAll(items[..n]);
      ghost var nodes1, strings1 := nodes, strings;
      AllGrows(nodes0, strings0, nodes1, strings1, items[..n], front);
      RoomLeft(nodes0, strings0, nodes1, strings1, WeightAll(items[..n]), WeightAll(items));
      if front.ArtifactName? {
        AllFailsEarly(nodes0, strings0, nodes, strings, items, front.name);
        return front;
      }
      var last := InternTyExpr(items[n]);
      if last.ArtifactName? {
        AllFailsLate(nodes0, strings0, nodes1, strings1, nodes, strings, items, front.value, last.name);
        return ArtifactName(last.name);
      }
      AllNext(nodes0, strings0, nodes1, strings1, nodes, strings, items, front.value, last.value);
      r := Ok(front.value + [last.value]);
    }

    /** A function pointer pushes parameter nodes and a signature of its own. */
    method InternFnPtr(ty: TypeExpr, params: seq<TypeExpr>, ret: TypeExpr) returns (r: Result<nat>)
      requires Valid() && Room(nodes, strings, Weight(ty)) && ty == FnPtr(params, ret)
      modifies this
      ensures Valid() && Interned(old(nodes), old(strings), nodes, strings, ty, r)
      ensures r.Ok? ==> FnPtrNamed(nodes, strings, r.value)
      decreases Weight(ty), 1
    {
      hide Arena, TypesIndexed, StringsIndexed, Interned, Ready, Weight, FnPtrNamed, ParamsNamed;
      ghost var nodes0, strings0 := nodes, strings;
      var sig := InternSignature(ty, params, ret);
      if sig.ArtifactName? {
        return sig;
      }
      ghost var nodes1, strings1 := nodes, strings;
      r := Finish(nodes0, strings0, ty, KFnPtr(sig.value));
      SignatureNamed(nodes1, strings1, nodes, strings, r.value);
    }

    /** The parameters in order, the result, then the signature node. */
    method InternSignature(ty: TypeExpr, params: seq<TypeExpr>, ret: TypeExpr) returns (r: Result<nat>)
      requires Valid() && Room(nodes, strings, Weight(ty)) && ty == FnPtr(params, ret)
      modifies this
      ensures Valid() && Signed(old(nodes), old(strings), nodes, strings, ty, r)
      decreases Weight(ty), 0
    {
      assert Weight(ty) == 2 + WeightAll(params) + Weight(ret);
      hide Arena, TypesIndexed, StringsIndexed, Interned, InternedParams, Grown, Ready, Weight, WeightAll, ParamsNamed;
      ghost var nodes0, strings0 := nodes, strings;
      var ps := InternParams(params);
      ghost var nodes1, strings1 := nodes, strings;
      ParamsGrow(nodes0, strings0, nodes1, strings1, params, ps);
      RoomLeft(nodes0, strings0, nodes1, strings1, WeightAll(params), Weight(ty));
      if ps.ArtifactName? {
        FnPtrFailsEarly(nodes0, strings0, nodes, strings, ty, ps.name);
        return ArtifactName(ps.name);
      }
      var rt := InternTyExpr(ret);
      if rt.ArtifactName? {
        FnPtrFailsLate(nodes0, strings0, nodes1, strings1, nodes, strings, ty, ps.value, rt.name);
        return rt;
      }
      ghost var nodes2 := nodes;
      SignatureFits(nodes0, strings0, nodes1, strings1, nodes2, strings, ty, ps.value, rt.value);
      var sig := PushNode(FnSigNode(ps.value, rt.value));
      FnPtrReady(nodes0, strings0, nodes1, strings1, nodes2, nodes, strings, ty, ps.value, rt.value, sig);
      NamedStays(nodes1, strings1, nodes, strings, ps.value);
      r := Ok(sig);
    }

    method InternParams(params: seq<TypeExpr>) returns (r: Result<seq<nat>>)
      requires Valid() && Room(nodes, strings, WeightAll(params))
      modifies this
      ensures Valid() && InternedParams(old(nodes), old(strings), nodes, strings, params, r)
      decreases WeightAll(params), 0
    {
      if params == [] {
        return Ok([]);
      }
      var n := |params| - 1;
      ghost var nodes0, strings0 := nodes, strings;
      var front := InternParams(params[..n]);
      if front.ArtifactName? {
        return front;
      }
      hide Arena, TypesIndexed, StringsIndexed, Interned, InternedParams;
      ghost var nodes1, strings1 := nodes, strings;
      var p := InternFnParam(n, params[n]);
      ParamsNext(nodes0, strings0, nodes1, strings1, nodes, strings, params, front.value, p);
      if p.ArtifactName? {
        return ArtifactName(p.name);
      }
      r := Ok(front.value + [p.value]);
    }

    /** The `n`-th parameter: its made-up name, its type, then its own node. */
    method InternFnParam(n: nat, t: TypeExpr) returns (r: Result<nat>)
      requires Valid() && Room(nodes, strings, Weight(t) + 1)
      modifies this
      ensures Valid() && InternedParam(old(nodes), old(strings), nodes, strings, n, t, r)
      decreases Weight(t), 3
    {
      ghost var nodes0, strings0 := nodes, strings;
      ArgNamesAreClean(n);
      var name := InternName(ArgName(n));
      ghost var strings1 := strings;
      assert Grown(nodes0, strings0, nodes0, strings1, 1);
      hide Arena, TypesIndexed, StringsIndexed, Interned, InternedParam, Grown, Weight, IsAllocArtifact, ArgName;
      var ty := InternTyExpr(t);
      if ty.ArtifactName? {
        ParamFails(nodes0, strings0, strings1, nodes, strings, n, t, ty.name);
        return ArtifactName(ty.name);
      }
      ghost var nodes2 := nodes;
      ParamRoom(nodes0, strings1, nodes, strings, t, ty.value);
      var p := PushNode(ParamNode(name.value, ty.value));
      ParamPushed(nodes0, strings0, strings1, nodes2, nodes, strings, n, t, name.value, ty.value);
      r := Ok(p);
    }
  }

  /** What pushing a named node promises. */
  ghost predicate Named(nodes0: seq<Node>, strings0: Strings, nodes: seq<Node>, strings: Strings, s: string,
                        lifetime: bool, r: Result<nat>) {
    && Grown(nodes0, strings0, nodes, strings, 1)
    && (r.Ok? <==> !IsAllocArtifact(s))
    && (r.Ok? ==>
          && r.value == |nodes0| == |nodes| - 1 &&
              (if lifetime then nodes[r.value].LifetimeNode? else nodes[r.value].TypeRefNode?)
          && nodes[r.value].nameId < |strings.names| && strings.names[nodes[r.value].nameId] == s)
  }

  lemma NamedGrows(nodes0: seq<Node>, strings0: Strings, nodes: seq<Node>, strings: Strings, s: string, lifetime: bool,
                   r: Result<nat>)
    requires Named(nodes0, strings0, nodes, strings, s, lifetime, r)
    ensures Grown(nodes0, strings0, nodes, strings, 1)
  {
  }

  lemma NameFails(nodes0: seq<Node>, strings0: Strings, nodes: seq<Node>, strings: Strings, ty: TypeExpr, s: string,
                  lifetime: bool, r: Result<nat>)
    requires Named(nodes0, strings0, nodes, strings, s, lifetime, r) && r.ArtifactName?
    requires (ty.Ref? && ty.lifetime == Some(s)) || ty == DynTrait(s) || ty == ImplTrait(s)
    ensures Interned(nodes0, strings0, nodes, strings, ty, ArtifactName(s))
  {
    GrownMore(nodes0, strings0, nodes, strings, 1, Weight(ty));
  }

  lemma LifetimeFails(nodes0: seq<Node>, strings0: Strings, nodes1: seq<Node>, strings1: Strings, nodes: seq<Node>,
                      strings: Strings, ty: TypeExpr, r: Result<nat>)
    requires ty.Ref? && ty.lifetime.Some? && r.ArtifactName?
    requires Grown(nodes0, strings0, nodes1, strings1, 1) && Interned(nodes1, strings1, nodes, strings, ty.inner, r)
    ensures Interned(nodes0, strings0, nodes, strings, ty, r)
  {
    GrownTwice(nodes0, strings0, nodes1, strings1, nodes, strings, 1, Weight(ty.inner));
    GrownMore(nodes0, strings0, nodes, strings, 1 + Weight(ty.inner), Weight(ty));
  }

  lemma TraitReady(nodes0: seq<Node>, strings0: Strings, nodes: seq<Node>, strings: Strings, ty: TypeExpr, t: nat)
    requires ty.DynTrait? || ty.ImplTrait?
    requires Named(nodes0, strings0, nodes, strings, ty.path, false, Ok(t))
    ensures Ready(nodes0, strings0, nodes, strings, ty, if ty.DynTrait? then KDynTrait(t) else KImplTrait(t))
  {
  }

  lemma ParamFails(nodes0: seq<Node>, strings0: Strings, strings1: Strings, nodes: seq<Node>, strings: Strings,
                   n: nat, t: TypeExpr, name: string)
    requires Grown(nodes0, strings0, nodes0, strings1, 1)
    requires Interned(nodes0, strings1, nodes, strings, t, ArtifactName(name))
    ensures InternedParam(nodes0, strings0, nodes, strings, n, t, ArtifactName(name))
  {
    GrownTwice(nodes0, strings0, nodes0, strings1, nodes, strings, 1, Weight(t));
  }

  lemma ParamRoom(nodes0: seq<Node>, strings1: Strings, nodes: seq<Node>, strings: Strings, t: TypeExpr, ty: nat)
    requires Interned(nodes0, strings1, nodes, strings, t, Ok(ty))
    ensures |nodes| <= |nodes0| + Weight(t) && IsType(nodes, ty) && Extends(strings1, strings)
  {
  }

  lemma ParamPushed(nodes0: seq<Node>, strings0: Strings, strings1: Strings, nodes2: seq<Node>, nodes: seq<Node>,
                    strings: Strings, n: nat, t: TypeExpr, name: nat, ty: nat)
    requires Grown(nodes0, strings0, nodes0, strings1, 1) && Interned(nodes0, strings1, nodes2, strings, t, Ok(ty))
    requires nodes == nodes2 + [ParamNode(name, ty)] && Arena(nodes, strings)
    requires name < |strings1.names| && strings1.names[name] == ArgName(n)
    ensures InternedParam(nodes0, strings0, nodes, strings, n, t, Ok(|nodes2|))
  {
    hide Arena, Norm, Clean, Weight, Shareable, Stored;
    ReadStable(nodes2, strings, nodes, strings, ty);
  }

  lemma AllGrows(nodes0: seq<Node>, strings0: Strings, nodes: seq<Node>, strings: Strings, ts: seq<TypeExpr>,
                 r: Result<seq<nat>>)
    requires InternedAll(nodes0, strings0, nodes, strings, ts, r)
    ensures Grown(nodes0, strings0, nodes, strings, WeightAll(ts))
  {
  }

  lemma AllFailsEarly(nodes0: seq<Node>, strings0: Strings, nodes: seq<Node>, strings: Strings, ts: seq<TypeExpr>,
                      name: string)
    requires ts != [] && InternedAll(nodes0, strings0, nodes, strings, ts[..|ts| - 1], ArtifactName(name))
    ensures InternedAll(nodes0, strings0, nodes, strings, ts, ArtifactName(name))
  {
    GrownMore(nodes0, strings0, nodes, strings, WeightAll(ts[..|ts| - 1]), WeightAll(ts));
  }

  lemma AllFailsLate(nodes0: seq<Node>, strings0: Strings, nodes1: seq<Node>, strings1: Strings, nodes: seq<Node>,
                     strings: Strings, ts: seq<TypeExpr>, front: seq<nat>, name: string)
    requires ts != [] && InternedAll(nodes0, strings0, nodes1, strings1, ts[..|ts| - 1], Ok(front))
    requires Interned(nodes1, strings1, nodes, strings, ts[|ts| - 1], ArtifactName(name))
    ensures InternedAll(nodes0, strings0, nodes, strings, ts, ArtifactName(name))
  {
    var v, w := WeightAll(ts[..|ts| - 1]), Weight(ts[|ts| - 1]);
    GrownTwice(nodes0, strings0, nodes1, strings1, nodes, strings, v, w);
    GrownMore(nodes0, strings0, nodes, strings, v + w, WeightAll(ts));
  }

  /** What interning the base of an applied path promises. */
  ghost predicate BaseInterned(nodes0: seq<Node>, strings0: Strings, nodes: seq<Node>, strings: Strings, base: string,
                               id: nat) {
    && Grown(nodes0, strings0, nodes, strings, 1)
    && IsType(nodes, id) && nodes[id].kind.KExtern?
    && nodes[id].kind.pathId < |strings.paths| && strings.paths[nodes[id].kind.pathId] == PathOf(base)
    && (Stored(nodes0, strings0, Path(PathOf(base))) ==> nodes == nodes0 && strings == strings0)
  }

  lemma BaseGrows(nodes0: seq<Node>, strings0: Strings, nodes: seq<Node>, strings: Strings, base: string, id: nat)
    requires BaseInterned(nodes0, strings0, nodes, strings, base, id)
    ensures Grown(nodes0, strings0, nodes, strings, 1)
  {
  }

  lemma PathIsStored(raw: string)
    ensures StoredForm(Fragment(raw)) == PathOf(raw)
  {
  }

  /** If the base is there already, so is its path, and its node. */
  lemma BasePresent(nodes: seq<Node>, strings0: Strings, strings: Strings, base: string, path: nat)
    requires Arena(nodes, strings0) && Canonical(nodes, strings) && Extends(strings0, strings)
    requires path < |strings.paths| && strings.paths[path] == PathOf(base)
    requires PathOf(base) in strings0.paths ==> strings == strings0
    ensures Stored(nodes, strings0, Path(PathOf(base))) ==> strings == strings0 && TypeNode(KExtern(path)) in nodes
  {
    hide PathOf;
    if Stored(nodes, strings0, Path(PathOf(base))) {
      StoredParts(nodes, strings0, Path(PathOf(base)));
      StoredKind(nodes, strings, KExtern(path), |nodes|);
    }
  }

  lemma PresentKind(nodes0: seq<Node>, strings0: Strings, nodes: seq<Node>, strings: Strings, ty: TypeExpr,
                    kind: TypeKind)
    requires Canonical(nodes, strings) && Ready(nodes0, strings0, nodes, strings, ty, kind)
    ensures Shareable(ty) && Stored(nodes0, strings0, Norm(ty)) ==> TypeNode(kind) in nodes
  {
    NormShareable(ty);
    if Shareable(ty) && Stored(nodes0, strings0, Norm(ty)) {
      StoredKind(nodes, strings, kind, |nodes|);
    }
  }

  lemma FinishInterned(nodes0: seq<Node>, strings0: Strings, nodes1: seq<Node>, nodes: seq<Node>, strings: Strings,
                       ty: TypeExpr, kind: TypeKind, id: nat)
    requires Ready(nodes0, strings0, nodes1, strings, ty, kind) && Arena(nodes, strings)
    requires Shareable(ty) && Stored(nodes0, strings0, Norm(ty)) ==> nodes == nodes1
    requires nodes == nodes1 || nodes == nodes1 + [TypeNode(kind)]
    requires IsType(nodes, id) && nodes[id].kind == kind
    ensures Interned(nodes0, strings0, nodes, strings, ty, Ok(id))
  {
    assert NodeOk(nodes, strings, id);
    hide Clean, Norm, Weight, Shareable, Stored, Refers;
    ReadKindStable(nodes1, strings, nodes, strings, kind, |nodes1|);
    BelowIrrelevant(nodes, strings, kind, |nodes1|, id);
  }

  /** The content refers to some node at or after `n`. */
  predicate Refers(kind: TypeKind, n: nat) {
    match kind
    case KRef(lt, inner, _) => inner >= n || (lt.Some? && lt.value >= n)
    case KRawPtr(inner, _) => inner >= n
    case KArray(inner, _) => inner >= n
    case KSlice(inner) => inner >= n
    case KTuple(items) => exists k :: 0 <= k < |items| && items[k] >= n
    case KFnPtr(sig) => sig >= n
    case KDynTrait(t) => t >= n
    case KImplTrait(t) => t >= n
    case KApplied(base, args) => base >= n || exists k :: 0 <= k < |args| && args[k] >= n
    case KExtern(_) => false
    case KPrimitive(_) => false
    case KParam(_) => false
  }

  /** What a content denotes does not depend on the bound under which it is read. */
  lemma BelowIrrelevant(nodes: seq<Node>, strings: Strings, kind: TypeKind, a: nat, b: nat)
    requires Arena(nodes, strings) && KindOk(nodes, strings, a, kind) && KindOk(nodes, strings, b, kind)
    ensures ReadKind(nodes, strings, kind, a) == ReadKind(nodes, strings, kind, b)
  {
    if kind.KTuple? {
      ItemsBelow(nodes, strings, kind.items, a, b);
    } else if kind.KApplied? {
      ItemsBelow(nodes, strings, kind.args, a, b);
    }
  }

  lemma {:induction false} ItemsBelow(nodes: seq<Node>, strings: Strings, ids: seq<nat>, a: nat, b: nat)
    requires Arena(nodes, strings)
    requires forall k :: 0 <= k < |ids| ==> ids[k] < a && ids[k] < b && IsType(nodes, ids[k])
    ensures ReadAll(nodes, strings, ids, a) == ReadAll(nodes, strings, ids, b)
    decreases |ids|
  {
    if ids == [] {
    } else {
      ItemsBelow(nodes, strings, ids[..|ids| - 1], a, b);
    }
  }

  /** Two shareable types in one arena have equal ids exactly when they are equal up to `Norm`. */
  lemma IdsAreStructure(nodes: seq<Node>, strings: Strings, a: nat, b: nat, t: TypeExpr, u: TypeExpr)
    requires Canonical(nodes, strings) && IsType(nodes, a) && IsType(nodes, b)
    requires Read(nodes, strings, a) == Norm(t) && Read(nodes, strings, b) == Norm(u) && Shareable(t)
    ensures a == b <==> Norm(t) == Norm(u)
    ensures Verbatim(t) && Verbatim(u) ==> (a == b <==> t == u)
  {
    NormShareable(t);
    NormIsIdentity(t);
    NormIsIdentity(u);
    hide Norm, Verbatim, Shareable;
    if Norm(t) == Norm(u) {
      EqualStructureEqualIds(nodes, strings, a, b);
    }
  }

  /** The result of interning `t`, read in this or in a later arena. */
  ghost predicate ReadsBack(nodes: seq<Node>, strings: Strings, t: TypeExpr, r: Result<nat>)
    requires Arena(nodes, strings)
  {
    && (r.Ok? <==> Clean(t))
    && (r.Ok? ==>
          && IsType(nodes, r.value) && Read(nodes, strings, r.value) == Norm(t)
          && (Read(nodes, strings, r.value) == t <==> Verbatim(t)))
  }

  /** Both results of two interning steps, seen from the end. */
  ghost predicate BothRead(nodes: seq<Node>, strings: Strings, t: TypeExpr, u: TypeExpr, a: Result<nat>,
                           b: Result<nat>) {
    && Arena(nodes, strings) && ReadsBack(nodes, strings, t, a) && ReadsBack(nodes, strings, u, b)
    && (a.Ok? && b.Ok? && Shareable(t) ==> (a.value == b.value <==> Norm(t) == Norm(u)))
    && (a.Ok? && b.Ok? && Shareable(t) && Verbatim(t) && Verbatim(u) ==> (a.value == b.value <==> t == u))
  }

  lemma StillReads(nodes0: seq<Node>, strings0: Strings, nodes1: seq<Node>, strings1: Strings, nodes: seq<Node>,
                   strings: Strings, t: TypeExpr, r: Result<nat>)
    requires Interned(nodes0, strings0, nodes1, strings1, t, r)
    requires nodes1 <= nodes && Extends(strings1, strings) && Arena(nodes, strings)
    ensures ReadsBack(nodes, strings, t, r)
  {
    hide Weight, Clean, Norm, Shareable, Stored, Verbatim, Arena;
    NormIsIdentity(t);
    if r.Ok? {
      ReadStable(nodes1, strings1, nodes, strings, r.value);
    }
  }

  lemma InternedGrows(nodes0: seq<Node>, strings0: Strings, nodes: seq<Node>, strings: Strings, t: TypeExpr,
                      r: Result<nat>)
    requires Interned(nodes0, strings0, nodes, strings, t, r)
    ensures nodes0 <= nodes && Extends(strings0, strings) && Arena(nodes, strings)
  {
    hide Arena;
  }

  lemma TwiceInterned(nodes0: seq<Node>, strings0: Strings, nodes1: seq<Node>, strings1: Strings, nodes: seq<Node>,
                      strings: Strings, t: TypeExpr, u: TypeExpr, a: Result<nat>, b: Result<nat>)
    requires Interned(nodes0, strings0, nodes1, strings1, t, a) && Interned(nodes1, strings1, nodes, strings, u, b)
    requires Canonical(nodes, strings)
    ensures BothRead(nodes, strings, t, u, a, b)
  {
    hide Interned, Clean, Norm, Shareable, Verbatim, Canonical, Arena;
    InternedGrows(nodes1, strings1, nodes, strings, u, b);
    StillReads(nodes0, strings0, nodes1, strings1, nodes, strings, t, a);
    StillReads(nodes1, strings1, nodes, strings, nodes, strings, u, b);
    if a.Ok? && b.Ok? && Shareable(t) {
      IdsAreStructure(nodes, strings, a.value, b.value, t, u);
    }
  }

  /** Two types interned one after the other into any valid arena: both ids read back, and for a shareable
      type the ids are equal exactly when the types are equal up to `Norm`. For types kept word for word
      that is: both read back as they are, and only equal types share an id. */
  method InternBoth(ir: CanonIR, t: TypeExpr, u: TypeExpr) returns (a: Result<nat>, b: Result<nat>)
    requires ir.Valid() && Room(ir.nodes, ir.strings, Weight(t) + Weight(u))
    modifies ir
    ensures ir.Valid() && BothRead(ir.nodes, ir.strings, t, u, a, b)
  {
    ghost var nodes0, strings0 := ir.nodes, ir.strings;
    a := ir.InternTyExpr(t);
    ghost var nodes1, strings1 := ir.nodes, ir.strings;
    hide Arena, TypesIndexed, StringsIndexed, Weight, Clean, Norm, Shareable, Stored, BothRead;
    b := ir.InternTyExpr(u);
    hide Interned;
    IndexedIsCanonical(ir.nodes, ir.strings, ir.typeIndex, ir.nameIndex, ir.pathIndex);
    TwiceInterned(nodes0, strings0, nodes1, strings1, ir.nodes, ir.strings, t, u, a, b);
  }

  lemma {:induction false} DigitsOnly(n: nat)
    ensures forall i :: 0 <= i < |Decimal(n)| ==> '0' <= Decimal(n)[i] <= '9'
    decreases n
  {
    if n < 10 {
    } else {
      DigitsOnly(n / 10);
    }
  }

  lemma HasChar(s: string, sub: string, k: nat)
    requires k < |sub|
    ensures Contains(s, sub) ==> sub[k] in s
  {
    if Contains(s, sub) {
      var i :| 0 <= i <= |s| && ContainsAt(s, sub, i);
      assert s[i + k] == s[i..i + |sub|][k];
    }
  }

  /** The strings that function pointers bring along are always acceptable. */
  lemma ArgNamesAreClean(i: nat)
    ensures !IsAllocArtifact(ArgName(i))
  {
    DigitsOnly(i);
    var s := ArgName(i);
    assert s[0] == '_' && s[2] == 'f';
    assert '\0' !in s && '{' !in s && '[' !in s;
    HasChar(s, "\0", 0);
    HasChar(s, "{{", 0);
    HasChar(s, "{alloc", 0);
    HasChar(s, "promoted[", 8);
  }

  // ------------------------------------------------------------ one lemma per constructor

  predicate IsWrapper(ty: TypeExpr) {
    (ty.Ref? && ty.lifetime.None?) || ty.RawPtr? || ty.Array? || ty.Slice?
  }

  /** The content for a type with one child; an array of unknown length becomes a slice. */
  function WrapperKind(ty: TypeExpr, child: nat): TypeKind
    requires IsWrapper(ty)
  {
    match ty
    case Ref(_, _, m) => KRef(None, child, m)
    case RawPtr(_, m) => KRawPtr(child, m)
    case Array(_, len) => if len.Some? then KArray(child, len.value) else KSlice(child)
    case Slice(_) => KSlice(child)
  }

  lemma WrapperFails(nodes0: seq<Node>, strings0: Strings, nodes: seq<Node>, strings: Strings, ty: TypeExpr,
                     r: Result<nat>)
    requires IsWrapper(ty) && r.ArtifactName? && Interned(nodes0, strings0, nodes, strings, ty.inner, r)
    ensures Interned(nodes0, strings0, nodes, strings, ty, r)
  {
  }

  lemma WrapperReady(nodes0: seq<Node>, strings0: Strings, nodes: seq<Node>, strings: Strings, ty: TypeExpr,
                     child: nat)
    requires IsWrapper(ty) && Interned(nodes0, strings0, nodes, strings, ty.inner, Ok(child))
    ensures Ready(nodes0, strings0, nodes, strings, ty, WrapperKind(ty, child))
  {
    if Shareable(ty) && Stored(nodes0, strings0, Norm(ty)) {
      StoredParts(nodes0, strings0, Norm(ty));
    }
  }

  lemma ParamReady(nodes: seq<Node>, strings0: Strings, strings: Strings, ty: TypeExpr, id: nat)
    requires ty.Param? && Clean(ty) && Grown(nodes, strings0, nodes, strings, 1) && Arena(nodes, strings)
    requires id < |strings.names| && strings.names[id] == ty.name && (ty.name in strings0.names ==> strings == strings0)
    ensures Ready(nodes, strings0, nodes, strings, ty, KParam(id))
  {
    if Stored(nodes, strings0, ty) {
      StoredParts(nodes, strings0, ty);
    }
  }

  lemma PathReady(nodes: seq<Node>, strings0: Strings, strings: Strings, ty: TypeExpr, id: nat)
    requires ty.Path? && Grown(nodes, strings0, nodes, strings, 1) && Arena(nodes, strings)
    requires id < |strings.paths| && strings.paths[id] == PathOf(ty.path)
    requires PathOf(ty.path) in strings0.paths ==> strings == strings0
    ensures Ready(nodes, strings0, nodes, strings, ty, KExtern(id))
  {
    hide PathOf;
    if Stored(nodes, strings0, Norm(ty)) {
      StoredParts(nodes, strings0, Norm(ty));
    }
  }

  /** What a failure promises. */
  lemma Fails(nodes0: seq<Node>, strings0: Strings, nodes: seq<Node>, strings: Strings, ty: TypeExpr, v: nat,
              name: string)
    requires Grown(nodes0, strings0, nodes, strings, v) && v <= Weight(ty) && !Clean(ty)
    ensures Interned(nodes0, strings0, nodes, strings, ty, ArtifactName(name))
  {
    hide Grown, Clean, Weight, Norm, Shareable, Stored;
    GrownMore(nodes0, strings0, nodes, strings, v, Weight(ty));
  }

  lemma AppliedCosts(ty: TypeExpr)
    requires ty.AppliedPath?
    ensures Clean(ty) == AllClean(Kept(ty.args)) && 2 + WeightAll(Kept(ty.args)) <= Weight(ty)
  {
    hide Kept, AllClean;
    KeptIsClean(ty.args);
    KeptWeighsLess(ty.args);
  }

  lemma AppliedFails(nodes0: seq<Node>, strings0: Strings, nodes1: seq<Node>, strings1: Strings, nodes: seq<Node>,
                     strings: Strings, ty: TypeExpr, baseTy: nat, name: string)
    requires ty.AppliedPath? && BaseInterned(nodes0, strings0, nodes1, strings1, ty.base, baseTy)
    requires InternedAll(nodes1, strings1, nodes, strings, Kept(ty.args), ArtifactName(name))
    ensures Interned(nodes0, strings0, nodes, strings, ty, ArtifactName(name))
  {
    hide Grown, Interned, Kept, AllClean, Clean, Weight, WeightAll, Stored, AllStored, NormAll, AllShareable, PathOf;
    AppliedCosts(ty);
    GrownTwice(nodes0, strings0, nodes1, strings1, nodes, strings, 1, WeightAll(Kept(ty.args)));
    Fails(nodes0, strings0, nodes, strings, ty, 1 + WeightAll(Kept(ty.args)), name);
  }

  lemma AppliedReady(nodes0: seq<Node>, strings0: Strings, nodes1: seq<Node>, strings1: Strings, nodes: seq<Node>,
                     strings: Strings, ty: TypeExpr, baseTy: nat, ids: seq<nat>)
    requires ty.AppliedPath? && BaseInterned(nodes0, strings0, nodes1, strings1, ty.base, baseTy)
    requires InternedAll(nodes1, strings1, nodes, strings, Kept(ty.args), Ok(ids))
    ensures Ready(nodes0, strings0, nodes, strings, ty, KApplied(baseTy, ids))
  {
    hide PathOf, Kept, Dropped;
    KeptIsClean(ty.args);
    KeptIsNormed(ty.args);
    KeptIsShareable(ty.args);
    KeptWeighsLess(ty.args);
    assert nodes[baseTy] == nodes1[baseTy];
    if Shareable(ty) && Stored(nodes0, strings0, Norm(ty)) {
      StoredParts(nodes0, strings0, Norm(ty));
    }
  }

  lemma LifetimeReady(nodes0: seq<Node>, strings0: Strings, nodes1: seq<Node>, strings1: Strings,
                      nodes: seq<Node>, strings: Strings, ty: TypeExpr, lt: nat, child: nat)
    requires ty.Ref? && ty.lifetime.Some? && !IsAllocArtifact(ty.lifetime.value)
    requires Grown(nodes0, strings0, nodes1, strings1, 1) &&
        Interned(nodes1, strings1, nodes, strings, ty.inner, Ok(child))
    requires lt == |nodes0| < |nodes1| && nodes1[lt].LifetimeNode?
    requires nodes1[lt].nameId < |strings1.names| && strings1.names[nodes1[lt].nameId] == ty.lifetime.value
    ensures Ready(nodes0, strings0, nodes, strings, ty, KRef(Some(lt), child, ty.mutable))
  {
    assert nodes[lt] == nodes1[lt] && strings.names[nodes[lt].nameId] == ty.lifetime.value;
  }

  lemma TupleReady(nodes0: seq<Node>, strings0: Strings, nodes: seq<Node>, strings: Strings, ty: TypeExpr,
                   ids: seq<nat>)
    requires ty.Tuple? && InternedAll(nodes0, strings0, nodes, strings, ty.items, Ok(ids))
    ensures Ready(nodes0, strings0, nodes, strings, ty, KTuple(ids))
  {
    if Shareable(ty) && Stored(nodes0, strings0, Norm(ty)) {
      StoredParts(nodes0, strings0, Norm(ty));
    }
  }

  /** The list so far, and one more. */
  lemma AllNext(nodes0: seq<Node>, strings0: Strings, nodes1: seq<Node>, strings1: Strings,
                nodes: seq<Node>, strings: Strings, ts: seq<TypeExpr>, front: seq<nat>, last: nat)
    requires ts != [] && InternedAll(nodes0, strings0, nodes1, strings1, ts[..|ts| - 1], Ok(front))
    requires Interned(nodes1, strings1, nodes, strings, ts[|ts| - 1], Ok(last))
    ensures InternedAll(nodes0, strings0, nodes, strings, ts, Ok(front + [last]))
  {
    hide Norm, Clean, Weight, Shareable;
    var n := |ts| - 1;
    var ids := front + [last];
    assert ids[..n] == front;
    ReadAllStable(nodes1, strings1, nodes, strings, front, |nodes1|);
    ItemsBelow(nodes, strings, front, |nodes1|, |nodes|);
    assert TypesBelow(nodes, ids, |nodes|);
    assert ReadAll(nodes, strings, ids, |nodes|) == NormAll(ts);
    if !AllShareable(ts) {
      NextRefers(nodes0, strings0, nodes1, strings1, nodes, strings, ts, front, last);
    }
  }

  lemma NextRefers(nodes0: seq<Node>, strings0: Strings, nodes1: seq<Node>, strings1: Strings,
                   nodes: seq<Node>, strings: Strings, ts: seq<TypeExpr>, front: seq<nat>, last: nat)
    requires ts != [] && !AllShareable(ts) && InternedAll(nodes0, strings0, nodes1, strings1, ts[..|ts| - 1], Ok(front))
    requires Interned(nodes1, strings1, nodes, strings, ts[|ts| - 1], Ok(last))
    ensures exists k :: 0 <= k < |front + [last]| && (front + [last])[k] >= |nodes0|
  {
    if AllShareable(ts[..|ts| - 1]) {
      assert (front + [last])[|front|] >= |nodes0|;
    } else {
      var k :| 0 <= k < |front| && front[k] >= |nodes0|;
      assert (front + [last])[k] >= |nodes0|;
    }
  }

  /** What interning the signature of a function pointer promises. */
  ghost predicate Signed(nodes0: seq<Node>, strings0: Strings, nodes: seq<Node>, strings: Strings, ty: TypeExpr,
                         r: Result<nat>) {
    match r
    case ArtifactName(name) => Interned(nodes0, strings0, nodes, strings, ty, ArtifactName(name))
    case Ok(sig) =>
      && Ready(nodes0, strings0, nodes, strings, ty, KFnPtr(sig))
      && sig < |nodes| && nodes[sig].FnSigNode? && ParamsNamed(nodes, strings, nodes[sig].params)
  }

  lemma ParamsGrow(nodes0: seq<Node>, strings0: Strings, nodes: seq<Node>, strings: Strings, ts: seq<TypeExpr>,
                   r: Result<seq<nat>>)
    requires InternedParams(nodes0, strings0, nodes, strings, ts, r)
    ensures Grown(nodes0, strings0, nodes, strings, WeightAll(ts))
  {
  }

  lemma FnPtrFailsEarly(nodes0: seq<Node>, strings0: Strings, nodes: seq<Node>, strings: Strings, ty: TypeExpr,
                        name: string)
    requires ty.FnPtr? && InternedParams(nodes0, strings0, nodes, strings, ty.params, ArtifactName(name))
    ensures Interned(nodes0, strings0, nodes, strings, ty, ArtifactName(name))
  {
    hide Grown, Interned;
    Fails(nodes0, strings0, nodes, strings, ty, WeightAll(ty.params), name);
  }

  lemma FnPtrFailsLate(nodes0: seq<Node>, strings0: Strings, nodes1: seq<Node>, strings1: Strings, nodes: seq<Node>,
                       strings: Strings, ty: TypeExpr, ps: seq<nat>, name: string)
    requires ty.FnPtr? && InternedParams(nodes0, strings0, nodes1, strings1, ty.params, Ok(ps))
    requires Interned(nodes1, strings1, nodes, strings, ty.ret, ArtifactName(name))
    ensures Interned(nodes0, strings0, nodes, strings, ty, ArtifactName(name))
  {
    hide Grown;
    GrownTwice(nodes0, strings0, nodes1, strings1, nodes, strings, WeightAll(ty.params), Weight(ty.ret));
    Fails(nodes0, strings0, nodes, strings, ty, WeightAll(ty.params) + Weight(ty.ret), name);
  }

  /** There is room for the signature, and it refers to nodes of the right sort; the names are in place. */
  lemma SignatureFits(nodes0: seq<Node>, strings0: Strings, nodes1: seq<Node>, strings1: Strings, nodes: seq<Node>,
                      strings: Strings, ty: TypeExpr, ps: seq<nat>, rt: nat)
    requires ty.FnPtr? && Room(nodes0, strings0, Weight(ty))
    requires InternedParams(nodes0, strings0, nodes1, strings1, ty.params, Ok(ps))
    requires Interned(nodes1, strings1, nodes, strings, ty.ret, Ok(rt))
    ensures |nodes| < U32_SPAN && NodeOk(nodes + [FnSigNode(ps, rt)], strings, |nodes|)
    ensures nodes1 <= nodes && Extends(strings1, strings) && ParamsNamed(nodes1, strings1, ps)
  {
    hide Arena, ParamsNamed, Norm, NormAll, Clean, Shareable, Stored;
  }

  lemma FnPtrReady(nodes0: seq<Node>, strings0: Strings, nodes1: seq<Node>, strings1: Strings, nodes2: seq<Node>,
                   nodes: seq<Node>, strings: Strings, ty: TypeExpr, ps: seq<nat>, rt: nat, sig: nat)
    requires ty.FnPtr? && InternedParams(nodes0, strings0, nodes1, strings1, ty.params, Ok(ps))
    requires Interned(nodes1, strings1, nodes2, strings, ty.ret, Ok(rt))
    requires nodes == nodes2 + [FnSigNode(ps, rt)] && sig == |nodes2| && Arena(nodes, strings)
    ensures Ready(nodes0, strings0, nodes, strings, ty, KFnPtr(sig))
  {
    assert nodes[sig] == FnSigNode(ps, rt);
    assert NodeOk(nodes, strings, sig);
    ReadParamsStable(nodes1, strings1, nodes, strings, ps, |nodes1|);
    ParamsBelowIrrelevant(nodes, strings, ps, |nodes1|, sig);
    ReadStable(nodes2, strings, nodes, strings, rt);
  }

  lemma {:induction false} ParamsBelowIrrelevant(nodes: seq<Node>, strings: Strings, ids: seq<nat>, a: nat, b: nat)
    requires Arena(nodes, strings) && ParamsBelow(nodes, ids, a) && ParamsBelow(nodes, ids, b)
    ensures ReadParams(nodes, strings, ids, a) == ReadParams(nodes, strings, ids, b)
    decreases |ids|
  {
    if ids == [] {
    } else {
      ParamsBelowIrrelevant(nodes, strings, ids[..|ids| - 1], a, b);
    }
  }

  lemma ParamsRead(nodes1: seq<Node>, strings1: Strings, nodes: seq<Node>, strings: Strings, ts: seq<TypeExpr>,
                   front: seq<nat>, id: nat)
    requires Arena(nodes1, strings1) && Arena(nodes, strings) && nodes1 <= nodes && Extends(strings1, strings)
    requires ts != [] && |front| == |ts| - 1 && ParamsBelow(nodes1, front, |nodes1|)
    requires ReadParams(nodes1, strings1, front, |nodes1|) == NormAll(ts[..|ts| - 1])
    requires id < |nodes| && nodes[id].ParamNode? && nodes[id].ty < id && IsType(nodes, nodes[id].ty)
    requires Read(nodes, strings, nodes[id].ty) == Norm(ts[|ts| - 1])
    ensures ParamsBelow(nodes, front + [id], |nodes|)
    ensures ReadParams(nodes, strings, front + [id], |nodes|) == NormAll(ts)
  {
    hide Norm, Read;
    var ids := front + [id];
    assert ids[..|front|] == front;
    ReadParamsStable(nodes1, strings1, nodes, strings, front, |nodes1|);
    ParamsBelowIrrelevant(nodes, strings, front, |nodes1|, |nodes|);
  }

  lemma ParamsNext(nodes0: seq<Node>, strings0: Strings, nodes1: seq<Node>, strings1: Strings,
                   nodes: seq<Node>, strings: Strings, ts: seq<TypeExpr>, front: seq<nat>, p: Result<nat>)
    requires ts != []
    requires InternedParams(nodes0, strings0, nodes1, strings1, ts[..|ts| - 1], Ok(front))
    requires InternedParam(nodes1, strings1, nodes, strings, |ts| - 1, ts[|ts| - 1], p)
    ensures InternedParams(nodes0, strings0, nodes, strings, ts,
        match p case Ok(id) => Ok(front + [id]) case ArtifactName(s) => ArtifactName(s))
  {
    hide Arena, ReadParams, Norm, NormAll, Clean, Weight, ParamsNamed, ParamsBelow, Decimal;
    if p.Ok? {
      assert ParamNamed(nodes, strings, p.value, |ts| - 1);
      NamedNext(nodes1, strings1, nodes, strings, front, p.value);
      ParamsRead(nodes1, strings1, nodes, strings, ts, front, p.value);
    }
  }
}
