/** Compressed sparse rows: three builders, the readers, and the validity check.
    The rows themselves are defined with the stable sort in `CsrRows`. */
module Csr {
  import opened Machine
  import opened CsrRows

  // ------------------------------------------------------------ the three builders

  /** Every arc with its ends exchanged and its kind kept. */
  function Turned(es: seq<Arc>): (r: seq<Arc>)
    ensures |r| == |es|
    ensures forall i :: 0 <= i < |es| ==> r[i].src == es[i].dst && r[i].dst == es[i].src && r[i].kind == es[i].kind
  {
    seq(|es|, i requires 0 <= i < |es| => Arc(es[i].dst, es[i].src, es[i].kind))
  }

  function Directed(es: seq<Arc>, reverse: bool): (r: seq<Arc>)
    ensures |r| == |es|
  {
    if reverse then Turned(es) else es
  }

  /** `col` and `kind` are those of the first `|col|` arcs. */
  ghost predicate Copied(es: seq<Arc>, col: seq<nat>, kind: seq<nat>) {
    && |col| == |kind| <= |es|
    && forall i :: 0 <= i < |col| ==> col[i] == es[i].dst && kind[i] == es[i].kind
  }

  lemma CopiedIsHeld(csr: CanonCsr, es: seq<Arc>, n: nat)
    requires Sorted(es) && |csr.rowPtr| == n + 1 && Placed(csr.rowPtr, es, n)
    requires Copied(es, csr.colIdx, csr.kind) && |csr.colIdx| == |Rows(es, n)|
    ensures HoldsRowsU32(csr, es, n)
  {
    RowsArePrefix(es, n);
    hide Rows, AsU32;
  }

  /** While the rows fit, no row start is cut. */
  lemma StartsFit(csr: CanonCsr, es: seq<Arc>, n: nat)
    ensures HoldsRows(csr, es, n) <==> HoldsRowsU32(csr, es, n) && |Rows(es, n)| <= U32_MAX
  {
    hide AsU32;
    forall k: nat | k <= n
      ensures |Rows(es, k)| <= |Rows(es, n)|
    {
      RowsMonotone(es, k, n);
    }
    if HoldsRows(csr, es, n) {
      assert csr.rowPtr[n] == |Rows(es, n)|;
    }
  }

  /** The first `m + 1` row starts are in place, each cut to 32 bits. */
  ghost predicate Placed(rowPtr: seq<u32>, es: seq<Arc>, m: nat) {
    m < |rowPtr| && forall k :: 0 <= k <= m ==> rowPtr[k] == AsU32(|Rows(es, k)|)
  }

  lemma PlaceNext(rowPtr: seq<u32>, es: seq<Arc>, m: nat)
    requires Placed(rowPtr, es, m) && m + 1 < |rowPtr|
    ensures Placed(rowPtr[m + 1 := AsU32(|Rows(es, m + 1)|)], es, m + 1)
  {
    hide Rows, AsU32;
  }

  /** The arcs of one row. */
  method SweepRow(es: seq<Arc>, node: nat, start: nat, col: seq<nat>, kind: seq<nat>)
      returns (edgePos: nat, colIdx: seq<nat>, kinds: seq<nat>)
    requires Sorted(es) && start == |Rows(es, node)| && Copied(es, col, kind) && |col| == start
    ensures edgePos == |Rows(es, node + 1)| == |colIdx| <= |es| && Copied(es, colIdx, kinds)
  {
    RowsArePrefix(es, node);
    RowsArePrefix(es, node + 1);
    RowsMonotone(es, node, node + 1);
    hide Rows;
    edgePos, colIdx, kinds := start, col, kind;
    while edgePos < |es|
      invariant |Rows(es, node)| <= edgePos <= |Rows(es, node + 1)|
      invariant |colIdx| == edgePos && Copied(es, colIdx, kinds)
    {
      if es[edgePos].src != node {
        break;
      }
      colIdx := colIdx + [es[edgePos].dst];
      kinds := kinds + [es[edgePos].kind];
      edgePos := edgePos + 1;
    }
  }

  /** One sweep over the sorted arcs, closing a row at each node. */
  method Sweep(n: nat, sorted: seq<Arc>) returns (csr: CanonCsr)
    requires Sorted(sorted)
    ensures HoldsRowsU32(csr, sorted, n)
  {
    var rowPtr: seq<u32> := seq(n + 1, _ => 0);
    assert |Rows(sorted, 0)| == 0 && Copied(sorted, [], []) && Placed(rowPtr, sorted, 0);
    hide Rows, Sorted, HoldsRowsU32, Copied, Placed, AsU32;
    var colIdx: seq<nat>, kind: seq<nat> := [], [];
    var edgePos: nat := 0;
    for node := 0 to n
      invariant edgePos == |Rows(sorted, node)| == |colIdx| && Copied(sorted, colIdx, kind)
      invariant |rowPtr| == n + 1 && Placed(rowPtr, sorted, node)
    {
      edgePos, colIdx, kind := SweepRow(sorted, node, edgePos, colIdx, kind);
      PlaceNext(rowPtr, sorted, node);
      rowPtr := rowPtr[node + 1 := AsU32(edgePos)];
    }
    csr := CanonCsr(rowPtr, colIdx, kind);
    CopiedIsHeld(csr, sorted, n);
  }

  method BuildCsr(n: nat, edges: seq<Arc>, reverse: bool) returns (csr: CanonCsr)
    ensures HoldsRowsU32(csr, Directed(edges, reverse), n)
    ensures HoldsRows(csr, Directed(edges, reverse), n) <==> |Rows(Directed(edges, reverse), n)| <= U32_MAX
    ensures |edges| <= U32_MAX ==> Readable(csr, n) && Records(csr, n, edges, reverse)
  {
    var arcs := Directed(edges, reverse);
    SortedRows(arcs, 0);
    csr := Sweep(n, SortBySource(arcs));
    hide HoldsRows, HoldsRowsU32, Rows, Readable, Records;
    HeldUnsorted(csr, arcs, n);
    StartsFit(csr, arcs, n);
    RowsBound(arcs, n);
    if |edges| <= U32_MAX {
      BuiltRecords(csr, edges, n, reverse);
    }
  }

  /** Row by row, the arrays hold as many arcs from `u` to `v` of each kind as the edge list does, the
      ends exchanged in a reverse CSR; what has no row is left out. */
  ghost predicate Records(csr: CanonCsr, n: nat, edges: seq<Arc>, reverse: bool)
    requires Readable(csr, n)
  {
    forall u: nat, v: nat, k: nat ::
      multiset(ReadBack(csr, n))[if reverse then Arc(v, u, k) else Arc(u, v, k)] ==
        if (if reverse then v else u) < n then multiset(edges)[Arc(u, v, k)] else 0
  }

  /** Count the arcs of each row, then sum the counts. */
  method FromEdges(n: nat, edges: seq<Arc>) returns (csr: CanonCsr)
    requires |edges| <= U32_MAX && forall a :: a in edges ==> a.src < n
    ensures HoldsRows(csr, edges, n)
  {
    var sorted := SortBySource(edges);
    SortedRows(edges, 0);
    hide Rows, SortBySource, RowOf;
    var rowPtr := CountRows(n, edges, sorted);
    rowPtr := SumRows(n, sorted, rowPtr);
    csr := CanonCsr(rowPtr, Dsts(sorted), Kinds(sorted));
    AllRows(edges, n);
    HeldUnsorted(csr, edges, n);
  }

  /** The counting loop of the prefix-sum builder. */
  method CountRows(n: nat, edges: seq<Arc>, sorted: seq<Arc>) returns (counts: seq<u32>)
    requires sorted == SortBySource(edges) && |sorted| == |edges| <= U32_MAX && forall a :: a in edges ==> a.src < n
    ensures |counts| == n + 1 && Counted(counts, sorted)
  {
    SortKeepsAll(edges);
    hide SortBySource;
    counts := seq(n + 1, _ => 0);
    for i := 0 to |sorted|
      invariant |counts| == n + 1 && Counted(counts, sorted[..i])
    {
      var a := sorted[i];
      assert a in sorted;
      assert sorted[..i + 1] == sorted[..i] + [a];
      CountNext(counts, sorted[..i], a);
      counts := counts[a.src + 1 := counts[a.src + 1] + 1];
    }
    assert sorted[..|sorted|] == sorted;
  }

  /** Entry `v + 1` is the length of row `v`. */
  ghost predicate Counted(counts: seq<u32>, es: seq<Arc>) {
    |counts| > 0 && counts[0] == 0 && forall v: nat :: v + 1 < |counts| ==> counts[v + 1] == |RowOf(es, v)|
  }

  lemma CountNext(counts: seq<u32>, es: seq<Arc>, a: Arc)
    requires Counted(counts, es) && a.src + 1 < |counts| && |es| < U32_MAX
    ensures counts[a.src + 1] < U32_MAX && Counted(counts[a.src + 1 := counts[a.src + 1] + 1], es + [a])
  {
    var v := a.src;
    assert counts[v + 1] == |RowOf(es, v)| <= |es|;
    hide RowOf;
    var next := counts[a.src + 1 := counts[a.src + 1] + 1];
    forall v: nat | v + 1 < |counts|
      ensures next[v + 1] == |RowOf(es + [a], v)|
    {
      RowOfAppend(es, a, v);
    }
  }

  /** The prefix-sum loop. */
  method SumRows(n: nat, es: seq<Arc>, counts: seq<u32>) returns (sums: seq<u32>)
    requires |es| <= U32_MAX && |counts| == n + 1 && Counted(counts, es)
    ensures |sums| == n + 1 && forall k :: 0 <= k <= n ==> sums[k] == |Rows(es, k)|
  {
    assert |Rows(es, 0)| == 0;
    hide Rows, RowOf;
    sums := counts;
    for i := 1 to n + 1
      invariant |sums| == n + 1 && forall k :: 0 <= k < i ==> sums[k] == |Rows(es, k)|
      invariant forall k :: i <= k <= n ==> sums[k] == counts[k]
    {
      NextRow(es, counts, i);
      sums := sums[i := sums[i] + sums[i - 1]];
    }
  }

  lemma NextRow(es: seq<Arc>, counts: seq<u32>, i: nat)
    requires 1 <= i < |counts| && Counted(counts, es)
    ensures |Rows(es, i)| == |Rows(es, i - 1)| + counts[i] && |Rows(es, i)| <= |es|
  {
    RowsBound(es, i);
    var v := i - 1;
    assert counts[v + 1] == |RowOf(es, v)|;
  }

  // ------------------------------------------------------------ buckets

  /** The `algorithms` form: 32-bit signed entries and no kinds. */
  datatype AdjCsr = AdjCsr(rowPtr: seq<int>, colIdx: seq<int>)

  /** The first `k` neighbour lists, one after the other. */
  function Joined(adj: seq<seq<nat>>, k: nat): seq<nat>
    requires k <= |adj|
  {
    if k == 0 then [] else Joined(adj, k - 1) + adj[k - 1]
  }

  /** Every number cut to 32 bits. */
  function Truncated(xs: seq<nat>): seq<int> {
    seq(|xs|, i requires 0 <= i < |xs| => AsI32(xs[i]))
  }

  /** Every number sign-extended. */
  function Widened(xs: seq<int>): seq<int> {
    seq(|xs|, i requires 0 <= i < |xs| => AsUsize(xs[i]))
  }

  /** `csr` holds the row starts and columns of `adj`, each cut to 32 bits. */
  ghost predicate HoldsLists(csr: AdjCsr, adj: seq<seq<nat>>) {
    && |csr.rowPtr| == |adj| + 1
    && (forall k :: 0 <= k <= |adj| ==> csr.rowPtr[k] == AsI32(|Joined(adj, k)|))
    && csr.colIdx == Truncated(Joined(adj, |adj|))
  }

  lemma {:induction false} JoinedMonotone(adj: seq<seq<nat>>, j: nat, k: nat)
    requires j <= k <= |adj|
    ensures Joined(adj, j) <= Joined(adj, k)
    decreases k
  {
    if j == k {
    } else {
      JoinedMonotone(adj, j, k - 1);
    }
  }

  /** The row starts so far, each cut to 32 bits. */
  ghost predicate Started(rowPtr: seq<int>, adj: seq<seq<nat>>) {
    |rowPtr| <= |adj| + 1 && forall k :: 0 <= k < |rowPtr| ==> rowPtr[k] == AsI32(|Joined(adj, k)|)
  }

  lemma JoinedNext(adj: seq<seq<nat>>, rowPtr: seq<int>, u: nat)
    requires u < |adj| && |rowPtr| == u + 1 && Started(rowPtr, adj)
    ensures Truncated(Joined(adj, u + 1)) == Truncated(Joined(adj, u)) + Truncated(adj[u])
    ensures |Joined(adj, u + 1)| == |Joined(adj, u)| + |adj[u]|
    ensures Started(rowPtr + [AsI32(|Joined(adj, u + 1)|)], adj)
  {
    hide AsI32;
  }

  method FromAdj(adj: seq<seq<nat>>) returns (csr: AdjCsr)
    ensures HoldsLists(csr, adj)
  {
    var rowPtr: seq<int>, colIdx: seq<int> := [0], [];
    assert Started(rowPtr, adj) && Truncated(Joined(adj, 0)) == colIdx && |Joined(adj, 0)| == 0;
    hide AsI32, Truncated, Joined, Started;
    for u := 0 to |adj|
      invariant |rowPtr| == u + 1 && Started(rowPtr, adj)
      invariant colIdx == Truncated(Joined(adj, u)) && |colIdx| == |Joined(adj, u)|
    {
      JoinedNext(adj, rowPtr, u);
      colIdx := PushRow(colIdx, adj[u]);
      rowPtr := rowPtr + [AsI32(|colIdx|)];
    }
    csr := AdjCsr(rowPtr, colIdx);
    StartedIsListed(csr, adj);
  }

  lemma StartedIsListed(csr: AdjCsr, adj: seq<seq<nat>>)
    requires Started(csr.rowPtr, adj) && |csr.rowPtr| == |adj| + 1 && csr.colIdx == Truncated(Joined(adj, |adj|))
    ensures HoldsLists(csr, adj)
  {
    hide AsI32, Joined;
  }

  method PushRow(col: seq<int>, row: seq<nat>) returns (colIdx: seq<int>)
    ensures colIdx == col + Truncated(row) && |colIdx| == |col| + |row|
  {
    hide AsI32;
    colIdx := col;
    for i := 0 to |row|
      invariant colIdx == col + Truncated(row[..i])
    {
      assert Truncated(row[..i + 1]) == Truncated(row[..i]) + [AsI32(row[i])];
      colIdx := colIdx + [AsI32(row[i])];
    }
    assert row[..|row|] == row;
  }

  /** Row `k` is a slice of the columns. */
  predicate RowAt(rowPtr: seq<int>, k: nat, len: nat) {
    k + 1 < |rowPtr| && 0 <= rowPtr[k] <= rowPtr[k + 1] <= len
  }

  lemma JoinedPiece(adj: seq<seq<nat>>, u: nat)
    requires u < |adj|
    ensures |Joined(adj, u + 1)| == |Joined(adj, u)| + |adj[u]| <= |Joined(adj, |adj|)|
    ensures Joined(adj, |adj|)[|Joined(adj, u)|..|Joined(adj, u + 1)|] == adj[u]
  {
    JoinedMonotone(adj, u + 1, |adj|);
    var upto := Joined(adj, u + 1);
    assert upto == Joined(adj, u) + adj[u];
    hide Joined;
    assert upto[|Joined(adj, u)|..] == adj[u];
  }

  lemma TruncatedSlice(xs: seq<nat>, lo: nat, hi: nat)
    requires lo <= hi <= |xs|
    ensures |Truncated(xs)| == |xs| && Truncated(xs)[lo..hi] == Truncated(xs[lo..hi])
  {
    hide AsI32;
  }

  lemma NeighboursAreList(csr: AdjCsr, adj: seq<seq<nat>>, u: nat)
    requires HoldsLists(csr, adj) && u < |adj| && |Joined(adj, |adj|)| <= I32_MAX
    ensures RowAt(csr.rowPtr, u, |csr.colIdx|)
    ensures csr.colIdx[csr.rowPtr[u]..csr.rowPtr[u + 1]] == Truncated(adj[u])
  {
    var k := u + 1;
    assert csr.rowPtr[k] == AsI32(|Joined(adj, k)|) && csr.rowPtr[u] == AsI32(|Joined(adj, u)|);
    hide Joined, AsI32, Truncated, HoldsLists;
    JoinedPiece(adj, u);
    TruncatedSlice(Joined(adj, |adj|), |Joined(adj, u)|, |Joined(adj, k)|);
  }

  /** Every list is its slice, sign-extended. */
  ghost predicate ReadsAs(csr: AdjCsr, adj: seq<seq<int>>) {
    && |adj| == |csr.rowPtr| - 1
    && forall u :: 0 <= u < |adj| ==> RowAt(csr.rowPtr, u, |csr.colIdx|)
                                      && adj[u] == Widened(csr.colIdx[csr.rowPtr[u]..csr.rowPtr[u + 1]])
  }

  method ToAdj(csr: AdjCsr) returns (adj: seq<seq<int>>)
    requires |csr.rowPtr| > 0 && forall k :: 0 <= k < |csr.rowPtr| - 1 ==> RowAt(csr.rowPtr, k, |csr.colIdx|)
    ensures ReadsAs(csr, adj)
  {
    hide AsUsize;
    var n := |csr.rowPtr| - 1;
    adj := seq(n, _ => []);
    for u := 0 to n
      invariant |adj| == n
      invariant forall w :: 0 <= w < u ==> RowAt(csr.rowPtr, w, |csr.colIdx|)
                                           && adj[w] == Widened(csr.colIdx[csr.rowPtr[w]..csr.rowPtr[w + 1]])
      invariant forall w :: u <= w < n ==> adj[w] == []
    {
      assert RowAt(csr.rowPtr, u, |csr.colIdx|);
      var row := csr.colIdx[csr.rowPtr[u]..csr.rowPtr[u + 1]];
      ghost var before := adj;
      for i := 0 to |row|
        invariant |adj| == n && adj[u] == Widened(row[..i])
        invariant forall w :: 0 <= w < n && w != u ==> adj[w] == before[w]
      {
        assert Widened(row[..i + 1]) == Widened(row[..i]) + [AsUsize(row[i])];
        adj := adj[u := adj[u] + [AsUsize(row[i])]];
      }
      assert row[..|row|] == row;
    }
  }

  lemma WideningRestores(xs: seq<usize>)
    ensures Widened(Truncated(xs)) == xs <==> forall i :: 0 <= i < |xs| ==> FitsI32(xs[i])
  {
    forall i | 0 <= i < |xs|
      ensures Widened(Truncated(xs))[i] == xs[i] <==> FitsI32(xs[i])
    {
      CastRoundTrip(xs[i]);
    }
  }

  lemma ReadLength(csr: AdjCsr, adj: seq<seq<int>>, u: nat)
    requires ReadsAs(csr, adj) && u < |adj|
    ensures u + 1 < |csr.rowPtr| && csr.rowPtr[u + 1] == csr.rowPtr[u] + |adj[u]|
  {
    assert RowAt(csr.rowPtr, u, |csr.colIdx|);
  }

  lemma StartsAtZero(csr: AdjCsr, adj: seq<seq<nat>>)
    requires HoldsLists(csr, adj)
    ensures |csr.rowPtr| == |adj| + 1 && csr.rowPtr[0] == 0 == |Joined(adj, 0)|
  {
    assert csr.rowPtr[0] == AsI32(|Joined(adj, 0)|);
  }

  /** Row starts that read the lists back have not been cut. */
  lemma {:induction false} StartsAreWhole(csr: AdjCsr, adj: seq<seq<usize>>, k: nat)
    requires HoldsLists(csr, adj) && ReadsAs(csr, adj) && k <= |adj|
    ensures csr.rowPtr[k] == |Joined(adj, k)|
  {
    hide AsI32, HoldsLists, ReadsAs, Joined;
    if k == 0 {
      StartsAtZero(csr, adj);
    } else {
      StartsAreWhole(csr, adj, k - 1);
      ReadLength(csr, adj, k - 1);
      JoinedPiece(adj, k - 1);
    }
  }

  /** Reading the lists back undoes `FromAdj` exactly when the row starts fit `i32` and every entry survives
      the detour through `i32`. */
  lemma AdjRoundTrip(adj: seq<seq<usize>>, csr: AdjCsr, back: seq<seq<int>>)
    requires HoldsLists(csr, adj) && ReadsAs(csr, back)
    ensures back == adj <==>
        && |Joined(adj, |adj|)| <= I32_MAX
        && forall u, i :: 0 <= u < |adj| && 0 <= i < |adj[u]| ==> FitsI32(adj[u][i])
  {
    if back == adj {
      StartsAreWhole(csr, adj, |adj|);
      AsI32IsSmall(|Joined(adj, |adj|)|);
    }
    if |Joined(adj, |adj|)| <= I32_MAX {
      hide AsI32, Joined, HoldsLists, FitsI32;
      forall u | 0 <= u < |adj|
        ensures back[u] == adj[u] <==> forall i :: 0 <= i < |adj[u]| ==> FitsI32(adj[u][i])
      {
        NeighboursAreList(csr, adj, u);
        WideningRestores(adj[u]);
      }
    }
  }

  lemma AsI32IsSmall(x: nat)
    ensures AsI32(x) <= I32_MAX
  {
  }

  predicate InRange(a: Arc, n: nat) {
    a.src < n && a.dst < n
  }

  /** The arcs whose two ends are below `n`. */
  function Inside(es: seq<Arc>, n: nat): (r: seq<Arc>)
    ensures |r| <= |es|
  {
    if es == [] then []
    else if InRange(es[|es| - 1], n) then Inside(es[..|es| - 1], n) + [es[|es| - 1]]
    else Inside(es[..|es| - 1], n)
  }

  /** Exactly the arcs in range are left, each as often as it was there. */
  lemma {:induction false} InsideCount(es: seq<Arc>, n: nat, a: Arc)
    ensures multiset(Inside(es, n))[a] == if a.src < n && a.dst < n then multiset(es)[a] else 0
  {
    if es == [] {
    } else {
      assert es == es[..|es| - 1] + [es[|es| - 1]];
      InsideCount(es[..|es| - 1], n, a);
    }
  }

  ghost predicate Bucketed(adj: seq<seq<nat>>, es: seq<Arc>) {
    forall u :: 0 <= u < |adj| ==> adj[u] == Dsts(RowOf(es, u))
  }

  lemma {:induction false} BucketsJoin(adj: seq<seq<nat>>, es: seq<Arc>, k: nat)
    requires Bucketed(adj, es) && k <= |adj|
    ensures Joined(adj, k) == Dsts(Rows(es, k))
  {
    if k == 0 {
    } else {
      BucketsJoin(adj, es, k - 1);
      assert Dsts(Rows(es, k - 1) + RowOf(es, k - 1)) == Dsts(Rows(es, k - 1)) + Dsts(RowOf(es, k - 1));
    }
  }

  lemma BucketNext(adj: seq<seq<nat>>, es: seq<Arc>, a: Arc)
    requires Bucketed(adj, es) && a.src < |adj|
    ensures Bucketed(adj[a.src := adj[a.src] + [a.dst]], es + [a])
  {
    hide RowOf;
    forall u | 0 <= u < |adj|
      ensures adj[a.src := adj[a.src] + [a.dst]][u] == Dsts(RowOf(es + [a], u))
    {
      RowOfAppend(es, a, u);
    }
  }

  lemma InsideNext(es: seq<Arc>, i: nat, n: nat)
    requires i < |es|
    ensures Inside(es[..i + 1], n) ==
        if es[i].src < n && es[i].dst < n then Inside(es[..i], n) + [es[i]] else Inside(es[..i], n)
  {
    assert es[..i + 1][..i] == es[..i];
  }

  /** `csr` holds the row starts and columns of `es`, each cut to 32 bits. */
  ghost predicate HoldsRowsI32(csr: AdjCsr, es: seq<Arc>, n: nat) {
    && |csr.rowPtr| == n + 1 && (forall k :: 0 <= k <= n ==> csr.rowPtr[k] == AsI32(|Rows(es, k)|))
    && csr.colIdx == Truncated(Dsts(Rows(es, n)))
  }

  lemma BucketsList(csr: AdjCsr, adj: seq<seq<nat>>, es: seq<Arc>)
    requires HoldsLists(csr, adj) && Bucketed(adj, es)
    ensures HoldsRowsI32(csr, es, |adj|)
  {
    forall k: nat | k <= |adj|
      ensures Joined(adj, k) == Dsts(Rows(es, k))
    {
      BucketsJoin(adj, es, k);
    }
    hide AsI32, Joined, Rows;
  }

  /** Append each target to the bucket of its source; arcs with an end out of range are dropped. */
  method FromEdgeList(n: nat, edges: seq<Arc>) returns (csr: AdjCsr)
    ensures HoldsRowsI32(csr, Inside(edges, n), n)
  {
    var adj: seq<seq<nat>> := seq(n, _ => []);
    assert Inside(edges[..0], n) == [] && Bucketed(adj, []);
    hide Bucketed, Inside, HoldsLists, HoldsRowsI32;
    for i := 0 to |edges|
      invariant |adj| == n && Bucketed(adj, Inside(edges[..i], n))
    {
      var a := edges[i];
      InsideNext(edges, i, n);
      if a.src < n && a.dst < n {
        BucketNext(adj, Inside(edges[..i], n), a);
        adj := adj[a.src := adj[a.src] + [a.dst]];
      }
    }
    assert edges[..|edges|] == edges;
    csr := FromAdj(adj);
    BucketsList(csr, adj, Inside(edges, n));
  }

  // ------------------------------------------------------------ agreement, transposition, validity

  lemma {:induction false} InsideIsAll(es: seq<Arc>, n: nat)
    requires forall a :: a in es ==> InRange(a, n)
    ensures Inside(es, n) == es
  {
    if es == [] {
    } else {
      assert es == es[..|es| - 1] + [es[|es| - 1]];
      InsideIsAll(es[..|es| - 1], n);
    }
  }

  /** On arcs in range the three builders give the same row starts and columns. */
  lemma BuildersAgree(swept: CanonCsr, summed: CanonCsr, bucketed: AdjCsr, es: seq<Arc>, n: nat)
    requires |es| <= I32_MAX && n <= I32_MAX + 1 && forall a :: a in es ==> InRange(a, n)
    requires HoldsRows(swept, es, n) && HoldsRows(summed, es, n) && HoldsRowsI32(bucketed, Inside(es, n), n)
    ensures swept == summed && swept.rowPtr == bucketed.rowPtr && swept.colIdx == bucketed.colIdx
  {
    InsideIsAll(es, n);
    ColumnsInRange(es, n);
    forall k: nat | k <= n
      ensures |Rows(es, k)| <= I32_MAX
    {
      RowsBound(es, k);
    }
    hide Rows, Dsts, AsI32;
    assert forall k :: 0 <= k <= n ==> swept.rowPtr[k] == summed.rowPtr[k] == bucketed.rowPtr[k];
  }

  /** All three builders, run on the same arcs. */
  method BuildThrice(n: nat, edges: seq<Arc>) returns (swept: CanonCsr, summed: CanonCsr, bucketed: AdjCsr)
    requires |edges| <= I32_MAX && n <= I32_MAX + 1 && forall a :: a in edges ==> InRange(a, n)
    ensures swept == summed && swept.rowPtr == bucketed.rowPtr && swept.colIdx == bucketed.colIdx
  {
    swept := BuildCsr(n, edges, false);
    RowsBound(edges, n);
    summed := FromEdges(n, edges);
    bucketed := FromEdgeList(n, edges);
    BuildersAgree(swept, summed, bucketed, edges, n);
  }

  /** The slice of a node is its row, in the order the arcs were given. */
  lemma SliceIsRow(csr: CanonCsr, es: seq<Arc>, n: nat, v: nat)
    requires HoldsRows(csr, es, n) && v < n
    ensures csr.rowPtr[v] <= csr.rowPtr[v + 1] <= |csr.colIdx| == |csr.kind|
    ensures csr.colIdx[csr.rowPtr[v]..csr.rowPtr[v + 1]] == Dsts(RowOf(es, v))
    ensures csr.kind[csr.rowPtr[v]..csr.rowPtr[v + 1]] == Kinds(RowOf(es, v))
  {
    RowsMonotone(es, v + 1, n);
    var k := v + 1;
    assert csr.rowPtr[k] == |Rows(es, k)|;
    assert Rows(es, k) == Rows(es, v) + RowOf(es, v);
    hide Rows, RowOf, Dsts, Kinds;
  }

  /** The first `v` rows are slices of the columns. */
  ghost predicate Readable(csr: CanonCsr, v: nat) {
    |csr.colIdx| == |csr.kind| && forall k :: 0 <= k < v ==> RowAt(csr.rowPtr, k, |csr.colIdx|)
  }

  /** The arcs a CSR stands for, rebuilt from the row starts. */
  function ReadBack(csr: CanonCsr, v: nat): seq<Arc>
    requires Readable(csr, v)
  {
    if v == 0 then [] else ReadBack(csr, v - 1) + ReadRow(csr, v - 1)
  }

  function ReadRow(csr: CanonCsr, v: nat): seq<Arc>
    requires |csr.colIdx| == |csr.kind| && RowAt(csr.rowPtr, v, |csr.colIdx|)
  {
    var lo, hi := csr.rowPtr[v], csr.rowPtr[v + 1];
    seq(hi - lo, i requires 0 <= i < hi - lo => Arc(v, csr.colIdx[lo + i], csr.kind[lo + i]))
  }

  lemma {:induction false} RowSources(es: seq<Arc>, v: nat)
    ensures forall i :: 0 <= i < |RowOf(es, v)| ==> RowOf(es, v)[i].src == v
  {
    if es == [] {
    } else {
      RowSources(es[..|es| - 1], v);
    }
  }

  lemma ReadRowIsRow(csr: CanonCsr, es: seq<Arc>, n: nat, v: nat)
    requires HoldsRows(csr, es, n) && v < n
    ensures |csr.colIdx| == |csr.kind| && RowAt(csr.rowPtr, v, |csr.colIdx|)
    ensures ReadRow(csr, v) == RowOf(es, v)
  {
    SliceIsRow(csr, es, n, v);
    RowSources(es, v);
    hide RowOf, Rows, HoldsRows;
    var row, lo, hi := RowOf(es, v), csr.rowPtr[v], csr.rowPtr[v + 1];
    assert |csr.colIdx[lo..hi]| == |Dsts(row)|;
    forall i | 0 <= i < |row|
      ensures ReadRow(csr, v)[i] == row[i]
    {
      assert csr.colIdx[lo..hi][i] == Dsts(row)[i] && csr.kind[lo..hi][i] == Kinds(row)[i];
    }
  }

  lemma SliceLengths(csr: CanonCsr, es: seq<Arc>, n: nat)
    requires HoldsRows(csr, es, n)
    ensures |csr.colIdx| == |csr.kind|
  {
  }

  lemma BuiltHasRows(csr: CanonCsr, es: seq<Arc>, n: nat)
    requires HoldsRows(csr, es, n)
    ensures Readable(csr, n)
  {
    SliceLengths(csr, es, n);
    forall k: nat | k < n
      ensures RowAt(csr.rowPtr, k, |csr.colIdx|)
    {
      ReadRowIsRow(csr, es, n, k);
    }
  }

  /** Reading the rows back gives the arcs, row by row. */
  lemma {:induction false} ReadBackIsRows(csr: CanonCsr, es: seq<Arc>, n: nat, v: nat)
    requires HoldsRows(csr, es, n) && v <= n
    ensures Readable(csr, v) && ReadBack(csr, v) == Rows(es, v)
  {
    hide HoldsRows, ReadRow, RowOf, RowAt;
    BuiltHasRows(csr, es, n);
    if v == 0 {
    } else {
      ReadBackIsRows(csr, es, n, v - 1);
      ReadRowIsRow(csr, es, n, v - 1);
    }
  }

  function Turn(a: Arc): Arc {
    Arc(a.dst, a.src, a.kind)
  }

  lemma {:induction false} TurnedCount(es: seq<Arc>, a: Arc)
    ensures multiset(Turned(es))[a] == multiset(es)[Turn(a)]
  {
    if es == [] {
    } else {
      var init, last := es[..|es| - 1], es[|es| - 1];
      assert es == init + [last];
      assert Turned(es) == Turned(init) + [Turn(last)];
      TurnedCount(init, a);
    }
  }

  /** Each arc stands once in the row of its source. */
  lemma {:induction false} RowCount(es: seq<Arc>, v: nat, a: Arc)
    ensures multiset(RowOf(es, v))[a] == if a.src == v then multiset(es)[a] else 0
  {
    if es == [] {
    } else {
      assert es == es[..|es| - 1] + [es[|es| - 1]];
      RowCount(es[..|es| - 1], v, a);
    }
  }

  lemma {:induction false} RowsCount(es: seq<Arc>, n: nat, a: Arc)
    ensures multiset(Rows(es, n))[a] == if a.src < n then multiset(es)[a] else 0
  {
    if n == 0 {
    } else {
      var before, row := Rows(es, n - 1), RowOf(es, n - 1);
      assert Rows(es, n) == before + row;
      hide Rows, RowOf;
      RowsCount(es, n - 1, a);
      RowCount(es, n - 1, a);
      assert multiset(before + row)[a] == multiset(before)[a] + multiset(row)[a];
    }
  }

  lemma BuiltRecords(csr: CanonCsr, es: seq<Arc>, n: nat, reverse: bool)
    requires HoldsRows(csr, Directed(es, reverse), n)
    ensures Readable(csr, n) && Records(csr, n, es, reverse)
  {
    ReadBackIsRows(csr, Directed(es, reverse), n, n);
    hide ReadBack, Readable, Rows, HoldsRows;
    forall u: nat, v: nat, k: nat
      ensures multiset(ReadBack(csr, n))[if reverse then Arc(v, u, k) else Arc(u, v, k)] ==
          if (if reverse then v else u) < n then multiset(es)[Arc(u, v, k)] else 0
    {
      var a := if reverse then Arc(v, u, k) else Arc(u, v, k);
      RowsCount(Directed(es, reverse), n, a);
      TurnedCount(es, a);
    }
  }

  /** Between vertices in range, the reverse CSR holds as many arcs of each kind from `v` to `u` as the
      forward one holds from `u` to `v`, and both as many as were given. */
  lemma ReverseIsTranspose(fwd: CanonCsr, rev: CanonCsr, es: seq<Arc>, n: nat)
    requires HoldsRows(fwd, Directed(es, false), n) && HoldsRows(rev, Directed(es, true), n)
    ensures Readable(fwd, n) && Readable(rev, n)
    ensures forall u: nat, v: nat, k: nat :: u < n && v < n ==>
        multiset(ReadBack(rev, n))[Arc(v, u, k)] == multiset(ReadBack(fwd, n))[Arc(u, v, k)]
            == multiset(es)[Arc(u, v, k)]
  {
    BuiltRecords(fwd, es, n, false);
    BuiltRecords(rev, es, n, true);
    hide ReadBack, Readable, HoldsRows;
  }

  // ------------------------------------------------------------ validation

  ghost predicate AllBelow(xs: seq<nat>, n: nat) {
    forall i :: 0 <= i < |xs| ==> xs[i] < n
  }

  /** What `validate_csr` asks for; the length is compared after truncation to 32 bits. */
  ghost predicate WellFormed(csr: CanonCsr, n: nat) {
    && |csr.rowPtr| == n + 1 && csr.rowPtr[0] == 0
    && (forall i, j :: 0 <= i <= j <= n ==> csr.rowPtr[i] <= csr.rowPtr[j])
    && |csr.colIdx| == |csr.kind|
    && csr.rowPtr[n] == AsU32(|csr.colIdx|)
    && AllBelow(csr.colIdx, n)
  }

  method ValidateCsr(csr: CanonCsr, n: nat) returns (ok: bool)
    ensures ok <==> WellFormed(csr, n)
  {
    if |csr.rowPtr| != n + 1 || csr.rowPtr[0] != 0 {
      return false;
    }
    for w := 0 to n
      invariant forall i, j :: 0 <= i <= j <= w ==> csr.rowPtr[i] <= csr.rowPtr[j]
    {
      if csr.rowPtr[w] > csr.rowPtr[w + 1] {
        return false;
      }
    }
    if |csr.colIdx| != |csr.kind| || csr.rowPtr[n] != AsU32(|csr.colIdx|) {
      return false;
    }
    for i := 0 to |csr.colIdx|
      invariant forall k :: 0 <= k < i ==> csr.colIdx[k] < n
    {
      if csr.colIdx[i] >= n {
        return false;
      }
    }
    ok := true;
  }

  lemma {:induction false} RowsMembers(es: seq<Arc>, k: nat, a: Arc)
    ensures a in Rows(es, k) <==> a in es && a.src < k
  {
    if k == 0 {
    } else {
      RowsMembers(es, k - 1, a);
      RowMembers(es, k - 1, a);
    }
  }

  /** Row starts cut to 32 bits still rise. */
  ghost predicate Rising(es: seq<Arc>, n: nat) {
    forall i, j :: 0 <= i <= j <= n ==> AsU32(|Rows(es, i)|) <= AsU32(|Rows(es, j)|)
  }

  lemma FewArcsRise(es: seq<Arc>, n: nat)
    requires |Rows(es, n)| <= U32_MAX
    ensures Rising(es, n)
  {
    hide AsU32;
    forall i: nat, j: nat | i <= j <= n
      ensures AsU32(|Rows(es, i)|) <= AsU32(|Rows(es, j)|)
    {
      RowsMonotone(es, i, j);
      RowsMonotone(es, j, n);
    }
  }

  /** A built CSR is well formed exactly when its row starts rise and no listed arc points out of range. */
  lemma BuiltIsValid(csr: CanonCsr, es: seq<Arc>, n: nat)
    requires HoldsRowsU32(csr, es, n)
    ensures WellFormed(csr, n) <==> Rising(es, n) && Closed(es, n)
  {
    assert |Rows(es, 0)| == 0;
    hide Rows, AsU32;
    ColumnsInRange(es, n);
  }

  /** No arc from a listed row points out of range. */
  ghost predicate Closed(es: seq<Arc>, n: nat) {
    forall a :: a in es && a.src < n ==> a.dst < n
  }

  lemma ColumnsInRange(es: seq<Arc>, n: nat)
    ensures AllBelow(Dsts(Rows(es, n)), n) <==> Closed(es, n)
  {
    var all := Rows(es, n);
    if AllBelow(Dsts(all), n) {
      forall a | a in es && a.src < n
        ensures a.dst < n
      {
        RowsMembers(es, n, a);
        var i :| 0 <= i < |all| && all[i] == a;
        assert Dsts(all)[i] == a.dst;
      }
    }
    if Closed(es, n) {
      forall i | 0 <= i < |all|
        ensures Dsts(all)[i] < n
      {
        var a := all[i];
        assert a in all;
        RowsMembers(es, n, a);
      }
    }
  }

  lemma ClosedBothWays(es: seq<Arc>, n: nat)
    ensures Closed(es, n) && Closed(Turned(es), n) <==> forall a :: a in es ==> (a.src < n <==> a.dst < n)
  {
    forall a
      ensures a in Turned(es) <==> Turn(a) in es
    {
      TurnedCount(es, a);
    }
    forall a | a in es
      ensures Turn(a) in Turned(es)
    {
      assert Turn(Turn(a)) == a;
    }
  }

  /** Both directions validate exactly when their row starts rise, as they do up to `u32::MAX` arcs, and
      every arc has both ends in range or neither. */
  lemma GlobalValid(fwd: CanonCsr, rev: CanonCsr, es: seq<Arc>, n: nat)
    requires HoldsRowsU32(fwd, Directed(es, false), n) && HoldsRowsU32(rev, Directed(es, true), n)
    ensures WellFormed(fwd, n) && WellFormed(rev, n) <==>
        Rising(es, n) && Rising(Turned(es), n) && forall a :: a in es ==> (a.src < n <==> a.dst < n)
    ensures |es| <= U32_MAX ==> Rising(es, n) && Rising(Turned(es), n)
  {
    BuiltIsValid(fwd, es, n);
    BuiltIsValid(rev, Turned(es), n);
    ClosedBothWays(es, n);
    hide WellFormed, HoldsRowsU32, Rising, Closed;
    RowsBound(es, n);
    RowsBound(Turned(es), n);
    if |es| <= U32_MAX {
      FewArcsRise(es, n);
      FewArcsRise(Turned(es), n);
    }
  }

  /** Rebuild both directions and validate them: accepted exactly as `GlobalValid` says. What is accepted is
      one graph and its transpose, kinds kept, and between vertices in range it is the graph given. */
  method RebuildAndValidate(n: nat, edges: seq<Arc>) returns (fwd: CanonCsr, rev: CanonCsr, ok: bool)
    ensures ok <==> Rising(edges, n) && Rising(Turned(edges), n) && forall a :: a in edges ==> (a.src < n <==>
        a.dst < n)
    ensures |edges| <= U32_MAX ==> Rising(edges, n) && Rising(Turned(edges), n)
    ensures |edges| <= U32_MAX ==> Readable(fwd, n) && Readable(rev, n)
    ensures |edges| <= U32_MAX ==> forall u: nat, v: nat, k: nat :: u < n && v < n ==>
        multiset(ReadBack(rev, n))[Arc(v, u, k)] == multiset(ReadBack(fwd, n))[Arc(u, v, k)]
            == multiset(edges)[Arc(u, v, k)]
    ensures |edges| <= U32_MAX && ok ==> forall u: nat, v: nat, k: nat ::
        multiset(ReadBack(rev, n))[Arc(v, u, k)] == multiset(ReadBack(fwd, n))[Arc(u, v, k)]
  {
    fwd := BuildCsr(n, edges, false);
    rev := BuildCsr(n, edges, true);
    ok := ValidateCsr(fwd, n);
    if ok {
      ok := ValidateCsr(rev, n);
    }
    hide WellFormed, HoldsRowsU32, HoldsRows, Rising, ReadBack, Readable;
    GlobalValid(fwd, rev, edges, n);
  }
}
