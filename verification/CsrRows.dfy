/** Rows of an edge list, and the stable sort that brings them together.

    A row keeps the order in which its arcs were given. The rows of a sorted list
    are consecutive pieces of it, which is what every builder relies on.

    The arrays of a CSR are compared with the rows through `HoldsRows`. */
module CsrRows {
  import opened Machine

  /** An edge with its kind code. */
  datatype Arc = Arc(src: nat, dst: nat, kind: nat)

  datatype CanonCsr = CanonCsr(rowPtr: seq<u32>, colIdx: seq<nat>, kind: seq<nat>)

  // ------------------------------------------------------------ rows

  /** The arcs out of `v`, in the order given. */
  function RowOf(es: seq<Arc>, v: nat): (r: seq<Arc>)
    ensures |r| <= |es|
  {
    if es == [] then []
    else
      var r := RowOf(es[..|es| - 1], v);
      if es[|es| - 1].src == v then r + [es[|es| - 1]] else r
  }

  lemma {:induction false} RowMembers(es: seq<Arc>, v: nat, a: Arc)
    ensures a in RowOf(es, v) <==> a in es && a.src == v
  {
    if es == [] {
    } else {
      assert es == es[..|es| - 1] + [es[|es| - 1]];
      RowMembers(es[..|es| - 1], v, a);
    }
  }

  lemma {:induction false} RowEmpty(es: seq<Arc>, v: nat)
    requires forall a :: a in es ==> a.src != v
    ensures RowOf(es, v) == []
  {
    if es == [] {
    } else {
      assert es[|es| - 1] in es;
      RowEmpty(es[..|es| - 1], v);
    }
  }

  /** Rows `0` to `k - 1`, one after the other. */
  function Rows(es: seq<Arc>, k: nat): seq<Arc> {
    if k == 0 then [] else Rows(es, k - 1) + RowOf(es, k - 1)
  }

  function Dsts(es: seq<Arc>): seq<nat> {
    seq(|es|, i requires 0 <= i < |es| => es[i].dst)
  }

  function Kinds(es: seq<Arc>): seq<nat> {
    seq(|es|, i requires 0 <= i < |es| => es[i].kind)
  }

  /** `csr` holds rows `0` to `n - 1` of `es`. */
  ghost predicate HoldsRows(csr: CanonCsr, es: seq<Arc>, n: nat) {
    && |csr.rowPtr| == n + 1
    && (forall k :: 0 <= k <= n ==> csr.rowPtr[k] == |Rows(es, k)|)
    && csr.colIdx == Dsts(Rows(es, n)) && csr.kind == Kinds(Rows(es, n))
  }

  /** The same with row starts cut to 32 bits. */
  ghost predicate HoldsRowsU32(csr: CanonCsr, es: seq<Arc>, n: nat) {
    && |csr.rowPtr| == n + 1
    && (forall k :: 0 <= k <= n ==> csr.rowPtr[k] == AsU32(|Rows(es, k)|))
    && csr.colIdx == Dsts(Rows(es, n)) && csr.kind == Kinds(Rows(es, n))
  }

  lemma RowOfAppend(es: seq<Arc>, a: Arc, v: nat)
    ensures RowOf(es + [a], v) == RowOf(es, v) + if a.src == v then [a] else []
  {
    assert (es + [a])[..|es|] == es;
  }

  lemma {:induction false} RowsOfEqualRows(es: seq<Arc>, fs: seq<Arc>, k: nat)
    requires forall v :: 0 <= v < k ==> RowOf(es, v) == RowOf(fs, v)
    ensures Rows(es, k) == Rows(fs, k)
  {
    if k == 0 {
    } else {
      RowsOfEqualRows(es, fs, k - 1);
    }
  }

  /** An arc beyond the rows listed changes nothing. */
  lemma RowsSkip(es: seq<Arc>, a: Arc, k: nat)
    requires k <= a.src
    ensures Rows(es + [a], k) == Rows(es, k)
  {
    forall v: nat | v < k
      ensures RowOf(es + [a], v) == RowOf(es, v)
    {
      RowOfAppend(es, a, v);
    }
    RowsOfEqualRows(es + [a], es, k);
  }

  lemma RowsUnfold(es: seq<Arc>, k: nat)
    ensures Rows(es, k + 1) == Rows(es, k) + RowOf(es, k)
  {
  }

  lemma RowsAppendHere(es: seq<Arc>, a: Arc)
    ensures Rows(es + [a], a.src + 1) == Rows(es, a.src + 1) + [a]
  {
    hide Rows, RowOf;
    RowsUnfold(es, a.src);
    RowsUnfold(es + [a], a.src);
    RowOfAppend(es, a, a.src);
    RowsSkip(es, a, a.src);
  }

  lemma {:induction false} RowsAppendLast(es: seq<Arc>, a: Arc, k: nat)
    requires a.src < k && forall b :: b in es ==> b.src <= a.src
    ensures Rows(es + [a], k) == Rows(es, k) + [a]
  {
    hide Rows, RowOf;
    if k == a.src + 1 {
      RowsAppendHere(es, a);
    } else {
      var j := k - 1;
      RowsAppendLast(es, a, j);
      RowEmpty(es, j);
      RowEmpty(es + [a], j);
      RowsUnfold(es, j);
      RowsUnfold(es + [a], j);
    }
  }

  // ------------------------------------------------------------ the stable sort

  ghost predicate Sorted(es: seq<Arc>) {
    forall i, j :: 0 <= i <= j < |es| ==> es[i].src <= es[j].src
  }

  function Insert(es: seq<Arc>, a: Arc): seq<Arc> {
    if es == [] || es[|es| - 1].src <= a.src then es + [a] else Insert(es[..|es| - 1], a) + [es[|es| - 1]]
  }

  /** `sort_by_key` on the source, which keeps the order of equal keys. */
  function SortBySource(es: seq<Arc>): seq<Arc> {
    if es == [] then [] else Insert(SortBySource(es[..|es| - 1]), es[|es| - 1])
  }

  lemma {:induction false} InsertKeepsAll(es: seq<Arc>, a: Arc)
    ensures multiset(Insert(es, a)) == multiset(es + [a]) && |Insert(es, a)| == |es| + 1
  {
    if es == [] {
    } else {
      var init, last := es[..|es| - 1], es[|es| - 1];
      assert es == init + [last];
      InsertKeepsAll(init, a);
    }
  }

  lemma {:induction false} InsertSorted(es: seq<Arc>, a: Arc)
    requires Sorted(es)
    ensures Sorted(Insert(es, a)) && |Insert(es, a)| == |es| + 1
    ensures forall i :: 0 <= i < |es| + 1 ==>
        Insert(es, a)[i].src <= a.src || (es != [] && Insert(es, a)[i].src <= es[|es| - 1].src)
  {
    if es != [] && es[|es| - 1].src > a.src {
      InsertSorted(es[..|es| - 1], a);
    }
  }

  lemma {:induction false} SortKeepsAll(es: seq<Arc>)
    ensures multiset(SortBySource(es)) == multiset(es)
    ensures forall a :: a in SortBySource(es) ==> a in es
  {
    if es == [] {
    } else {
      var init, last := es[..|es| - 1], es[|es| - 1];
      assert es == init + [last];
      SortKeepsAll(init);
      InsertKeepsAll(SortBySource(init), last);
    }
    forall a | a in SortBySource(es)
      ensures a in es
    {
      assert a in multiset(SortBySource(es));
    }
  }

  lemma {:induction false} InsertRow(es: seq<Arc>, a: Arc, v: nat)
    ensures RowOf(Insert(es, a), v) == RowOf(es + [a], v)
  {
    RowOfAppend(es, a, v);
    if es != [] && es[|es| - 1].src > a.src {
      var init, last := es[..|es| - 1], es[|es| - 1];
      InsertRow(init, a, v);
      RowOfAppend(init, a, v);
      RowOfAppend(Insert(init, a), last, v);
    }
  }

  lemma {:induction false} SortedRows(es: seq<Arc>, v: nat)
    ensures RowOf(SortBySource(es), v) == RowOf(es, v)
    ensures Sorted(SortBySource(es)) && |SortBySource(es)| == |es|
  {
    if es == [] {
    } else {
      var init, last := es[..|es| - 1], es[|es| - 1];
      assert es == init + [last];
      SortedRows(init, v);
      InsertSorted(SortBySource(init), last);
      InsertKeepsAll(SortBySource(init), last);
      InsertRow(SortBySource(init), last, v);
      RowOfAppend(SortBySource(init), last, v);
    }
  }

  lemma SortKeepsRows(es: seq<Arc>, k: nat)
    ensures Rows(SortBySource(es), k) == Rows(es, k)
  {
    forall v: nat | v < k
      ensures RowOf(SortBySource(es), v) == RowOf(es, v)
    {
      SortedRows(es, v);
    }
    RowsOfEqualRows(SortBySource(es), es, k);
  }

  /** The first `k` rows are a prefix, which ends where the sources reach `k`. */
  ghost predicate SplitAt(es: seq<Arc>, k: nat, rows: seq<Arc>) {
    && rows <= es
    && forall i :: 0 <= i < |es| ==> (i < |rows| <==> es[i].src < k)
  }

  lemma SplitNext(es: seq<Arc>, a: Arc, k: nat)
    requires SplitAt(es, k, Rows(es, k)) && forall b :: b in es ==> b.src <= a.src
    ensures SplitAt(es + [a], k, Rows(es + [a], k))
  {
    hide Rows;
    if a.src < k {
      if es != [] {
        var last := es[|es| - 1];
        assert last in es;
      }
      assert Rows(es, k) == es;
      RowsAppendLast(es, a, k);
    } else {
      RowsSkip(es, a, k);
    }
  }

  /** In a sorted list the first rows are a prefix. */
  lemma {:induction false} RowsArePrefix(es: seq<Arc>, k: nat)
    requires Sorted(es)
    ensures SplitAt(es, k, Rows(es, k))
  {
    if es == [] {
      RowsOfEmpty(k);
    } else {
      var init, last := es[..|es| - 1], es[|es| - 1];
      assert es == init + [last];
      RowsArePrefix(init, k);
      hide Rows, SplitAt;
      SplitNext(init, last, k);
    }
  }

  lemma {:induction false} RowsOfEmpty(k: nat)
    ensures Rows([], k) == []
  {
    if k == 0 {
    } else {
      RowsOfEmpty(k - 1);
    }
  }

  lemma RowsMonotone(es: seq<Arc>, j: nat, k: nat)
    requires j <= k
    ensures Rows(es, j) <= Rows(es, k)
    decreases k
  {
    if j < k {
      RowsMonotone(es, j, k - 1);
    }
  }

  lemma RowsBound(es: seq<Arc>, k: nat)
    ensures |Rows(es, k)| <= |es|
  {
    SortKeepsRows(es, k);
    SortedRows(es, 0);
    RowsArePrefix(SortBySource(es), k);
  }

  /** When every source is in range, the rows of the sorted list are all of it. */
  lemma AllRows(es: seq<Arc>, n: nat)
    requires forall a :: a in es ==> a.src < n
    ensures Rows(SortBySource(es), n) == SortBySource(es)
  {
    var sorted := SortBySource(es);
    SortedRows(es, 0);
    SortKeepsAll(es);
    RowsArePrefix(sorted, n);
    if sorted != [] {
      assert sorted[|sorted| - 1] in sorted;
    }
  }

  lemma HeldUnsorted(csr: CanonCsr, es: seq<Arc>, n: nat)
    ensures HoldsRows(csr, SortBySource(es), n) <==> HoldsRows(csr, es, n)
    ensures HoldsRowsU32(csr, SortBySource(es), n) <==> HoldsRowsU32(csr, es, n)
  {
    hide Rows, AsU32;
    forall k: nat
      ensures Rows(SortBySource(es), k) == Rows(es, k)
    {
      SortKeepsRows(es, k);
    }
  }
}
