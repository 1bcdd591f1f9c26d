/** Equality constraints solved by merging sets. */
module Unification {
  import opened Digraph
  import opened Finite
  import opened Machine
  import opened UnionFind

  datatype Equality = Equality(left: u32, right: u32)

  datatype Result<+T> = Ok(value: T) | OutOfRange(index: nat, constraint: Equality)

  /** The constraints as edges in both directions. */
  ghost function Links(cs: seq<Equality>): (E: Edges)
    ensures forall c :: c in cs ==> (c.left as nat, c.right as nat) in E && (c.right as nat, c.left as nat) in E
    ensures forall e :: e in E ==> exists c :: c in cs && (e == (c.left, c.right) || e == (c.right, c.left))
    ensures forall x: nat, y: nat :: (x, y) in E ==> (y, x) in E && x < U32_SPAN
  {
    (set i | 0 <= i < |cs| :: (cs[i].left as nat, cs[i].right as nat))
    + (set i | 0 <= i < |cs| :: (cs[i].right as nat, cs[i].left as nat))
  }

  /** `x` and `y` are equal by the reflexive, symmetric and transitive closure of the constraints. */
  ghost predicate Equated(cs: seq<Equality>, x: nat, y: nat) {
    Reach(Links(cs), x, y)
  }

  lemma EquatedSymmetric(cs: seq<Equality>, x: nat, y: nat)
    requires Equated(cs, x, y)
    ensures Equated(cs, y, x)
  {
    ReverseReach(Links(cs), x, y);
    assert Reverse(Links(cs)) == Links(cs);
  }

  ghost predicate InRangeBelow(n: nat, cs: seq<Equality>, k: nat)
    requires k <= |cs|
  {
    forall i :: 0 <= i < k ==> cs[i].left < n && cs[i].right < n
  }

  method ValidateConstraints(n: nat, cs: seq<Equality>) returns (r: Result<()>)
    ensures r.Ok? <==> InRangeBelow(n, cs, |cs|)
    ensures r.OutOfRange? ==>
      && r.index < |cs| && r.constraint == cs[r.index] && InRangeBelow(n, cs, r.index)
      && !(cs[r.index].left < n && cs[r.index].right < n)
  {
    for i := 0 to |cs|
      invariant InRangeBelow(n, cs, i)
    {
      if cs[i].left >= n || cs[i].right >= n {
        return OutOfRange(i, cs[i]);
      }
    }
    r := Ok(());
  }

  /** Every element is equated with its label, and the first `k` constraints hold between labels. */
  ghost predicate Solving(cs: seq<Equality>, labels: seq<nat>, k: nat) {
    && k <= |cs| && InRangeBelow(|labels|, cs, |cs|)
    && (forall x :: 0 <= x < |labels| ==> Equated(cs, x, labels[x]))
    && forall i :: 0 <= i < k ==> labels[cs[i].left] == labels[cs[i].right]
  }

  /** A constraint equates the labels of its two sides. */
  lemma LabelsEquated(cs: seq<Equality>, labels: seq<nat>, k: nat)
    requires Solving(cs, labels, k) && k < |cs|
    ensures Equated(cs, labels[cs[k].left], labels[cs[k].right]) && Equated(cs, labels[cs[k].right], labels[cs[k].left])
  {
    var E := Links(cs);
    var a: nat, b: nat := cs[k].left, cs[k].right;
    assert cs[k] in cs && (a, b) in E;
    assert Equated(cs, a, labels[a]) && Equated(cs, b, labels[b]);
    hide Solving, Links;
    EquatedSymmetric(cs, a, labels[a]);
    ReachEdge(E, a, b);
    hide Reach;
    ReachTrans(E, labels[a], a, b);
    ReachTrans(E, labels[a], b, labels[b]);
    EquatedSymmetric(cs, labels[a], labels[b]);
  }

  lemma MergeKeepsSolving(cs: seq<Equality>, labels: seq<nat>, k: nat, low: nat, top: nat)
    requires Solving(cs, labels, k) && k < |cs|
    requires (low, top) == (labels[cs[k].left], labels[cs[k].right]) ||
        (top, low) == (labels[cs[k].left], labels[cs[k].right])
    ensures Solving(cs, Merged(labels, low, top), k + 1)
  {
    var E := Links(cs);
    LabelsEquated(cs, labels, k);
    hide Links, Reach;
    forall x | 0 <= x < |labels|
      ensures Equated(cs, x, Merged(labels, low, top)[x])
    {
      if labels[x] == low {
        ReachTrans(E, x, low, top);
      }
    }
  }

  lemma LinkAgrees(cs: seq<Equality>, labels: seq<nat>, a: nat, b: nat)
    requires Solving(cs, labels, |cs|) && (a, b) in Links(cs)
    ensures a < |labels| && b < |labels| && labels[a] == labels[b]
  {
    var c :| c in cs && ((a, b) == (c.left, c.right) || (a, b) == (c.right, c.left));
    var i :| 0 <= i < |cs| && cs[i] == c;
    assert labels[cs[i].left] == labels[cs[i].right];
  }

  lemma EquatedAgree(cs: seq<Equality>, labels: seq<nat>, x: nat, y: nat)
    requires Solving(cs, labels, |cs|) && x < |labels| && Equated(cs, x, y)
    ensures y < |labels| && labels[x] == labels[y]
  {
    var E, S := Links(cs), set z | z in Range(0, |labels|) && labels[z] == labels[x];
    hide Solving, Links;
    forall a, b | a in S && (a, b) in E
      ensures b in S
    {
      LinkAgrees(cs, labels, a, b);
    }
    ClosedTraps(E, S, x, y);
  }

  /** Once every constraint holds between labels, equal labels mean equated. */
  lemma SolvedLabels(cs: seq<Equality>, labels: seq<nat>, x: nat, y: nat)
    requires Solving(cs, labels, |cs|) && x < |labels| && y < |labels|
    ensures labels[x] == labels[y] <==> Equated(cs, x, y)
  {
    assert Equated(cs, x, labels[x]) && Equated(cs, y, labels[y]);
    hide Solving, Links;
    if labels[x] == labels[y] {
      EquatedSymmetric(cs, y, labels[y]);
      ReachTrans(Links(cs), x, labels[x], y);
    }
    if Equated(cs, x, y) {
      EquatedAgree(cs, labels, x, y);
    }
  }

  method MergeEach(sets: Sets, cs: seq<Equality>)
    requires sets.Valid() && Solving(cs, sets.Labelling(), 0)
    modifies sets
    ensures sets.Valid() && Solving(cs, sets.Labelling(), |cs|)
    ensures |sets.parent| == old(|sets.parent|) && sets.components + |cs| >= old(sets.components)
  {
    hide Solving, Reps, Sound, Merged, Links, Roots, Forest, Heavy, Range;
    for k := 0 to |cs|
      invariant sets.Valid() && Solving(cs, sets.Labelling(), k)
      invariant |sets.parent| == old(|sets.parent|) && sets.components + k >= old(sets.components)
    {
      MergeOne(sets, cs, k);
    }
  }

  method MergeOne(sets: Sets, cs: seq<Equality>, k: nat)
    requires sets.Valid() && k < |cs| && Solving(cs, sets.Labelling(), k)
    modifies sets
    ensures sets.Valid() && Solving(cs, sets.Labelling(), k + 1)
    ensures |sets.parent| == old(|sets.parent|) && sets.components + 1 >= old(sets.components)
  {
    hide Solving, Reps, Sound, Merged, Links, Roots, Forest, Heavy, Range;
    ghost var labels := sets.Labelling();
    ConstraintInRange(cs, labels, k);
    var merged, low, top := sets.Union(cs[k].left, cs[k].right);
    if merged {
      MergeKeepsSolving(cs, labels, k, low, top);
    } else {
      AlreadyEqual(cs, labels, k);
    }
  }

  /** Labels are representatives: in range, and their own labels. */
  ghost predicate Canonical(labels: seq<nat>) {
    forall x :: 0 <= x < |labels| ==> labels[x] < |labels| && labels[labels[x]] == labels[x]
  }

  /** Merge along every constraint and read off the representatives; each constraint costs at most one. */
  method MergeAll(n: nat, cs: seq<Equality>) returns (labels: seq<nat>)
    requires n <= USIZE_MAX && InRangeBelow(n, cs, |cs|)
    ensures |labels| == n && Canonical(labels) && Solving(cs, labels, |cs|)
    ensures |Elements(labels)| + |cs| >= n
  {
    var sets := new Sets(n);
    ghost var start := sets.Labelling();
    StartSolving(cs, start);
    hide Solving, Reps, Sound, Roots, Canonical;
    MergeEach(sets, cs);
    labels := sets.Labels();
    LabelsAreCanonical(sets);
    var count := sets.Components();
  }

  // ------------------------------------------------------------------- labels cut to 32 bits

  /** The labels agree exactly on equated variables. */
  ghost predicate Right(cs: seq<Equality>, labels: seq<int>) {
    forall x: nat, y: nat :: x < |labels| && y < |labels| ==> (labels[x] == labels[y] <==> Equated(cs, x, y))
  }

  /** Constraints name variables by 32-bit numbers, so a variable beyond that is a class of its own. Cut
      to 32 bits its label is the number of a lower variable, which must not be a representative, and of
      no other variable beyond. */
  ghost predicate CutIsSafe(labels: seq<nat>) {
    |labels| <= 2 * U32_SPAN && forall w :: 0 <= w < |labels| - U32_SPAN ==> labels[w] != w
  }

  lemma LateVariablesAreAlone(cs: seq<Equality>, labels: seq<nat>, x: nat)
    requires Solving(cs, labels, |cs|) && U32_SPAN <= x < |labels|
    ensures labels[x] == x
  {
    var S := {x};
    assert Equated(cs, x, labels[x]);
    hide Links, Solving;
    ClosedTraps(Links(cs), S, x, labels[x]);
  }

  lemma CutOnce(a: nat)
    ensures AsU32(a + U32_SPAN) == AsU32(a)
  {
  }

  lemma CutsCollide(a: nat, b: nat)
    requires a < b < 2 * U32_SPAN && AsU32(a) == AsU32(b)
    ensures b == a + U32_SPAN
  {
  }

  /** Exactly when the cut is safe do the cut labels still tell the classes apart. */
  lemma CutIsExact(cs: seq<Equality>, labels: seq<nat>, values: seq<u32>)
    requires Solving(cs, labels, |cs|) && Canonical(labels)
    requires |values| == |labels| && forall x :: 0 <= x < |labels| ==> values[x] == AsU32(labels[x])
    ensures Right(cs, values) <==> CutIsSafe(labels)
  {
    hide Solving, Equated, AsU32;
    if CutIsSafe(labels) {
      forall x: nat, y: nat | x < |values| && y < |values|
        ensures values[x] == values[y] <==> Equated(cs, x, y)
      {
        SolvedLabels(cs, labels, x, y);
        SafeCutKeeps(labels, x, y);
      }
    } else if |labels| > 2 * U32_SPAN {
      CutOnce(U32_SPAN);
      Collide(cs, labels, values, U32_SPAN, 2 * U32_SPAN);
    } else {
      var w :| 0 <= w < |labels| - U32_SPAN && labels[w] == w;
      CutOnce(w);
      Collide(cs, labels, values, w, w + U32_SPAN);
    }
  }

  lemma SafeCutKeeps(labels: seq<nat>, x: nat, y: nat)
    requires Canonical(labels) && CutIsSafe(labels) && x < |labels| && y < |labels|
    ensures AsU32(labels[x]) == AsU32(labels[y]) <==> labels[x] == labels[y]
  {
    hide AsU32;
    var a, b := labels[x], labels[y];
    assert labels[a] == a && labels[b] == b;
    if AsU32(a) == AsU32(b) && a < b {
      CutsCollide(a, b);
    }
    if AsU32(a) == AsU32(b) && b < a {
      CutsCollide(b, a);
    }
  }

  lemma Collide(cs: seq<Equality>, labels: seq<nat>, values: seq<u32>, x: nat, y: nat)
    requires Solving(cs, labels, |cs|) && x < y < |labels| == |values| && U32_SPAN <= y &&
        (labels[x] == x || U32_SPAN <= x)
    requires values[x] == AsU32(labels[x]) && values[y] == AsU32(labels[y]) && AsU32(x) == AsU32(y)
    ensures !Right(cs, values)
  {
    hide AsU32;
    LateVariablesAreAlone(cs, labels, y);
    if U32_SPAN <= x {
      LateVariablesAreAlone(cs, labels, x);
    }
    SolvedLabels(cs, labels, x, y);
  }

  lemma SafeCutHasFewClasses(labels: seq<nat>)
    requires Canonical(labels) && CutIsSafe(labels) && |labels| > U32_SPAN
    ensures |Elements(labels)| <= U32_SPAN
  {
    var n := |labels|;
    var all, low := Range(0, n), Range(0, n - U32_SPAN);
    forall x | x in Elements(labels)
      ensures x in all && x !in low
    {
      var i: nat :| i < n && labels[i] == x;
      assert labels[x] == x;
    }
    SubsetSize(Elements(labels), all - low);
    assert all == (all - low) + low;
  }

  /** Fewer constraints than variables beyond 32 bits cannot make the cut safe. */
  lemma TooFewConstraints(labels: seq<nat>, m: nat)
    requires Canonical(labels) && |Elements(labels)| + m >= |labels| && |labels| > U32_SPAN + m
    ensures !CutIsSafe(labels)
  {
    if CutIsSafe(labels) {
      SafeCutHasFewClasses(labels);
    }
  }

  /** Two variables get the same label exactly when the constraints equate them and the cut to 32 bits is
      safe, which it always is up to 2^32 variables and never with fewer constraints than variables beyond. */
  method SolveConstraints(n: nat, cs: seq<Equality>) returns (r: Result<seq<u32>>, ghost labels: seq<nat>)
    requires n <= USIZE_MAX
    ensures r.Ok? <==> InRangeBelow(n, cs, |cs|)
    ensures r.OutOfRange? ==>
        r.index < |cs| && r.constraint == cs[r.index] && !(cs[r.index].left < n && cs[r.index].right < n)
    ensures r.Ok? ==> |r.value| == n == |labels| && Solving(cs, labels, |cs|) && Canonical(labels)
    ensures r.Ok? ==> forall x :: 0 <= x < n ==> r.value[x] == AsU32(labels[x])
    ensures r.Ok? ==> (Right(cs, r.value) <==> CutIsSafe(labels))
    ensures r.Ok? && n <= U32_SPAN ==> Right(cs, r.value)
    ensures r.Ok? && n > U32_SPAN + |cs| ==> !Right(cs, r.value)
  {
    var checked := ValidateConstraints(n, cs);
    if checked.OutOfRange? {
      return OutOfRange(checked.index, checked.constraint), [];
    }
    var solved := MergeAll(n, cs);
    labels := solved;
    hide Solving, Equated, AsU32, Canonical, Right;
    var values: seq<u32> := seq(n, i requires 0 <= i < n => AsU32(solved[i]));
    CutIsExact(cs, solved, values);
    if n > U32_SPAN + |cs| {
      TooFewConstraints(solved, |cs|);
    }
    r := Ok(values);
  }

  lemma ConstraintInRange(cs: seq<Equality>, labels: seq<nat>, k: nat)
    requires Solving(cs, labels, k) && k < |cs|
    ensures cs[k].left < |labels| && cs[k].right < |labels|
  {
  }

  lemma StartSolving(cs: seq<Equality>, labels: seq<nat>)
    requires InRangeBelow(|labels|, cs, |cs|) && forall x :: 0 <= x < |labels| ==> labels[x] == x
    ensures Solving(cs, labels, 0)
  {
    forall x | 0 <= x < |labels|
      ensures Equated(cs, x, labels[x])
    {
      ReachSelf(Links(cs), x);
    }
  }

  lemma AlreadyEqual(cs: seq<Equality>, labels: seq<nat>, k: nat)
    requires Solving(cs, labels, k) && k < |cs| && labels[cs[k].left] == labels[cs[k].right]
    ensures Solving(cs, labels, k + 1)
  {
  }

  lemma LabelsAreCanonical(sets: Sets)
    requires sets.Valid()
    ensures Canonical(sets.Labelling())
  {
    var labels := sets.Labelling();
    forall x | 0 <= x < |labels|
      ensures labels[x] < |labels| && labels[labels[x]] == labels[x]
    {
      ParentStep(sets.parent, sets.rank, x);
      ParentStep(sets.parent, sets.rank, labels[x]);
    }
  }
}
