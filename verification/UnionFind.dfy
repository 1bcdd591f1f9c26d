/** Disjoint sets with union by rank and path compression. */
module UnionFind {
  import opened Digraph
  import opened Finite
  import opened Machine

  const U8_MAX: int := 255

  type u8 = x: int | 0 <= x <= U8_MAX

  // ------------------------------------------------------------------------- forests

  /** Parents are in range and ranks rise strictly towards the roots. */
  ghost predicate Forest(p: seq<nat>, r: seq<u8>) {
    |p| == |r| && forall x: nat :: x < |p| ==> ParentFits(p, r, x)
  }

  ghost predicate ParentFits(p: seq<nat>, r: seq<u8>, x: nat)
    requires x < |p| == |r|
  {
    p[x] < |p| && (p[x] != x ==> r[x] < r[p[x]])
  }

  ghost function Root(p: seq<nat>, r: seq<u8>, x: nat): (y: nat)
    requires Forest(p, r) && x < |p|
    ensures y < |p| && p[y] == y && r[x] <= r[y] && (y == x <==> p[x] == x) && (r[x] == r[y] ==> x == y)
    decreases U8_MAX - r[x]
  {
    assert ParentFits(p, r, x);
    if p[x] == x then x else Root(p, r, p[x])
  }

  /** The root of every element. */
  ghost function Reps(p: seq<nat>, r: seq<u8>): (s: seq<nat>)
    requires Forest(p, r)
    ensures |s| == |p|
  {
    seq(|p|, x requires 0 <= x < |p| => Root(p, r, x))
  }

  ghost function Members(s: seq<nat>, v: nat): (S: set<nat>)
    ensures forall x: nat :: x in S <==> x < |s| && s[x] == v
  {
    set x | x in Range(0, |s|) && s[x] == v
  }

  /** `s` with every `low` replaced by `top`. */
  ghost function Merged(s: seq<nat>, low: nat, top: nat): (t: seq<nat>)
    ensures |t| == |s| && forall x :: 0 <= x < |s| ==> t[x] == if s[x] == low then top else s[x]
  {
    seq(|s|, x requires 0 <= x < |s| => if s[x] == low then top else s[x])
  }

  lemma MergedMembers(s: seq<nat>, low: nat, top: nat, v: nat)
    requires low != top && v != low
    ensures |Members(Merged(s, low, top), v)| == |Members(s, v)| + (if v == top then |Members(s, low)| else 0)
  {
    if v == top {
      assert Members(Merged(s, low, top), v) == Members(s, top) + Members(s, low);
    } else {
      assert Members(Merged(s, low, top), v) == Members(s, v);
    }
  }

  ghost function Roots(p: seq<nat>): (S: set<nat>)
    ensures forall x: nat :: x in S <==> x < |p| && p[x] == x
  {
    set x | x in Range(0, |p|) && p[x] == x
  }

  ghost function Pow2(k: nat): nat {
    if k == 0 then 1 else 2 * Pow2(k - 1)
  }

  /** A root of rank `k` has at least `2^k` members. */
  ghost predicate Heavy(p: seq<nat>, r: seq<u8>)
    requires Forest(p, r)
  {
    forall x :: 0 <= x < |p| && p[x] == x ==> Pow2(r[x]) <= |Members(Reps(p, r), x)|
  }

  lemma {:induction false} Pow2Monotone(a: nat, b: nat)
    requires a <= b
    ensures Pow2(a) <= Pow2(b)
    decreases b - a
  {
    if a == b {
    } else {
      Pow2Monotone(a, b - 1);
    }
  }

  lemma Pow2At64()
    ensures Pow2(64) > USIZE_MAX
  {
    assert Pow2(8) == 0x100 by { assert Pow2(4) == 16; }
    Pow2Add(8, 8);
    assert Pow2(16) == 0x1_0000;
    Pow2Add(16, 16);
    assert Pow2(32) == 0x1_0000_0000;
    Pow2Add(32, 32);
  }

  lemma {:induction false} Pow2Add(a: nat, b: nat)
    ensures Pow2(a + b) == Pow2(a) * Pow2(b)
    decreases a
  {
    if a > 0 {
      Pow2Add(a - 1, b);
      assert Pow2(a + b) == 2 * Pow2(a - 1 + b);
      assert 2 * (Pow2(a - 1) * Pow2(b)) == (2 * Pow2(a - 1)) * Pow2(b);
    } else {
      assert Pow2(0) * Pow2(b) == Pow2(b);
    }
  }

  /** So in a structure that fits in memory no rank comes near saturation. */
  lemma RankStaysSmall(p: seq<nat>, r: seq<u8>, x: nat)
    requires Forest(p, r) && Heavy(p, r) && |p| <= USIZE_MAX && x < |p|
    ensures r[x] < 64
  {
    var root := Root(p, r, x);
    SubsetSize(Members(Reps(p, r), root), Range(0, |p|));
    if r[root] >= 64 {
      Pow2Monotone(64, r[root]);
      Pow2At64();
      assert false;
    }
  }

  /** Pointing a vertex straight at its root changes no vertex's root. */
  lemma {:induction false} CompressKeepsRoot(p: seq<nat>, r: seq<u8>, c: nat, y: nat)
    requires Forest(p, r) && c < |p| && p[c] != c && y < |p|
    ensures Forest(p[c := Root(p, r, c)], r)
    ensures Root(p[c := Root(p, r, c)], r, y) == Root(p, r, y)
    decreases U8_MAX - r[y]
  {
    var p' := p[c := Root(p, r, c)];
    forall x: nat | x < |p'|
      ensures ParentFits(p', r, x)
    {
      assert ParentFits(p, r, x);
    }
    assert ParentFits(p, r, y);
    if p[y] != y {
      if y == c {
        var root := Root(p, r, c);
        assert p'[root] == root;
      } else {
        CompressKeepsRoot(p, r, c, p[y]);
      }
    }
  }

  /** The forest after hanging root `b` below root `a`. */
  ghost predicate Linked(p: seq<nat>, r: seq<u8>, a: nat, b: nat, p': seq<nat>, r': seq<u8>) {
    && Forest(p, r) && a < |p| && b < |p| && a != b && p[a] == a && p[b] == b
    && r[b] <= r[a] && p' == p[b := a]
    && (if r[a] == r[b] then r[a] < U8_MAX && r' == r[a := r[a] + 1] else r' == r)
  }

  lemma LinkKeepsForest(p: seq<nat>, r: seq<u8>, a: nat, b: nat, p': seq<nat>, r': seq<u8>)
    requires Linked(p, r, a, b, p', r')
    ensures Forest(p', r')
  {
    forall x: nat | x < |p'|
      ensures ParentFits(p', r', x)
    {
      assert ParentFits(p, r, x);
    }
  }

  lemma {:induction false} LinkMerges(p: seq<nat>, r: seq<u8>, a: nat, b: nat, p': seq<nat>, r': seq<u8>, y: nat)
    requires Linked(p, r, a, b, p', r') && Forest(p', r') && y < |p|
    ensures Root(p', r', y) == if Root(p, r, y) == b then a else Root(p, r, y)
    decreases U8_MAX - r[y]
  {
    assert ParentFits(p, r, y);
    if p[y] != y {
      assert y != b && p'[y] == p[y];
      LinkMerges(p, r, a, b, p', r', p[y]);
    } else if y == b {
      assert p'[b] == a && p'[a] == a;
    }
  }

  lemma LinkReps(p: seq<nat>, r: seq<u8>, a: nat, b: nat, p': seq<nat>, r': seq<u8>)
    requires Linked(p, r, a, b, p', r')
    ensures Forest(p', r') && Reps(p', r') == Merged(Reps(p, r), b, a)
  {
    LinkKeepsForest(p, r, a, b, p', r');
    forall y: nat | y < |p|
      ensures Reps(p', r')[y] == Merged(Reps(p, r), b, a)[y]
    {
      LinkMerges(p, r, a, b, p', r', y);
    }
  }

  lemma LinkKeepsHeavy(p: seq<nat>, r: seq<u8>, a: nat, b: nat, p': seq<nat>, r': seq<u8>)
    requires Linked(p, r, a, b, p', r') && Heavy(p, r)
    ensures Forest(p', r') && Heavy(p', r')
  {
    LinkReps(p, r, a, b, p', r');
    hide Reps, Members, Merged, Root, Pow2;
    forall x | 0 <= x < |p'| && p'[x] == x
      ensures Pow2(r'[x]) <= |Members(Reps(p', r'), x)|
    {
      MergedMembers(Reps(p, r), b, a, x);
      assert Pow2(r[x]) <= |Members(Reps(p, r), x)| && Pow2(r[b]) <= |Members(Reps(p, r), b)|;
    }
  }

  lemma LinkRoots(p: seq<nat>, r: seq<u8>, a: nat, b: nat, p': seq<nat>, r': seq<u8>)
    requires Linked(p, r, a, b, p', r')
    ensures |Roots(p')| == |Roots(p)| - 1 >= 1
  {
    assert Roots(p') == Roots(p) - {b};
    assert a in Roots(p');
  }

  // ----------------------------------------------------------------------- the structure

  ghost predicate Sound(p: seq<nat>, r: seq<u8>) {
    Forest(p, r) && Heavy(p, r) && |p| <= USIZE_MAX
  }

  lemma ParentStep(p: seq<nat>, r: seq<u8>, z: nat)
    requires Sound(p, r) && z < |p|
    ensures p[z] < |p| == |r| && Forest(p, r) && Reps(p, r)[p[z]] == Reps(p, r)[z] < |p|
    ensures p[z] == z <==> Reps(p, r)[z] == z
    ensures p[z] != z ==> r[z] < r[p[z]]
    ensures p[Reps(p, r)[z]] == Reps(p, r)[z]
  {
    assert ParentFits(p, r, z);
  }

  /** There are as many distinct representatives as roots, so `components` counts the sets. */
  lemma RootsAreReps(p: seq<nat>, r: seq<u8>)
    requires Sound(p, r)
    ensures Elements(Reps(p, r)) == Roots(p)
  {
    var s := Reps(p, r);
    forall x: nat
      ensures x in s <==> x in Roots(p)
    {
      if x in Roots(p) {
        assert s[x] == x;
      }
    }
  }

  lemma CompressKeepsAll(p: seq<nat>, r: seq<u8>, c: nat)
    requires Sound(p, r) && c < |p| && p[c] != c
    ensures var p' := p[c := Reps(p, r)[c]];
      Sound(p', r) && Roots(p') == Roots(p) && Reps(p', r) == Reps(p, r)
  {
    var p' := p[c := Root(p, r, c)];
    CompressKeepsRoot(p, r, c, c);
    forall y: nat | y < |p|
      ensures Root(p', r, y) == Root(p, r, y)
    {
      CompressKeepsRoot(p, r, c, y);
    }
    assert Reps(p', r) == Reps(p, r);
  }

  lemma LinkKeepsAll(p: seq<nat>, r: seq<u8>, a: nat, b: nat, p': seq<nat>, r': seq<u8>)
    requires Sound(p, r) && Linked(p, r, a, b, p', r')
    ensures Sound(p', r') && Reps(p', r') == Merged(Reps(p, r), b, a)
    ensures |Roots(p')| == |Roots(p)| - 1 >= 1
  {
    LinkKeepsHeavy(p, r, a, b, p', r');
    LinkReps(p, r, a, b, p', r');
    LinkRoots(p, r, a, b, p', r');
  }

  lemma SeparateReps(p: seq<nat>, r: seq<u8>)
    requires |p| == |r| && forall x :: 0 <= x < |p| ==> p[x] == x
    ensures Forest(p, r) && Reps(p, r) == p
  {
  }

  lemma Separate(size: nat)
    requires size <= USIZE_MAX
    ensures var p, r := seq(size, i requires 0 <= i < size => i), seq(size, _ => 0);
      Sound(p, r) && Reps(p, r) == p && |Roots(p)| == size
  {
    var p: seq<nat>, r: seq<u8> := seq(size, i requires 0 <= i < size => i), seq(size, _ => 0);
    assert Roots(p) == Range(0, size);
    SeparateReps(p, r);
    hide Root, Reps, Forest, Roots;
    forall x | 0 <= x < size
      ensures Pow2(r[x]) <= |Members(Reps(p, r), x)|
    {
      assert Members(p, x) == {x};
    }
  }

  class Sets {
    var parent: seq<nat>
    var rank: seq<u8>
    var components: nat

    ghost predicate Valid()
      reads this
    {
      Sound(parent, rank) && |parent| == |rank| && components == |Roots(parent)|
    }

    /** The representative of every element's set. */
    ghost function Labelling(): seq<nat>
      requires Valid()
      reads this
    {
      Reps(parent, rank)
    }

    constructor (size: nat)
      requires size <= USIZE_MAX
      ensures Valid() && components == size
      ensures Labelling() == seq(size, i requires 0 <= i < size => i)
    {
      parent := seq(size, i requires 0 <= i < size => i);
      rank := seq(size, _ => 0);
      components := size;
      Separate(size);
    }

    /** Path compression never changes a representative. */
    method Find(x: nat) returns (root: nat)
      requires Valid() && x < |parent|
      modifies this`parent
      ensures Valid() && Labelling() == old(Labelling())
      ensures root == Labelling()[x] < |parent| && parent[root] == root
    {
      hide Sound, Reps, Roots;
      root := x;
      while parent[root] != root
        invariant Valid() && parent == old(parent) && root < |parent| && Labelling()[root] == Labelling()[x]
        decreases U8_MAX - rank[root]
      {
        ParentStep(parent, rank, root);
        root := parent[root];
      }
      ParentStep(parent, rank, root);
      var cur: nat := x;
      while parent[cur] != cur
        invariant Valid() && Labelling() == old(Labelling()) && cur < |parent| && Labelling()[cur] == root
        decreases U8_MAX - rank[cur]
      {
        ParentStep(parent, rank, cur);
        var next := parent[cur];
        CompressKeepsAll(parent, rank, cur);
        parent := parent[cur := root];
        cur := next;
      }
      ParentStep(parent, rank, x);
    }

    /** Merge the sets of `a` and `b`; true when they were different. */
    method Union(a: nat, b: nat) returns (merged: bool, ghost low: nat, ghost top: nat)
      requires Valid() && a < |parent| && b < |parent|
      modifies this
      ensures Valid()
      ensures merged <==> old(Labelling()[a]) != old(Labelling()[b])
      ensures components == old(components) - (if merged then 1 else 0)
      ensures !merged ==> Labelling() == old(Labelling())
      ensures merged ==>
          var (ra, rb) := old((Labelling()[a], Labelling()[b]));
          (low, top) == (ra, rb) || (low, top) == (rb, ra)
      ensures merged ==> Labelling() == Merged(old(Labelling()), low, top)
    {
      hide Sound, Reps, Roots, Linked;
      var ra := Find(a);
      var rb := Find(b);
      low, top := rb, ra;
      if ra == rb {
        return false, low, top;
      }
      ParentStep(parent, rank, a);
      if rank[ra] < rank[rb] {
        ra, rb := rb, ra;
      }
      low, top := rb, ra;
      ghost var p0, r0 := parent, rank;
      RankStaysBelow(parent, rank, ra);
      parent := parent[rb := ra];
      if rank[ra] == rank[rb] {
        rank := rank[ra := if rank[ra] < U8_MAX then rank[ra] + 1 else U8_MAX];
      }
      components := SaturatingSub(components, 1);
      LinkKeepsAll(p0, r0, ra, rb, parent, rank);
      merged := true;
    }

    /** The number of sets, which is the number of labels in use. */
    method Components() returns (count: nat)
      requires Valid()
      ensures count == components == |Elements(Labelling())|
    {
      RootsAreReps(parent, rank);
      count := components;
    }

    /** Every element's representative. */
    method Labels() returns (labels: seq<nat>)
      requires Valid()
      modifies this`parent
      ensures Valid() && labels == old(Labelling()) == Labelling()
    {
      hide Sound, Roots;
      labels := [];
      for i := 0 to |parent|
        invariant Valid() && Labelling() == old(Labelling()) && labels == Labelling()[..i]
      {
        var root := Find(i);
        labels := labels + [root];
      }
    }
  }

  lemma RankStaysBelow(p: seq<nat>, r: seq<u8>, x: nat)
    requires Sound(p, r) && x < |p|
    ensures |r| == |p| && r[x] < U8_MAX
  {
    RankStaysSmall(p, r, x);
  }
}
