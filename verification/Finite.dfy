/** Finite sets of natural numbers: intervals, sizes, images.

    Vertex sets are subsets of an interval, which bounds their size; that is
    what termination arguments need. Images bound the number of labels in use,
    for the pigeonhole arguments on heights and on labels cut to 32 bits. */
module Finite {
  ghost function Range(lo: nat, hi: nat): (r: set<nat>)
    requires lo <= hi
    ensures forall x :: x in r <==> lo <= x < hi
    ensures |r| == hi - lo
    decreases hi - lo
  {
    if lo == hi then {} else Range(lo, hi - 1) + {hi - 1}
  }

  lemma {:induction false} SubsetSize<T>(A: set<T>, B: set<T>)
    requires A <= B
    ensures |A| <= |B|
    ensures |A| == |B| ==> A == B
  {
    assert B == A + (B - A);
  }

  ghost function Image(h: seq<nat>, A: set<nat>): (r: set<nat>)
    requires forall v :: v in A ==> v < |h|
    ensures forall v :: v in A ==> h[v] in r
  {
    set v | v in A :: h[v]
  }

  lemma {:induction false} ImageAtMost(h: seq<nat>, A: set<nat>)
    requires forall v :: v in A ==> v < |h|
    ensures |Image(h, A)| <= |A|
    decreases A
  {
    if A == {} {
      assert Image(h, A) == {};
    } else {
      var a :| a in A;
      ImageAtMost(h, A - {a});
      assert Image(h, A) == Image(h, A - {a}) + {h[a]};
    }
  }
}
