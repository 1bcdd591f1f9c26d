/** Lists without repetition, and removal of a value from a list.

    The event engine and the cache both drop every copy of a value and keep the
    order of the rest. Queues, orders of vertices, name tables and the order of
    use in a cache list each element once. */
module Lists {
  ghost predicate NoDuplicates<T>(s: seq<T>) {
    forall i, j :: 0 <= i < j < |s| ==> s[i] != s[j]
  }

  /** `Vec::retain(|y| y != x)`. */
  function Without<T(==)>(xs: seq<T>, x: T): seq<T> {
    if xs == [] then []
    else if xs[|xs| - 1] == x then Without(xs[..|xs| - 1], x)
    else Without(xs[..|xs| - 1], x) + [xs[|xs| - 1]]
  }

  /** Exactly the other members remain, and removing an absent value changes nothing. */
  lemma {:induction false} WithoutMembers<T(!new)>(xs: seq<T>, x: T)
    ensures forall y :: y in Without(xs, x) <==> y in xs && y != x
    ensures x !in xs ==> Without(xs, x) == xs
  {
    if xs == [] {
    } else {
      assert xs == xs[..|xs| - 1] + [xs[|xs| - 1]];
      WithoutMembers(xs[..|xs| - 1], x);
    }
  }

  lemma {:induction false} WithoutAppend<T(!new)>(xs: seq<T>, ys: seq<T>, x: T)
    ensures Without(xs + ys, x) == Without(xs, x) + Without(ys, x)
  {
    if ys != [] {
      var n := |ys| - 1;
      assert (xs + ys)[..|xs + ys| - 1] == xs + ys[..n];
      WithoutAppend(xs, ys[..n], x);
      assert (xs + ys)[|xs + ys| - 1] == ys[n];
    } else {
      assert xs + ys == xs;
    }
  }
}
