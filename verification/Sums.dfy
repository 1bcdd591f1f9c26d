/** Finite sums over sequences of integers, and how a point update changes them.

    Excesses, labels, scores and domain sizes are summed to bound machine
    integers and to show that loops end; the weighted sum of excesses and
    labels is the potential that a push lowers. */
module Sums {
  ghost function Sum(s: seq<int>): int {
    if |s| == 0 then 0 else Sum(s[..|s| - 1]) + s[|s| - 1]
  }

  /** The sum of `x[i] * h[i]`. */
  ghost function Dot(x: seq<int>, h: seq<int>): int
    requires |x| == |h|
  {
    if |x| == 0 then 0 else Dot(x[..|x| - 1], h[..|h| - 1]) + x[|x| - 1] * h[|h| - 1]
  }

  lemma {:induction false} SumUpdate(s: seq<int>, i: nat, a: int)
    requires i < |s|
    ensures Sum(s[i := a]) == Sum(s) - s[i] + a
  {
    var n := |s| - 1;
    if i == n {
      assert s[i := a][..n] == s[..n];
    } else {
      assert s[i := a][..n] == s[..n][i := a];
      SumUpdate(s[..n], i, a);
    }
  }

  lemma {:induction false} DotAdd(x: seq<int>, i: nat, d: int, h: seq<int>)
    requires i < |x| == |h|
    ensures Dot(x[i := x[i] + d], h) == Dot(x, h) + d * h[i]
  {
    var n := |x| - 1;
    if i == n {
      assert x[i := x[i] + d][..n] == x[..n];
      assert (x[n] + d) * h[n] == x[n] * h[n] + d * h[n];
    } else {
      assert x[i := x[i] + d][..n] == x[..n][i := x[i] + d];
      DotAdd(x[..n], i, d, h[..n]);
    }
  }

  lemma {:induction false} SumMonotone(s: seq<int>, t: seq<int>)
    requires |s| == |t| && forall i :: 0 <= i < |s| ==> s[i] <= t[i]
    ensures Sum(s) <= Sum(t)
  {
    if |s| == 0 {
    } else {
      SumMonotone(s[..|s| - 1], t[..|t| - 1]);
    }
  }

  lemma {:induction false} SumAtMost(s: seq<int>, c: int)
    requires forall i :: 0 <= i < |s| ==> s[i] <= c
    ensures Sum(s) <= c * |s|
  {
    if |s| == 0 {
    } else {
      SumAtMost(s[..|s| - 1], c);
      assert c * |s| == c * (|s| - 1) + c;
    }
  }

  lemma {:induction false} SumZero(s: seq<int>)
    requires forall i :: 0 <= i < |s| ==> s[i] == 0
    ensures Sum(s) == 0
  {
    if |s| == 0 {
    } else {
      SumZero(s[..|s| - 1]);
    }
  }

  /** In a sequence of non-negative numbers no element exceeds the sum. */
  lemma {:induction false} ElementAtMostSum(s: seq<int>, i: nat)
    requires i < |s| && forall j :: 0 <= j < |s| ==> 0 <= s[j]
    ensures 0 <= s[i] <= Sum(s)
  {
    SumUpdate(s, i, 0);
    var zeros := seq(|s|, _ => 0);
    SumZero(zeros);
    SumMonotone(zeros, s[i := 0]);
  }

  lemma {:induction false} DotNonNegative(x: seq<int>, h: seq<int>)
    requires |x| == |h|
    requires forall i :: 0 <= i < |x| ==> 0 <= x[i] && 0 <= h[i]
    ensures 0 <= Dot(x, h)
  {
    if |x| == 0 {
    } else {
      DotNonNegative(x[..|x| - 1], h[..|h| - 1]);
      assert 0 <= x[|x| - 1] * h[|h| - 1];
    }
  }
}
