/** Delta debugging: shrink a failing input until no single element can be dropped. */
module DeltaDebug {
  /** The indices `f` pick `a` out of `b` in order. */
  ghost predicate Picks<T>(a: seq<T>, b: seq<T>, f: seq<nat>) {
    && |f| == |a|
    && (forall i :: 0 <= i < |f| ==> f[i] < |b| && a[i] == b[f[i]])
    && forall i, j :: 0 <= i < j < |f| ==> f[i] < f[j]
  }

  ghost predicate Subsequence<T>(a: seq<T>, b: seq<T>) {
    exists f :: Picks(a, b, f)
  }

  lemma SubsequenceSelf<T>(a: seq<T>)
    ensures Subsequence(a, a)
  {
    assert Picks(a, a, seq(|a|, i requires 0 <= i < |a| => i));
  }

  lemma SubsequenceTrans<T>(a: seq<T>, b: seq<T>, c: seq<T>)
    requires Subsequence(a, b) && Subsequence(b, c)
    ensures Subsequence(a, c)
  {
    var f :| Picks(a, b, f);
    var g :| Picks(b, c, g);
    var h := seq(|f|, i requires 0 <= i < |f| => g[f[i]]);
    assert Picks(a, c, h);
  }

  lemma RestIsSubsequence<T>(s: seq<T>, i: nat, end: nat)
    requires i <= end <= |s|
    ensures Subsequence(s[..i] + s[end..], s)
  {
    var n := |s| - (end - i);
    var f := seq(n, k requires 0 <= k < n => if k < i then k else k + (end - i));
    assert Picks(s[..i] + s[end..], s, f);
  }

  /** Dropping any one element makes the failure go away. */
  ghost predicate OneMinimal<T>(s: seq<T>, fails: seq<T> -> bool) {
    forall i :: 0 <= i < |s| ==> !fails(s[..i] + s[i + 1..])
  }

  function DivCeil(a: nat, b: nat): (q: nat)
    requires b > 0
    ensures (q - 1) * b < a <= q * b || (a == 0 && q == 0)
  {
    var q := (a + b - 1) / b;
    assert q * b <= a + b - 1 < (q + 1) * b;
    assert (q - 1) * b == q * b - b && (q + 1) * b == q * b + b;
    q
  }

  lemma MulMonotone(a: int, b: int, c: int)
    requires 0 <= a && b <= c
    ensures a * b <= a * c
  {
  }

  lemma MulAtLeast(a: nat, n: nat)
    ensures a >= 1 ==> a * n >= n
  {
    if a >= 1 {
      MulMonotone(n, 1, a);
    }
  }

  /** A chunk is a proper part, and a single element once the granularity reaches the length. */
  lemma ChunkSize(len: nat, n: nat)
    requires 2 <= len && 2 <= n
    ensures 1 <= DivCeil(len, n) < len
    ensures n >= len ==> DivCeil(len, n) == 1
  {
    var q := DivCeil(len, n);
    hide DivCeil;
    assert q >= 1;
    MulMonotone(q - 1, 2, n);
    MulAtLeast(q - 1, n);
  }

  /** Try to drop each chunk in turn; stop at the first that still fails. */
  method TryChunks<T>(current: seq<T>, chunk: nat, fails: seq<T> -> bool) returns (next: seq<T>, reduced: bool)
    requires 1 <= chunk < |current|
    ensures reduced ==> fails(next) && 0 < |next| < |current| && Subsequence(next, current)
    ensures !reduced ==> next == current && (chunk == 1 ==> OneMinimal(current, fails))
  {
    next, reduced := current, false;
    var i: nat := 0;
    while i < |current|
      invariant i <= |current|
      invariant chunk == 1 ==> forall k :: 0 <= k < i ==> !fails(current[..k] + current[k + 1..])
    {
      var end := if i + chunk <= |current| then i + chunk else |current|;
      var candidate := current[..i] + current[end..];
      if fails(candidate) {
        RestIsSubsequence(current, i, end);
        return candidate, true;
      }
      i := end;
    }
  }

  /** A failing subsequence of a failing input that is minimal for single deletions; an input that
      is empty or does not fail gives the empty result. */
  method Ddmin<T>(items: seq<T>, fails: seq<T> -> bool) returns (current: seq<T>)
    ensures items == [] || !fails(items) ==> current == []
    ensures items != [] && fails(items) ==>
      && current != [] && fails(current) && Subsequence(current, items)
      && (|current| >= 2 ==> OneMinimal(current, fails))
  {
    if items == [] || !fails(items) {
      return [];
    }
    current := items;
    SubsequenceSelf(items);
    var n: nat := 2;
    while |current| >= 2
      invariant 2 <= n && current != [] && fails(current) && Subsequence(current, items)
      decreases |current|, if n < |current| then |current| - n else 0
    {
      ChunkSize(|current|, n);
      var chunk := DivCeil(|current|, n);
      var next, reduced := TryChunks(current, chunk, fails);
      if reduced {
        SubsequenceTrans(next, current, items);
        current := next;
        n := if n - 1 >= 2 then n - 1 else 2;
      } else {
        if n >= |current| {
          break;
        }
        n := if |current| <= n * 2 then |current| else n * 2;
      }
    }
  }
}
