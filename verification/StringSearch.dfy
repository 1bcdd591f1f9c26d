/** Substring search: the failure-table scan and the rolling-hash scan against the naive one. */
module StringSearch {
  import opened Machine

  type byte = x: int | 0 <= x < 256

  ghost predicate MatchAt(t: seq<byte>, p: seq<byte>, i: nat) {
    i + |p| <= |t| && t[i..i + |p|] == p
  }

  /** The starts below `k` at which the pattern occurs, in ascending order. */
  ghost function Naive(t: seq<byte>, p: seq<byte>, k: nat): seq<nat> {
    if k == 0 then []
    else if MatchAt(t, p, k - 1) then Naive(t, p, k - 1) + [k - 1]
    else Naive(t, p, k - 1)
  }

  /** The naive list is exactly the occurrences, each once, in ascending order. */
  lemma {:induction false} NaiveIsExact(t: seq<byte>, p: seq<byte>, k: nat)
    ensures forall i: nat :: i in Naive(t, p, k) <==> i < k && MatchAt(t, p, i)
    ensures forall a, b :: 0 <= a < b < |Naive(t, p, k)| ==> Naive(t, p, k)[a] < Naive(t, p, k)[b]
  {
    if k == 0 {
    } else {
      NaiveIsExact(t, p, k - 1);
      var r := Naive(t, p, k - 1);
      assert forall a :: 0 <= a < |r| ==> r[a] in r;
    }
  }

  /** All occurrences. An empty pattern is taken to have none. */
  ghost function Occurrences(t: seq<byte>, p: seq<byte>): seq<nat> {
    if p == [] then [] else Naive(t, p, |t|)
  }

  lemma {:induction false} NoMatchBetween(t: seq<byte>, p: seq<byte>, a: nat, b: nat)
    requires a <= b && forall i: nat :: a <= i < b ==> !MatchAt(t, p, i)
    ensures Naive(t, p, b) == Naive(t, p, a)
    decreases b
  {
    if a == b {
    } else {
      NoMatchBetween(t, p, a, b - 1);
    }
  }

  // ------------------------------------------------------------------ the failure table

  /** A proper prefix of `p[..k]` of length `b` that is also its suffix. */
  ghost predicate Border(p: seq<byte>, k: nat, b: nat) {
    b < k <= |p| && p[..b] == p[k - b..k]
  }

  ghost predicate LongestBorder(p: seq<byte>, k: nat, b: nat) {
    Border(p, k, b) && forall c: nat :: Border(p, k, c) ==> c <= b
  }

  /** A shorter border is a border of a longer one, and conversely. */
  lemma BorderOfBorder(p: seq<byte>, k: nat, b: nat, c: nat)
    requires Border(p, k, b) && c < b
    ensures Border(p, b, c) <==> Border(p, k, c)
  {
    assert p[k - c..k] == p[k - b..k][b - c..];
    assert p[b - c..b] == p[..b][b - c..];
  }

  /** Extending by one byte: borders grow by one or start anew. */
  lemma BorderExtends(p: seq<byte>, k: nat, b: nat)
    requires 0 < k < |p| && b < k
    ensures Border(p, k + 1, b + 1) <==> Border(p, k, b) && p[b] == p[k]
  {
    if Border(p, k + 1, b + 1) {
      var s := p[k - b..k + 1];
      assert p[..b + 1] == s;
      assert p[..b] == p[..b + 1][..b] && p[k - b..k] == s[..b];
      assert p[b] == p[..b + 1][b] && p[k] == s[b];
    }
    if Border(p, k, b) && p[b] == p[k] {
      assert p[..b + 1] == p[..b] + [p[b]];
      assert p[k - b..k + 1] == p[k - b..k] + [p[k]];
    }
  }

  /** `lps[i]` is the longest border of `p[..i + 1]`, for the first `n` entries. */
  ghost predicate Table(p: seq<byte>, lps: seq<nat>, n: nat) {
    && |lps| == |p| && n <= |p|
    && forall i :: 0 <= i < n ==> LongestBorder(p, i + 1, lps[i])
  }

  /** One entry of the table from the previous ones. */
  method NextEntry(p: seq<byte>, lps: seq<nat>, i: nat, len0: nat) returns (len: nat)
    requires 0 < i < |p| && Table(p, lps, i) && LongestBorder(p, i, len0)
    ensures LongestBorder(p, i + 1, len)
  {
    len := len0;
    while len > 0 && p[i] != p[len]
      invariant Border(p, i, len)
      invariant forall b: nat :: Border(p, i, b) && b > len ==> p[b] != p[i]
      decreases len
    {
      var next := lps[len - 1];
      assert LongestBorder(p, len, next);
      forall b: nat | Border(p, i, b) && b > next
        ensures p[b] != p[i]
      {
        if b < len {
          BorderOfBorder(p, i, len, b);
          assert false;
        }
      }
      BorderOfBorder(p, i, len, next);
      len := next;
    }
    var k := i + 1;
    forall c: nat | Border(p, k, c)
      ensures c == 0 || (Border(p, i, c - 1) && p[c - 1] == p[i])
    {
      if c > 0 {
        BorderExtends(p, i, c - 1);
      }
    }
    if p[i] == p[len] {
      BorderExtends(p, i, len);
      len := len + 1;
    }
  }

  method FailureTable(p: seq<byte>) returns (lps: seq<nat>)
    requires p != []
    ensures Table(p, lps, |p|)
  {
    lps := seq(|p|, _ => 0);
    assert LongestBorder(p, 1, 0);
    var len := 0;
    for i := 1 to |p|
      invariant Table(p, lps, i) && LongestBorder(p, i, len) && forall j :: i <= j < |p| ==> lps[j] == 0
    {
      len := NextEntry(p, lps, i, len);
      lps := lps[i := len];
    }
  }

  // ------------------------------------------------------------------------- the scan

  /** `p[..j]` is what precedes position `i` in the text. */
  ghost predicate Aligned(t: seq<byte>, p: seq<byte>, i: nat, j: nat) {
    j <= i <= |t| && j <= |p| && p[..j] == t[i - j..i]
  }

  /** A match that starts inside the aligned part is a border of it. */
  lemma MatchIsBorder(t: seq<byte>, p: seq<byte>, i: nat, j: nat, s: nat)
    requires Aligned(t, p, i, j) && i - j < s < i && MatchAt(t, p, s)
    ensures Border(p, j, i - s)
  {
    var b := i - s;
    assert p[..b] == t[s..s + |p|][..b];
    assert t[s..i] == t[i - j..i][j - b..];
    assert p[j - b..j] == p[..j][j - b..];
  }

  /** Falling back to the longest border skips no match. */
  lemma FallBack(t: seq<byte>, p: seq<byte>, i: nat, j: nat, b: nat)
    requires Aligned(t, p, i, j) && 0 < j && LongestBorder(p, j, b)
    ensures Aligned(t, p, i, b)
    ensures forall s: nat :: i - j < s < i - b ==> !MatchAt(t, p, s)
  {
    assert t[i - b..i] == t[i - j..i][j - b..];
    assert p[j - b..j] == p[..j][j - b..];
    forall s: nat | i - j < s < i - b
      ensures !MatchAt(t, p, s)
    {
      if MatchAt(t, p, s) {
        MatchIsBorder(t, p, i, j, s);
        assert false;
      }
    }
  }

  lemma Advance(t: seq<byte>, p: seq<byte>, i: nat, j: nat)
    requires Aligned(t, p, i, j) && i < |t| && j < |p| && t[i] == p[j]
    ensures Aligned(t, p, i + 1, j + 1)
    ensures j + 1 == |p| ==> MatchAt(t, p, i - j)
  {
    assert p[..j + 1] == p[..j] + [p[j]];
    assert t[i - j..i + 1] == t[i - j..i] + [t[i]];
    assert j + 1 == |p| ==> p[..j + 1] == p && i - j + |p| == i + 1;
  }

  lemma MatchStep(t: seq<byte>, p: seq<byte>, start: nat, b: nat)
    requires p != [] && Aligned(t, p, start + |p|, |p|) && LongestBorder(p, |p|, b)
    ensures b < |p| && Aligned(t, p, start + |p|, b)
    ensures Naive(t, p, start + |p| - b) == Naive(t, p, start) + [start]
  {
    var i := start + |p|;
    assert p[..|p|] == p && MatchAt(t, p, start);
    FallBack(t, p, i, |p|, b);
    NoMatchBetween(t, p, start + 1, i - b);
  }

  lemma MismatchStep(t: seq<byte>, p: seq<byte>, i: nat, j: nat, b: nat)
    requires Aligned(t, p, i, j) && i < |t| && 0 < j < |p| && t[i] != p[j] && LongestBorder(p, j, b)
    ensures b < j && Aligned(t, p, i, b) && Naive(t, p, i - b) == Naive(t, p, i - j)
  {
    FallBack(t, p, i, j, b);
    NoMatchBetween(t, p, i - j, i - b);
  }

  lemma SkipStep(t: seq<byte>, p: seq<byte>, i: nat)
    requires i < |t| && p != [] && t[i] != p[0]
    ensures Aligned(t, p, i + 1, 0) && Naive(t, p, i + 1) == Naive(t, p, i)
  {
    assert Aligned(t, p, i, 0);
    NoMatchBetween(t, p, i, i + 1);
  }

  /** One comparison: advance, fall back in the pattern, or move on in the text. */
  method KmpStep(t: seq<byte>, p: seq<byte>, lps: seq<nat>, i0: nat, j0: nat, res0: seq<nat>)
      returns (i: nat, j: nat, res: seq<nat>)
    requires |lps| == |p| && Table(p, lps, |p|) && j0 <= i0 < |t| && j0 < |p| && Aligned(t, p, i0, j0) &&
        res0 == Naive(t, p, i0 - j0)
    ensures j <= i <= |t| && j < |p| && Aligned(t, p, i, j) && res == Naive(t, p, i - j)
    ensures 2 * (|t| - i) + j < 2 * (|t| - i0) + j0
  {
    hide Aligned, MatchAt, LongestBorder, Naive, Table;
    i, j, res := i0, j0, res0;
    if t[i] == p[j] {
      Advance(t, p, i, j);
      ghost var start := i - j;
      i, j := i + 1, j + 1;
      if j == |p| {
        TableAt(p, lps, j);
        MatchStep(t, p, start, lps[j - 1]);
        res := res + [i - j];
        j := lps[j - 1];
      }
    } else if j > 0 {
      TableAt(p, lps, j);
      MismatchStep(t, p, i, j, lps[j - 1]);
      j := lps[j - 1];
    } else {
      SkipStep(t, p, i);
      i := i + 1;
    }
  }

  /** The occurrences of the pattern, found without ever moving back in the text. */
  method KmpSearch(t: seq<byte>, p: seq<byte>) returns (res: seq<nat>)
    ensures res == Occurrences(t, p)
  {
    if p == [] {
      return [];
    }
    var lps := FailureTable(p);
    res := [];
    var i: nat, j: nat := 0, 0;
    while i < |t|
      invariant j <= i <= |t| && j < |p| && Aligned(t, p, i, j) && res == Naive(t, p, i - j)
      decreases 2 * (|t| - i) + j
    {
      i, j, res := KmpStep(t, p, lps, i, j, res);
    }
    NoneAtTheEnd(t, p, i - j);
  }

  lemma TableAt(p: seq<byte>, lps: seq<nat>, j: nat)
    requires Table(p, lps, |p|) && 0 < j <= |p|
    ensures |lps| == |p| && lps[j - 1] < j && LongestBorder(p, j, lps[j - 1])
  {
    assert LongestBorder(p, j - 1 + 1, lps[j - 1]);
  }

  lemma NoneAtTheEnd(t: seq<byte>, p: seq<byte>, a: nat)
    requires a <= |t| < a + |p|
    ensures Naive(t, p, |t|) == Naive(t, p, a)
  {
    NoMatchBetween(t, p, a, |t|);
  }

  // ------------------------------------------------------------------------ rolling hash

  const BASE: u64 := 256
  const MOD: u64 := 1_000_000_007

  ghost function Pow256(k: nat): nat {
    if k == 0 then 1 else Pow256(k - 1) * 256
  }

  /** The bytes read as a number in base 256. */
  ghost function Poly(s: seq<byte>): nat {
    if s == [] then 0 else Poly(s[..|s| - 1]) * 256 + s[|s| - 1]
  }

  lemma Distribute(a: int, w: int, b: int, c: int)
    ensures (a * w + b) * 256 + c == a * (w * 256) + (b * 256 + c)
  {
  }

  /** Dropping the leading byte takes away its weight. */
  lemma {:induction false} PolyHead(s: seq<byte>)
    requires s != []
    ensures Poly(s) == s[0] * Pow256(|s| - 1) + Poly(s[1..])
    decreases |s|
  {
    if |s| == 1 {
      assert s[..0] == [] && s[1..] == [];
      assert Poly(s) == Poly([]) * 256 + s[0];
    } else {
      var n := |s| - 1;
      var init, last := s[..n], s[n];
      PolyHead(init);
      assert init[1..] == s[1..][..n - 1] && s[1..][n - 1] == last;
      assert Pow256(n) == Pow256(n - 1) * 256;
      Distribute(s[0], Pow256(n - 1), Poly(init[1..]), last);
    }
  }

  /** Sliding the window by one byte. */
  lemma PolySlide(s: seq<byte>, x: byte)
    requires s != []
    ensures Poly(s[1..] + [x]) == (Poly(s) - s[0] * Pow256(|s| - 1)) * 256 + x
  {
    PolyHead(s);
    var w := s[1..] + [x];
    assert w[..|w| - 1] == s[1..];
  }

  lemma ModShift(a: int, k: int)
    ensures (a + k * MOD) % MOD == a % MOD
  {
  }

  /** Reducing before a multiply-add does not change the remainder. */
  lemma ModStep(a: int, b: int, c: int)
    ensures ((a % MOD) * b + c) % MOD == (a * b + c) % MOD
  {
    var q := a / MOD;
    assert a == q * MOD + a % MOD;
    assert a * b + c == (a % MOD) * b + c + (q * b) * MOD by {
      assert a * b == (q * MOD + a % MOD) * b;
      assert (q * MOD) * b == (q * b) * MOD;
    }
    ModShift((a % MOD) * b + c, q * b);
  }

  /** The rolling update in reduced arithmetic. */
  lemma RollStep(full: int, lead: byte, weight: nat, x: byte)
    requires full - lead * weight >= 0
    ensures var h, pw := full % MOD, weight % MOD;
      ((MOD + h - (lead * pw) % MOD) % MOD * BASE + x) % MOD == ((full - lead * weight) * BASE + x) % MOD
  {
    var h, pw := full % MOD, weight % MOD;
    ModStep(weight, lead, 0);
    assert pw * lead == lead * pw && weight * lead == lead * weight;
    var y := MOD + h - (lead * pw) % MOD;
    assert y % MOD == (full - lead * weight) % MOD by {
      var q, s := full / MOD, (lead * weight) / MOD;
      assert full == q * MOD + h && lead * weight == s * MOD + (lead * weight) % MOD;
      ModShift(full - lead * weight, 1 - q + s);
    }
    ModStep(y, BASE, x);
    ModStep(full - lead * weight, BASE, x);
  }

  /** The hashes of the pattern and of the first window, and the weight of a window's first byte. */
  method StartHashes(t: seq<byte>, p: seq<byte>) returns (hashP: u64, hashT: u64, power: u64)
    requires 0 < |p| <= |t|
    ensures hashP == Poly(p) % MOD && hashT == Poly(t[..|p|]) % MOD && power == Pow256(|p| - 1) % MOD
  {
    var m := |p|;
    hashP, hashT, power := 0, 0, 1;
    for i := 0 to m
      invariant hashP == Poly(p[..i]) % MOD && hashT == Poly(t[..i]) % MOD
      invariant power == Pow256(if i < m then i else m - 1) % MOD
    {
      assert p[..i + 1][..i] == p[..i] && t[..i + 1][..i] == t[..i];
      ModStep(Poly(p[..i]), BASE, p[i]);
      ModStep(Poly(t[..i]), BASE, t[i]);
      hashP := (hashP * BASE + p[i]) % MOD;
      hashT := (hashT * BASE + t[i]) % MOD;
      if i < m - 1 {
        ModStep(Pow256(i), BASE, 0);
        power := (power * BASE) % MOD;
      }
    }
    assert p[..m] == p;
  }

  lemma Rolled(t: seq<byte>, m: nat, i: nat)
    requires 0 < m && i + m < |t|
    ensures var h, pw := Poly(t[i..i + m]) % MOD, Pow256(m - 1) % MOD;
      ((MOD + h - (t[i] * pw) % MOD) % MOD * BASE + t[i + m]) % MOD == Poly(t[i + 1..i + 1 + m]) % MOD
  {
    var window := t[i..i + m];
    PolyHead(window);
    PolySlide(window, t[i + m]);
    assert t[i + 1..i + 1 + m] == window[1..] + [t[i + m]];
    RollStep(Poly(window), t[i], Pow256(m - 1), t[i + m]);
  }

  /** The hash of the next window from the hash of this one; every step fits in 64 bits. */
  method Roll(t: seq<byte>, m: nat, i: nat, power: u64, hash0: u64) returns (hash: u64)
    requires 0 < m && i + m < |t| && power == Pow256(m - 1) % MOD && hash0 == Poly(t[i..i + m]) % MOD
    ensures hash == Poly(t[i + 1..i + 1 + m]) % MOD
  {
    Rolled(t, m, i);
    hide Poly, Pow256;
    var lead: u64 := t[i] * power;
    hash := (MOD + hash0 - lead % MOD) % MOD;
    hash := (hash * BASE + t[i + m]) % MOD;
  }

  /** The same occurrences, found by comparing hashes first. */
  method RabinKarp(t: seq<byte>, p: seq<byte>) returns (res: seq<nat>)
    ensures res == Occurrences(t, p)
  {
    var n, m := |t|, |p|;
    if m == 0 || m > n {
      if m > 0 {
        NoneAtTheEnd(t, p, 0);
      }
      return [];
    }
    var hashP, hashT, power := StartHashes(t, p);
    res := [];
    assert t[0..0 + m] == t[..m];
    for i := 0 to n - m + 1
      invariant res == Naive(t, p, i)
      invariant i <= n - m ==> hashT == Poly(t[i..i + m]) % MOD
    {
      if hashP == hashT && t[i..i + m] == p {
        res := res + [i];
      }
      if i < n - m {
        hashT := Roll(t, m, i, power, hashT);
      }
    }
    NoneAtTheEnd(t, p, n - m + 1);
  }

  /** Both searches, run on the same text: one ascending list, exactly the match positions. */
  method SearchBothWays(t: seq<byte>, p: seq<byte>) returns (kmp: seq<nat>, rk: seq<nat>)
    ensures kmp == rk && forall a, b :: 0 <= a < b < |kmp| ==> kmp[a] < kmp[b]
    ensures forall i: nat :: i in kmp <==> p != [] && MatchAt(t, p, i)
  {
    kmp := KmpSearch(t, p);
    rk := RabinKarp(t, p);
    NaiveIsExact(t, p, |t|);
  }
}
