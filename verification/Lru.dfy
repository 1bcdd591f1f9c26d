/** The least-recently-used cache: a map and the order of last use, oldest first. */
module Lru {
  import opened Lists
  import opened Options

  datatype Cache<K, V> = Cache(entries: map<K, V>, order: seq<K>)

  datatype Op<K, V> = Put(key: K, value: V) | Get(key: K)

  function Lookup<K, V>(c: Cache<K, V>, k: K): Option<V> {
    if k in c.entries then Some(c.entries[k]) else None
  }

  function Trim<K, V>(c: Cache<K, V>, capacity: nat): Cache<K, V> {
    if |c.order| > capacity then Cache(c.entries - {c.order[0]}, c.order[1..]) else c
  }

  function Touch<K(==, !new), V>(c: Cache<K, V>, k: K): Cache<K, V> {
    c.(order := Without(c.order, k) + [k])
  }

  function Stored<K(==, !new), V>(c: Cache<K, V>, k: K, v: V): Cache<K, V> {
    Touch(c.(entries := c.entries[k := v]), k)
  }

  function Apply<K(==, !new), V>(c: Cache<K, V>, capacity: nat, op: Op<K, V>): Cache<K, V> {
    match op
    case Put(k, v) => Trim(Stored(c, k, v), capacity)
    case Get(k) => if k in c.entries then Touch(c, k) else c
  }

  /** The cache after a whole run. */
  function After<K(==, !new), V>(capacity: nat, ops: seq<Op<K, V>>): Cache<K, V> {
    if ops == [] then Cache(map[], []) else Apply(After(capacity, ops[..|ops| - 1]), capacity, ops[|ops| - 1])
  }

  // ------------------------------------------------------------ every reachable cache

  /** The order lists each cached key once, and there are at most `capacity`. */
  ghost predicate Sound<K(!new), V>(c: Cache<K, V>, capacity: nat) {
    && NoDuplicates(c.order)
    && (forall k :: k in c.order <==> k in c.entries)
    && |c.order| <= capacity
  }

  lemma {:induction false} WithoutDistinct<K(!new)>(xs: seq<K>, x: K)
    requires NoDuplicates(xs)
    ensures NoDuplicates(Without(xs, x))
    ensures |Without(xs, x)| == if x in xs then |xs| - 1 else |xs|
  {
    if xs == [] {
    } else {
      var init, last := xs[..|xs| - 1], xs[|xs| - 1];
      assert xs == init + [last];
      WithoutDistinct(init, x);
      WithoutMembers(init, x);
      assert last !in init by {
        assert forall i :: 0 <= i < |init| ==> init[i] == xs[i];
      }
      hide NoDuplicates;
    }
  }

  lemma TouchKeepsSound<K(!new), V>(c: Cache<K, V>, k: K)
    requires NoDuplicates(c.order) && k in c.entries
    requires forall x :: x in c.order || x == k <==> x in c.entries
    ensures Sound(Touch(c, k), if k in c.order then |c.order| else |c.order| + 1)
  {
    WithoutDistinct(c.order, k);
    WithoutMembers(c.order, k);
  }

  lemma ApplyKeepsSound<K(!new), V>(c: Cache<K, V>, capacity: nat, op: Op<K, V>)
    requires Sound(c, capacity)
    ensures Sound(Apply(c, capacity, op), capacity)
  {
    match op {
      case Get(k) =>
        if k in c.entries {
          TouchKeepsSound(c, k);
        }
      case Put(k, v) =>
        var d := c.(entries := c.entries[k := v]);
        TouchKeepsSound(d, k);
        var t := Touch(d, k);
    }
  }

  lemma {:induction false} AlwaysSound<K(!new), V>(capacity: nat, ops: seq<Op<K, V>>)
    ensures Sound(After(capacity, ops), capacity)
  {
    if ops == [] {
    } else {
      AlwaysSound(capacity, ops[..|ops| - 1]);
      ApplyKeepsSound(After(capacity, ops[..|ops| - 1]), capacity, ops[|ops| - 1]);
    }
  }

  // ------------------------------------------------------------ what is cached

  /** Position `i` is the last time `k` was put. */
  ghost predicate LastPut<K, V>(ops: seq<Op<K, V>>, i: nat, k: K, v: V) {
    && i < |ops| && ops[i] == Put(k, v)
    && forall j :: i < j < |ops| ==> !(ops[j].Put? && ops[j].key == k)
  }

  /** A cached value is the one put last under its key. */
  lemma {:induction false} CachedIsLastPut<K(!new), V>(capacity: nat, ops: seq<Op<K, V>>, k: K) returns (i: nat)
    requires k in After(capacity, ops).entries
    ensures LastPut(ops, i, k, After(capacity, ops).entries[k])
  {
    var n := |ops| - 1;
    if ops[n].Put? && ops[n].key == k {
      i := n;
    } else {
      i := CachedIsLastPut(capacity, ops[..n], k);
      assert forall j :: 0 <= j < n ==> ops[..n][j] == ops[j];
    }
  }

  /** The keys used so far, without looking at any cache: those put, and those looked up while among the
      `capacity` most recently used. */
  ghost function Uses<K(!new), V>(capacity: nat, ops: seq<Op<K, V>>): seq<K> {
    if ops == [] then []
    else
      var n := |ops| - 1;
      var before := Uses(capacity, ops[..n]);
      if ops[n].Put? || ops[n].key in Last(ByLastUse(before), capacity) then before + [ops[n].key] else before
  }

  /** All keys ever used, by last use. */
  ghost function ByLastUse<K(!new)>(uses: seq<K>): seq<K> {
    if uses == [] then [] else Without(ByLastUse(uses[..|uses| - 1]), uses[|uses| - 1]) + [uses[|uses| - 1]]
  }

  ghost function Last<K>(xs: seq<K>, n: nat): seq<K> {
    if |xs| <= n then xs else xs[|xs| - n..]
  }

  /** Position `i` is the last use of `k`. */
  ghost predicate LastUse<K>(uses: seq<K>, i: nat, k: K) {
    i < |uses| && uses[i] == k && forall j :: i < j < |uses| ==> uses[j] != k
  }

  /** Two elements left over stood in the same order before. */
  lemma {:induction false} WithoutInOrder<K(!new)>(xs: seq<K>, x: K, a: nat, b: nat) returns (i: nat, j: nat)
    requires a < b < |Without(xs, x)|
    ensures i < j < |xs| && xs[i] == Without(xs, x)[a] != x && xs[j] == Without(xs, x)[b] != x
  {
    var n := |xs| - 1;
    if xs[n] != x && b == |Without(xs, x)| - 1 {
      var y := Without(xs[..n], x)[a];
      WithoutMembers(xs[..n], x);
      assert y in Without(xs[..n], x) && y in xs[..n];
      i :| 0 <= i < n && xs[i] == y;
      j := n;
    } else {
      i, j := WithoutInOrder(xs[..n], x, a, b);
    }
  }

  /** The list holds exactly the keys used, and an earlier one was last used earlier. */
  lemma {:induction false} ByLastUseInOrder<K(!new)>(uses: seq<K>)
    ensures forall k :: k in ByLastUse(uses) <==> k in uses
    ensures forall a, b, i, j ::
      0 <= a < b < |ByLastUse(uses)| && LastUse(uses, i, ByLastUse(uses)[a]) && LastUse(uses, j, ByLastUse(uses)[b]) ==>
        i < j
  {
    if uses == [] {
    } else {
      var n := |uses| - 1;
      var init, k := uses[..n], uses[n];
      assert uses == init + [k];
      var before := ByLastUse(init);
      ByLastUseInOrder(init);
      WithoutMembers(before, k);
      forall a, b, i, j | 0 <= a < b < |ByLastUse(uses)|
          && LastUse(uses, i, ByLastUse(uses)[a]) && LastUse(uses, j, ByLastUse(uses)[b])
        ensures i < j
      {
        var x, y := ByLastUse(uses)[a], ByLastUse(uses)[b];
        assert x == Without(before, k)[a] && x in Without(before, k);
        if b < |Without(before, k)| {
          var a', b' := WithoutInOrder(before, k, a, b);
          assert LastUse(init, i, before[a']) && LastUse(init, j, before[b']);
        } else {
          assert j == n;
        }
      }
    }
  }

  lemma {:induction false} ByLastUseDistinct<K(!new)>(uses: seq<K>)
    ensures NoDuplicates(ByLastUse(uses))
  {
    if uses == [] {
    } else {
      ByLastUseDistinct(uses[..|uses| - 1]);
      WithoutDistinct(ByLastUse(uses[..|uses| - 1]), uses[|uses| - 1]);
      WithoutMembers(ByLastUse(uses[..|uses| - 1]), uses[|uses| - 1]);
    }
  }

  lemma LastOfSuffix<K>(front: seq<K>, suffix: seq<K>, n: nat)
    requires n <= |suffix|
    ensures Last(front + suffix, n) == Last(suffix, n)
  {
  }

  /** Using a key again among the most recent `n`, or a new one, keeps the rest of the window. */
  lemma LastUsed<K(!new)>(xs: seq<K>, n: nat, k: K)
    requires NoDuplicates(xs)
    ensures Last(Without(xs, k) + [k], n) == Last(Without(Last(xs, n), k) + [k], n)
  {
    var cut := if |xs| <= n then 0 else |xs| - n;
    var front, window := xs[..cut], Last(xs, n);
    assert xs == front + window;
    WithoutAppend(front, window, k);
    var kept := Without(window, k) + [k];
    assert Without(xs, k) + [k] == Without(front, k) + kept;
    WithoutDistinct(window, k);
    if k in window {
      assert k !in front by {
        var j: nat :| j < |window| && window[j] == k;
        assert xs[cut + j] == k;
      }
    }
    hide NoDuplicates, Last;
    if cut > 0 {
      LastOfSuffix(Without(front, k), kept, n);
    } else {
      assert front == [];
    }
  }

  lemma ApplyUses<K(!new), V>(c: Cache<K, V>, capacity: nat, op: Op<K, V>)
    requires Sound(c, capacity) && (op.Put? || op.key in c.entries)
    ensures Apply(c, capacity, op).order == Last(Without(c.order, op.key) + [op.key], capacity)
  {
    WithoutDistinct(c.order, op.key);
  }

  /** The cache holds exactly the `capacity` most recently used keys, in order of last use. */
  lemma {:induction false} HoldsMostRecent<K(!new), V>(capacity: nat, ops: seq<Op<K, V>>)
    ensures After(capacity, ops).order == Last(ByLastUse(Uses(capacity, ops)), capacity)
  {
    if ops == [] {
    } else {
      var n := |ops| - 1;
      var c, op := After(capacity, ops[..n]), ops[n];
      var uses := Uses(capacity, ops[..n]);
      HoldsMostRecent(capacity, ops[..n]);
      AlwaysSound(capacity, ops[..n]);
      assert op.key in c.entries <==> op.key in c.order;
      hide Sound, NoDuplicates, Last;
      if op.Put? || op.key in c.entries {
        assert (uses + [op.key])[..|uses|] == uses;
        ByLastUseDistinct(uses);
        LastUsed(ByLastUse(uses), capacity, op.key);
        ApplyUses(c, capacity, op);
      }
    }
  }

  /** After these operations a lookup of `k` yields `v`: `k` is among the most recently used keys, and `v`
      is what was put last under it. */
  ghost predicate Hits<K(!new), V>(capacity: nat, ops: seq<Op<K, V>>, k: K, v: V) {
    k in Last(ByLastUse(Uses(capacity, ops)), capacity) && exists i :: LastPut(ops, i, k, v)
  }

  /** Over every run, a lookup hits exactly when it should, with exactly the value it should. */
  lemma LookupIsExact<K(!new), V>(capacity: nat, ops: seq<Op<K, V>>, k: K, v: V)
    ensures Lookup(After(capacity, ops), k) == Some(v) <==> Hits(capacity, ops, k, v)
  {
    HoldsMostRecent(capacity, ops);
    AlwaysSound(capacity, ops);
    var c := After(capacity, ops);
    assert k in c.order <==> k in c.entries;
    hide Sound, Last, After;
    if k in c.entries {
      var i := CachedIsLastPut(capacity, ops, k);
      if j :| LastPut(ops, j, k, v) {
        assert i == j;
      }
    }
  }

  // ------------------------------------------------------------ inclusion

  /** The members of `keep`, in the order of `xs`. */
  function Only<K(==)>(xs: seq<K>, keep: seq<K>): (r: seq<K>) {
    if xs == [] then []
    else if xs[|xs| - 1] in keep then Only(xs[..|xs| - 1], keep) + [xs[|xs| - 1]]
    else Only(xs[..|xs| - 1], keep)
  }

  lemma {:induction false} OnlyAgrees<K(!new)>(xs: seq<K>, keep: seq<K>, keep': seq<K>)
    requires forall k :: k in xs ==> (k in keep <==> k in keep')
    ensures Only(xs, keep) == Only(xs, keep')
  {
    if xs == [] {
    } else {
      assert xs[|xs| - 1] in xs;
      OnlyAgrees(xs[..|xs| - 1], keep, keep');
    }
  }

  lemma {:induction false} OnlyWithout<K(!new)>(xs: seq<K>, keep: seq<K>, k: K)
    ensures Only(Without(xs, k), keep) == Without(Only(xs, keep), k)
  {
    if xs == [] {
    } else {
      var init, last := xs[..|xs| - 1], xs[|xs| - 1];
      OnlyWithout(init, keep, k);
      var a := Without(init, k);
      assert (a + [last])[..|a|] == a;
      var b := Only(init, keep);
      assert (b + [last])[..|b|] == b;
    }
  }

  lemma {:induction false} OnlyTail<K(!new)>(xs: seq<K>, keep: seq<K>)
    requires xs != []
    ensures Only(xs, keep) == (if xs[0] in keep then [xs[0]] else []) + Only(xs[1..], keep)
  {
    if |xs| > 1 {
      var n := |xs| - 1;
      OnlyTail(xs[..n], keep);
      assert xs[..n][1..] == xs[1..][..n - 1];
      assert xs[1..][n - 1] == xs[n];
    } else {
      assert xs[..0] == [] && xs[1..] == [];
    }
  }

  /** What the smaller cache holds the larger one holds, with the same values and in the same order of use. */
  ghost predicate Included<K(!new), V>(small: Cache<K, V>, large: Cache<K, V>) {
    && small.order == Only(large.order, small.order)
    && (forall k :: k in small.entries ==> k in large.entries && small.entries[k] == large.entries[k])
  }

  lemma OnlyTouched<K(!new)>(xs: seq<K>, ys: seq<K>, k: K)
    requires ys == Only(xs, ys)
    ensures var xs', ys' := Without(xs, k) + [k], Without(ys, k) + [k]; ys' == Only(xs', ys')
  {
    var a, ys' := Without(xs, k), Without(ys, k) + [k];
    WithoutMembers(xs, k);
    WithoutMembers(ys, k);
    assert (a + [k])[..|a|] == a;
    OnlyAgrees(a, ys, ys');
    OnlyWithout(xs, ys, k);
  }

  lemma OnlyUntouched<K(!new)>(xs: seq<K>, ys: seq<K>, k: K)
    requires ys == Only(xs, ys) && k !in ys
    ensures ys == Only(Without(xs, k) + [k], ys)
  {
    var a := Without(xs, k);
    assert (a + [k])[..|a|] == a;
    OnlyWithout(xs, ys, k);
    WithoutMembers(Only(xs, ys), k);
  }

  lemma {:induction false} OnlyDropped<K(!new)>(xs: seq<K>, keep: seq<K>, k: K)
    ensures Only(xs, Without(keep, k)) == Without(Only(xs, keep), k)
  {
    if xs == [] {
    } else {
      OnlyDropped(xs[..|xs| - 1], keep, k);
      WithoutMembers(keep, k);
      var b := Only(xs[..|xs| - 1], keep);
      assert (b + [xs[|xs| - 1]])[..|b|] == b;
    }
  }

  lemma TailIsWithout<K(!new)>(xs: seq<K>)
    requires xs != [] && NoDuplicates(xs)
    ensures xs[1..] == Without(xs, xs[0])
  {
    assert xs == [xs[0]] + xs[1..];
    WithoutAppend([xs[0]], xs[1..], xs[0]);
  }

  lemma OnlyWithoutOldest<K(!new)>(xs: seq<K>, ys: seq<K>)
    requires ys == Only(xs, ys) && ys != [] && NoDuplicates(ys)
    ensures ys[1..] == Only(xs, ys[1..])
    ensures xs != [] ==> xs[0] !in ys[1..] && ys[1..] == Only(xs[1..], ys[1..])
  {
    TailIsWithout(ys);
    OnlyDropped(xs, ys, ys[0]);
    if xs != [] {
      OnlyTail(xs, ys);
      OnlyTail(xs, ys[1..]);
    }
  }

  /** Evicting from the smaller cache, and perhaps from the larger, keeps inclusion. */
  lemma TrimKeepsIncluded<K(!new), V>(small: Cache<K, V>, large: Cache<K, V>, c: nat, d: nat)
    requires Included(small, large) && |small.order| > c
    requires Sound(small, c + 1) && Sound(large, d + 1)
    ensures Included(Trim(small, c), Trim(large, d)) && |Trim(small, c).order| >= c
  {
    var xs, ys := large.order, small.order;
    OnlyWithoutOldest(xs, ys);
  }

  lemma StoredKeepsSound<K(!new), V>(c: Cache<K, V>, capacity: nat, k: K, v: V)
    requires Sound(c, capacity)
    ensures Sound(Stored(c, k, v), capacity + 1)
  {
    TouchKeepsSound(c.(entries := c.entries[k := v]), k);
  }

  lemma StoredIncluded<K(!new), V>(small: Cache<K, V>, large: Cache<K, V>, k: K, v: V)
    requires Included(small, large)
    ensures Included(Stored(small, k, v), Stored(large, k, v))
  {
    OnlyTouched(large.order, small.order, k);
  }

  /** Until the smaller cache is full the two are the same. */
  predicate SameUntilFull<K(==), V(==)>(small: Cache<K, V>, large: Cache<K, V>, c: nat) {
    |small.order| < c ==> small == large
  }

  lemma NoEvictionYet<K(!new), V>(small: Cache<K, V>, large: Cache<K, V>, c: nat, d: nat, k: K, v: V)
    requires c <= d && Sound(small, c) && Sound(large, d) && Included(small, large) && SameUntilFull(small, large, c)
    requires |Stored(small, k, v).order| <= c
    ensures |Stored(large, k, v).order| <= d
    ensures |Stored(small, k, v).order| < c ==> small == large
  {
    WithoutDistinct(small.order, k);
    WithoutDistinct(large.order, k);
    if k in small.order {
      assert k in small.entries;
      assert k in large.order;
    }
  }

  lemma PutKeepsIncluded<K(!new), V>(small: Cache<K, V>, large: Cache<K, V>, c: nat, d: nat, k: K, v: V)
    requires c <= d && Sound(small, c) && Sound(large, d) && Included(small, large) && SameUntilFull(small, large, c)
    ensures Included(Apply(small, c, Put(k, v)), Apply(large, d, Put(k, v)))
    ensures SameUntilFull(Apply(small, c, Put(k, v)), Apply(large, d, Put(k, v)), c)
  {
    hide Included, Sound, Touch, Stored;
    StoredIncluded(small, large, k, v);
    StoredKeepsSound(small, c, k, v);
    StoredKeepsSound(large, d, k, v);
    if |Stored(small, k, v).order| > c {
      TrimKeepsIncluded(Stored(small, k, v), Stored(large, k, v), c, d);
    } else {
      NoEvictionYet(small, large, c, d, k, v);
    }
  }

  lemma GetKeepsIncluded<K(!new), V>(small: Cache<K, V>, large: Cache<K, V>, c: nat, d: nat, k: K)
    requires c <= d && Sound(small, c) && Sound(large, d) && Included(small, large) && SameUntilFull(small, large, c)
    ensures Included(Apply(small, c, Get(k)), Apply(large, d, Get(k)))
    ensures SameUntilFull(Apply(small, c, Get(k)), Apply(large, d, Get(k)), c)
  {
    if k in small.entries {
      OnlyTouched(large.order, small.order, k);
      WithoutDistinct(small.order, k);
    } else if k in large.entries {
      OnlyUntouched(large.order, small.order, k);
    }
  }

  /** Over every run, the cache of smaller capacity is included in the larger one, and the same until it is full. */
  lemma {:induction false} Inclusion<K(!new), V>(c: nat, d: nat, ops: seq<Op<K, V>>)
    requires c <= d
    ensures Included(After(c, ops), After(d, ops)) && SameUntilFull(After(c, ops), After(d, ops), c)
  {
    if ops == [] {
    } else {
      var init, op := ops[..|ops| - 1], ops[|ops| - 1];
      Inclusion(c, d, init);
      AlwaysSound(c, init);
      AlwaysSound(d, init);
      hide Included, SameUntilFull, Sound, Apply;
      match op {
        case Put(k, v) => PutKeepsIncluded(After(c, init), After(d, init), c, d, k, v);
        case Get(k) => GetKeepsIncluded(After(c, init), After(d, init), c, d, k);
      }
    }
  }

  /** A hit in the smaller cache is the same hit in the larger one. */
  lemma HitsAgree<K(!new), V>(c: nat, d: nat, ops: seq<Op<K, V>>, k: K)
    requires c <= d && Lookup(After(c, ops), k).Some?
    ensures Lookup(After(d, ops), k) == Lookup(After(c, ops), k)
  {
    Inclusion(c, d, ops);
  }

  // ------------------------------------------------------------ the mutable cache

  class LruCache<K(==, !new), V> {
    const capacity: nat
    var entries: map<K, V>
    var order: seq<K>

    function View(): Cache<K, V>
      reads this
    {
      Cache(entries, order)
    }

    constructor (capacity: nat)
      ensures this.capacity == capacity && View() == After(capacity, [])
    {
      this.capacity := capacity;
      entries, order := map[], [];
    }

    method PutEntry(key: K, value: V)
      requires Sound(View(), capacity)
      modifies this
      ensures Sound(View(), capacity)
      ensures View() == Apply(old(View()), capacity, Put(key, value))
      ensures key in entries <==> capacity > 0
    {
      ApplyKeepsSound(View(), capacity, Put(key, value));
      WithoutMembers(order, key);
      if key in entries {
        order := Without(order, key);
      }
      entries := entries[key := value];
      order := order + [key];
      if |order| > capacity {
        var oldest := order[0];
        order := order[1..];
        entries := entries - {oldest};
      }
    }

    method GetEntry(key: K) returns (r: Option<V>)
      requires Sound(View(), capacity)
      modifies this`order
      ensures Sound(View(), capacity)
      ensures View() == Apply(old(View()), capacity, Get(key))
      ensures r == if key in old(entries) then Some(old(entries)[key]) else None
      ensures r == Lookup(old(View()), key)
    {
      ApplyKeepsSound(View(), capacity, Get(key));
      if key in entries {
        order := Without(order, key) + [key];
      }
      r := if key in entries then Some(entries[key]) else None;
    }
  }

  /** The answer to operation `i` of a run: for a lookup, what `Hits` says of the operations before it. */
  ghost predicate Answers<K(!new), V(!new)>(capacity: nat, ops: seq<Op<K, V>>, i: nat, answer: Option<V>)
    requires i < |ops|
  {
    ops[i].Get? ==> forall v :: answer == Some(v) <==> Hits(capacity, ops[..i], ops[i].key, v)
  }

  lemma LookupAnswers<K(!new), V(!new)>(capacity: nat, ops: seq<Op<K, V>>, i: nat)
    requires i < |ops|
    ensures Answers(capacity, ops, i, Lookup(After(capacity, ops[..i]), ops[i].key))
  {
    hide Hits, After, Lookup;
    forall v
      ensures Lookup(After(capacity, ops[..i]), ops[i].key) == Some(v) <==> Hits(capacity, ops[..i], ops[i].key, v)
    {
      LookupIsExact(capacity, ops[..i], ops[i].key, v);
    }
  }

  lemma OneMore<K(!new), V>(capacity: nat, ops: seq<Op<K, V>>, n: nat)
    requires n < |ops|
    ensures After(capacity, ops[..n + 1]) == Apply(After(capacity, ops[..n]), capacity, ops[n])
  {
    assert ops[..n + 1][..n] == ops[..n];
  }

  /** A whole run of a cache that starts empty: each lookup answers as it should. */
  method Run<K(==, !new), V(!new)>(capacity: nat, ops: seq<Op<K, V>>) returns (answers: seq<Option<V>>)
    ensures |answers| == |ops| && forall i :: 0 <= i < |ops| ==> Answers(capacity, ops, i, answers[i])
  {
    hide Answers, After, Sound, Apply, Lookup;
    var cache := new LruCache<K, V>(capacity);
    assert ops[..0] == [];
    answers := [];
    for n := 0 to |ops|
      invariant fresh(cache) && cache.capacity == capacity && cache.View() == After(capacity, ops[..n])
      invariant |answers| == n && forall i :: 0 <= i < n ==> Answers(capacity, ops, i, answers[i])
    {
      AlwaysSound(capacity, ops[..n]);
      OneMore(capacity, ops, n);
      LookupAnswers(capacity, ops, n);
      var r := None;
      match ops[n] {
        case Put(key, value) =>
          PutsAnswerNothing(capacity, ops, n);
          cache.PutEntry(key, value);
        case Get(key) =>
          r := cache.GetEntry(key);
      }
      answers := answers + [r];
    }
    assert ops[..|ops|] == ops;
  }

  lemma PutsAnswerNothing<K(!new), V(!new)>(capacity: nat, ops: seq<Op<K, V>>, i: nat)
    requires i < |ops| && ops[i].Put?
    ensures Answers(capacity, ops, i, None)
  {
  }
}
