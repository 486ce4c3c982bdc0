/**
  The least-recently-used discipline of `EtagCache`, on the list of its keys,
  most recent first. A miss of Get changes nothing, so which keys are kept
  depends on which of the earlier calls hit.
  */
module Lru {

  datatype Op = Set(key: nat) | Get(key: nat)

  function Without(s: seq<nat>, k: nat): (r: seq<nat>)
    ensures k !in r && |r| <= |s| && (k in s ==> |r| < |s|) && forall x :: x in r <==> x in s && x != k
  {
    if s == [] then [] else if s[0] == k then Without(s[1..], k) else [s[0]] + Without(s[1..], k)
  }

  /** A new key pushes the oldest out of a full list; a known one moves to the front. */
  function Put(capacity: nat, keys: seq<nat>, k: nat): seq<nat>
    requires capacity > 0
  {
    if k in keys then [k] + Without(keys, k)
    else [k] + if |keys| == capacity then keys[..|keys| - 1] else keys
  }

  function Do(capacity: nat, keys: seq<nat>, op: Op): seq<nat>
    requires capacity > 0
  {
    match op
    case Set(k) => Put(capacity, keys, k)
    case Get(k) => if k in keys then Put(capacity, keys, k) else keys
  }

  function Run(capacity: nat, ops: seq<Op>): seq<nat>
    requires capacity > 0
  {
    if ops == [] then [] else Do(capacity, Run(capacity, ops[..|ops| - 1]), ops[|ops| - 1])
  }

  // ---- Reference: the distinct keys of a history ---------------------------------------------------

  ghost predicate Unique(s: seq<nat>) {
    forall i, j | 0 <= i < j < |s| :: s[i] != s[j]
  }

  /** Every key of `h` once, in the order of first occurrence. */
  function Distinct(h: seq<nat>): (r: seq<nat>)
    ensures Unique(r) && forall x :: x in r <==> x in h
  {
    if h == [] then []
    else
      var x, before := h[|h| - 1], h[..|h| - 1];
      if x in before then Distinct(before) else Distinct(before) + [x]
  }

  function Take(s: seq<nat>, n: nat): seq<nat> {
    if |s| <= n then s else s[..n]
  }

  /** The `capacity` most recently touched keys of a history, newest first. */
  function Recent(capacity: nat, history: seq<nat>): seq<nat> {
    Take(Distinct(history), capacity)
  }

  /** The calls that touched a key, newest first: every Set, and the Gets that hit. */
  function Touched(capacity: nat, ops: seq<Op>): seq<nat> {
    if ops == [] then []
    else
      var h, op := Touched(capacity, ops[..|ops| - 1]), ops[|ops| - 1];
      if op.Set? || op.key in Recent(capacity, h) then [op.key] + h else h
  }

  lemma {:induction false} WithoutSplits(a: seq<nat>, b: seq<nat>, k: nat)
    ensures Without(a + b, k) == Without(a, k) + Without(b, k)
    decreases |a|
  {
    if a == [] {
      assert a + b == b;
    } else {
      WithoutSplits(a[1..], b, k);
      assert (a + b)[1..] == a[1..] + b && (a + b)[0] == a[0];
      Grouping([a[0]], Without(a[1..], k), Without(b, k));
    }
  }

  lemma Grouping(a: seq<nat>, b: seq<nat>, c: seq<nat>)
    ensures (a + b) + c == a + (b + c)
  {
  }

  lemma {:induction false} WithoutAbsent(s: seq<nat>, k: nat)
    requires k !in s
    ensures Without(s, k) == s
    decreases |s|
  {
    if s != [] {
      WithoutAbsent(s[1..], k);
      assert s == [s[0]] + s[1..];
    }
  }

  lemma {:induction false} WithoutBetween(a: seq<nat>, k: nat, b: seq<nat>)
    requires k !in a && k !in b
    ensures Without(a + [k] + b, k) == a + b
    decreases |a|
  {
    var s := a + [k] + b;
    if a == [] {
      assert s[1..] == b;
      WithoutAbsent(b, k);
    } else {
      assert s[1..] == a[1..] + [k] + b;
      WithoutBetween(a[1..], k, b);
    }
  }

  lemma UniqueAround(s: seq<nat>, i: nat)
    requires Unique(s) && i < |s|
    ensures s[i] !in s[..i] && s[i] !in s[i + 1..] && s == s[..i] + [s[i]] + s[i + 1..]
  {
  }

  /** In a list without repetitions, removing a key removes one place. */
  lemma WithoutOnce(s: seq<nat>, i: nat)
    requires Unique(s) && i < |s|
    ensures Without(s, s[i]) == s[..i] + s[i + 1..]
  {
    UniqueAround(s, i);
    WithoutBetween(s[..i], s[i], s[i + 1..]);
  }

  /** A new touch puts its key first and takes it out of its old place. */
  lemma {:induction false} DistinctTouch(k: nat, h: seq<nat>)
    ensures Distinct([k] + h) == [k] + Without(Distinct(h), k)
    decreases |h|
  {
    if h == [] {
      assert [k] + h == [k];
    } else {
      var x, before := h[|h| - 1], h[..|h| - 1];
      DistinctTouch(k, before);
      assert ([k] + h)[..|h|] == [k] + before;
      if x !in before { WithoutSplits(Distinct(before), [x], k); }
    }
  }

  function FirstIndex(h: seq<nat>, k: nat): (i: nat)
    requires k in h
    ensures i < |h| && h[i] == k && k !in h[..i]
  {
    if h[0] == k then 0 else
      assert h == [h[0]] + h[1..];
      1 + FirstIndex(h[1..], k)
  }

  lemma TakeUnique(d: seq<nat>, n: nat, i: nat)
    requires Unique(d) && i < |d| && i < n
    ensures Unique(Take(d, n)) && i < |Take(d, n)| && Take(d, n)[i] == d[i]
  {
  }

  lemma TakeKnown(d: seq<nat>, i: nat, capacity: nat)
    requires Unique(d) && i < |d| && i < capacity
    ensures Take([d[i]] + Without(d, d[i]), capacity) == [d[i]] + Without(Take(d, capacity), d[i])
  {
    WithoutOnce(d, i);
    TakeUnique(d, capacity, i);
    WithoutOnce(Take(d, capacity), i);
    TakeHole(d, i, capacity);
  }

  lemma TakeHole(d: seq<nat>, i: nat, n: nat)
    requires i < |d| && i < n
    ensures Take([d[i]] + (d[..i] + d[i + 1..]), n) == [d[i]] + (Take(d, n)[..i] + Take(d, n)[i + 1..])
  {
  }

  lemma TakeForgotten(d: seq<nat>, i: nat, capacity: nat)
    requires Unique(d) && capacity <= i < |d| && capacity > 0
    ensures Take([d[i]] + Without(d, d[i]), capacity) == [d[i]] + d[..capacity - 1]
  {
    WithoutOnce(d, i);
    TakeBefore(d, i, capacity);
  }

  lemma TakeBefore(d: seq<nat>, i: nat, n: nat)
    requires 0 < n <= i < |d|
    ensures Take([d[i]] + (d[..i] + d[i + 1..]), n) == [d[i]] + d[..n - 1]
  {
  }

  lemma TakeNew(d: seq<nat>, k: nat, capacity: nat)
    requires k !in d && capacity > 0
    ensures Take([k] + Without(d, k), capacity) == Put(capacity, Take(d, capacity), k)
  {
    WithoutAbsent(d, k);
  }

  /** One touch of the reference is one Put of the cache. */
  lemma TouchIsPut(capacity: nat, h: seq<nat>, k: nat)
    requires capacity > 0
    ensures Recent(capacity, [k] + h) == Put(capacity, Recent(capacity, h), k)
  {
    var d := Distinct(h);
    DistinctTouch(k, h);
    if k !in d {
      TakeNew(d, k, capacity);
    } else {
      var i := FirstIndex(d, k);
      if i < capacity {
        TakeKnown(d, i, capacity);
        assert Take(d, capacity)[i] == k;
      } else {
        TakeForgotten(d, i, capacity);
        assert k !in d[..capacity];
      }
    }
  }

  /** After every run the cache holds the most recently touched keys, in order. */
  lemma {:induction false} RunIsRecent(capacity: nat, ops: seq<Op>)
    requires capacity > 0
    ensures Run(capacity, ops) == Recent(capacity, Touched(capacity, ops))
    decreases |ops|
  {
    if ops != [] {
      var before, op := ops[..|ops| - 1], ops[|ops| - 1];
      RunIsRecent(capacity, before);
      TouchIsPut(capacity, Touched(capacity, before), op.key);
    }
  }

  /** The distinct keys of a prefix come first. */
  lemma {:induction false} DistinctPrefix(h: seq<nat>, i: nat)
    requires i <= |h|
    ensures Distinct(h[..i]) <= Distinct(h)
    decreases |h|
  {
    if i < |h| {
      DistinctPrefix(h[..|h| - 1], i);
      assert h[..|h| - 1][..i] == h[..i];
    } else {
      assert h[..i] == h;
    }
  }

  lemma DistinctPlace(h: seq<nat>, k: nat)
    requires k in h
    ensures var p := |Distinct(h[..FirstIndex(h, k)])|; p < |Distinct(h)| && Distinct(h)[p] == k
  {
    var i := FirstIndex(h, k);
    DistinctPrefix(h, i + 1);
    assert h[..i + 1][..i] == h[..i];
  }

  /** A key is held exactly when fewer than `capacity` distinct other keys were touched after it. */
  lemma HitIff(capacity: nat, h: seq<nat>, k: nat)
    ensures k in Recent(capacity, h) <==> k in h && |Distinct(h[..FirstIndex(h, k)])| < capacity
  {
    if k in h { DistinctPlace(h, k); }
  }

  // ---- A larger cache hits at least as often ------------------------------------------------------

  /** `s` is `t` with some elements left out. */
  ghost predicate Within(s: seq<nat>, t: seq<nat>) {
    s == [] || (t != [] && if s[0] == t[0] then Within(s[1..], t[1..]) else Within(s, t[1..]))
  }

  lemma {:induction false} WithinMembers(s: seq<nat>, t: seq<nat>, x: nat)
    requires Within(s, t) && x in s
    ensures x in t
    decreases |t|
  {
    if s[0] == t[0] {
      if x != s[0] { WithinMembers(s[1..], t[1..], x); }
    } else {
      WithinMembers(s, t[1..], x);
    }
  }

  lemma {:induction false} WithinLength(s: seq<nat>, t: seq<nat>)
    requires Within(s, t)
    ensures |s| <= |t|
    decreases |t|
  {
    if s != [] {
      if s[0] == t[0] { WithinLength(s[1..], t[1..]); } else { WithinLength(s, t[1..]); }
    }
  }

  lemma {:induction false} WithinTail(s: seq<nat>, t: seq<nat>)
    requires Within(s, t) && s != []
    ensures Within(s[1..], t)
    decreases |t|, 0
  {
    if s[0] == t[0] {
      WithinCons(s[1..], t[1..], t[0]);
      assert t == [t[0]] + t[1..];
    } else {
      WithinTail(s, t[1..]);
      WithinCons(s[1..], t[1..], t[0]);
      assert t == [t[0]] + t[1..];
    }
  }

  lemma {:induction false} WithinCons(s: seq<nat>, t: seq<nat>, x: nat)
    requires Within(s, t)
    ensures Within(s, [x] + t)
    decreases |t|, 1
  {
    assert ([x] + t)[1..] == t;
    if s != [] && s[0] == x { WithinTail(s, t); }
  }

  lemma WithinBoth(s: seq<nat>, t: seq<nat>, x: nat)
    requires Within(s, t)
    ensures Within([x] + s, [x] + t)
  {
    assert ([x] + s)[1..] == s && ([x] + t)[1..] == t;
  }

  lemma {:induction false} WithinWithout(s: seq<nat>, t: seq<nat>, k: nat)
    requires Within(s, t)
    ensures Within(Without(s, k), Without(t, k))
    decreases |t|
  {
    if s != [] {
      if s[0] == t[0] {
        WithinWithout(s[1..], t[1..], k);
        WithinBoth(Without(s[1..], k), Without(t[1..], k), s[0]);
      } else {
        WithinWithout(s, t[1..], k);
        WithinCons(Without(s, k), Without(t[1..], k), t[0]);
      }
    }
  }

  lemma {:induction false} WithinInit(s: seq<nat>, t: seq<nat>)
    requires Within(s, t) && s != []
    ensures Within(s[..|s| - 1], t)
    decreases |t|
  {
    if s[0] == t[0] {
      if |s| > 1 {
        WithinInit(s[1..], t[1..]);
        assert s[1..][..|s| - 2] == s[..|s| - 1][1..];
      }
    } else {
      WithinInit(s, t[1..]);
    }
  }

  lemma {:induction false} WithinInits(s: seq<nat>, t: seq<nat>)
    requires Within(s, t) && s != []
    ensures Within(s[..|s| - 1], t[..|t| - 1])
    decreases |t|
  {
    WithinLength(s, t);
    if s[0] == t[0] {
      if |s| > 1 {
        WithinInits(s[1..], t[1..]);
        WithinLength(s[1..], t[1..]);
        assert s[1..][..|s| - 2] == s[..|s| - 1][1..];
        assert t[1..][..|t| - 2] == t[..|t| - 1][1..];
      }
    } else {
      WithinInits(s, t[1..]);
      WithinLength(s, t[1..]);
      assert t[1..][..|t| - 2] == t[..|t| - 1][1..];
    }
  }

  /** How a smaller cache stands to a larger one: while it has room they agree. */
  ghost predicate Nested(small: nat, s: seq<nat>, large: nat, t: seq<nat>) {
    Unique(s) && |s| <= small <= large && |t| <= large && Within(s, t) && (|s| < small ==> s == t)
  }

  lemma {:induction false} WithinSelf(s: seq<nat>)
    ensures Within(s, s)
    decreases |s|
  {
    if s != [] { WithinSelf(s[1..]); }
  }

  lemma PutNestedFull(small: nat, s: seq<nat>, large: nat, t: seq<nat>, k: nat)
    requires 0 < small == |s| && Nested(small, s, large, t)
    ensures |Put(small, s, k)| == small && Within(Put(small, s, k), Put(large, t, k))
  {
    WithinWithout(s, t, k);
    if k in s {
      WithinMembers(s, t, k);
      WithoutOnce(s, FirstIndex(s, k));
      WithinBoth(Without(s, k), Without(t, k), k);
    } else {
      WithoutAbsent(s, k);
      WithinInit(s, Without(t, k));
      WithinInits(s, t);
      WithinInit(s, t);
      WithinBoth(s[..|s| - 1], if k in t then Without(t, k) else if |t| == large then t[..|t| - 1] else t, k);
    }
  }

  lemma PutNested(small: nat, s: seq<nat>, large: nat, t: seq<nat>, k: nat)
    requires 0 < small && Nested(small, s, large, t)
    ensures Unique(Put(small, s, k)) ==> Nested(small, Put(small, s, k), large, Put(large, t, k))
  {
    if |s| == small {
      PutNestedFull(small, s, large, t, k);
    } else {
      WithinSelf(Put(small, s, k));
    }
  }

  lemma HitNested(small: nat, s: seq<nat>, large: nat, t: seq<nat>, op: Op)
    requires 0 < small && Nested(small, s, large, t)
    ensures Unique(Do(small, s, op)) ==> Nested(small, Do(small, s, op), large, Do(large, t, op))
  {
    var k := op.key;
    PutNested(small, s, large, t, k);
    if op.Get? {
      if k in s {
        WithinMembers(s, t, k);
      } else if k in t {
        WithoutAbsent(s, k);
        WithinWithout(s, t, k);
        WithinCons(s, Without(t, k), k);
      }
    }
  }

  lemma {:induction false} RunsNest(small: nat, large: nat, ops: seq<Op>)
    requires 0 < small <= large
    ensures Nested(small, Run(small, ops), large, Run(large, ops))
    decreases |ops|
  {
    RunIsRecent(small, ops);
    RunIsRecent(large, ops);
    if ops != [] {
      var before, op := ops[..|ops| - 1], ops[|ops| - 1];
      RunsNest(small, large, before);
      HitNested(small, Run(small, before), large, Run(large, before), op);
    }
  }

  /** For every trace: whatever the smaller cache still knows, the larger one knows too. */
  lemma LargerHitsToo(small: nat, large: nat, ops: seq<Op>, k: nat)
    requires 0 < small <= large && k in Run(small, ops)
    ensures k in Run(large, ops)
  {
    RunsNest(small, large, ops);
    WithinMembers(Run(small, ops), Run(large, ops), k);
  }
}
