/**
  The bytewise lexicographic order that RocksDB's default comparator and
  `std::string::operator<` share. Bytes are modelled as characters.
  */
module ByteOrder {

  predicate Less(a: string, b: string)
    decreases |a|
  {
    b != [] && (a == [] || a[0] < b[0] || (a[0] == b[0] && Less(a[1..], b[1..])))
  }

  predicate LessEq(a: string, b: string) {
    a == b || Less(a, b)
  }

  lemma {:induction false} Irreflexive(a: string)
    ensures !Less(a, a)
    decreases |a|
  {
    if a != [] {
      Irreflexive(a[1..]);
    }
  }

  lemma {:induction false} Transitive(a: string, b: string, c: string)
    requires Less(a, b) && Less(b, c)
    ensures Less(a, c)
    decreases |a|
  {
    if a != [] && a[0] == b[0] == c[0] {
      Transitive(a[1..], b[1..], c[1..]);
    }
  }

  lemma {:induction false} Trichotomy(a: string, b: string)
    ensures a == b || Less(a, b) || Less(b, a)
    ensures !(Less(a, b) && Less(b, a))
    decreases |a|
  {
    if a != [] && b != [] && a[0] == b[0] {
      Trichotomy(a[1..], b[1..]);
      assert a == [a[0]] + a[1..] && b == [b[0]] + b[1..];
    }
  }

  /** A common prefix does not influence the comparison. */
  lemma {:induction false} CommonPrefix(p: string, a: string, b: string)
    ensures Less(p + a, p + b) == Less(a, b)
    decreases |p|
  {
    if p == [] {
      assert p + a == a && p + b == b;
    } else {
      CommonPrefix(p[1..], a, b);
      assert (p + a)[1..] == p[1..] + a && (p + b)[1..] == p[1..] + b;
    }
  }

  /** Different fields of equal width decide the comparison by themselves. */
  lemma {:induction false} FixedWidth(a: string, x: string, b: string, y: string)
    requires |a| == |b| && a != b
    ensures Less(a + x, b + y) == Less(a, b)
    decreases |a|
  {
    assert (a + x)[1..] == a[1..] + x && (b + y)[1..] == b[1..] + y;
    if a[0] == b[0] {
      assert a == [a[0]] + a[1..] && b == [b[0]] + b[1..];
      FixedWidth(a[1..], x, b[1..], y);
    }
  }

  /** Whatever lies between two strings with a common prefix has that prefix too. */
  lemma {:induction false} Between(p: string, a: string, b: string, k: string)
    requires LessEq(p + a, k) && Less(k, p + b)
    ensures p <= k
    decreases |p|
  {
    if p != [] {
      assert (p + a)[1..] == p[1..] + a && (p + b)[1..] == p[1..] + b;
      assert k[0] == p[0];
      Between(p[1..], a, b, k[1..]);
      assert k == [k[0]] + k[1..] && p == [p[0]] + p[1..];
    }
  }

  /** The first `n` bytes agree, and then `a` ends or has the smaller byte. */
  predicate SmallerAt(a: string, b: string, n: nat) {
    n <= |a| && n < |b| && a[..n] == b[..n] && (n == |a| || a[n] < b[n])
  }

  /** The order is decided at the first difference. */
  lemma {:induction false} LessIff(a: string, b: string)
    ensures Less(a, b) <==> exists n: nat :: SmallerAt(a, b, n)
    decreases |a|
  {
    if a == [] || b == [] || a[0] != b[0] {
      DecidedAtOnce(a, b);
    } else {
      LessIff(a[1..], b[1..]);
      if exists n: nat :: SmallerAt(a, b, n) {
        var n: nat :| SmallerAt(a, b, n);
        assert n > 0;
        assert SmallerAt(a[1..], b[1..], n - 1) by { SmallerLater(a, b, n - 1); }
      }
      if exists n: nat :: SmallerAt(a[1..], b[1..], n) {
        var n: nat :| SmallerAt(a[1..], b[1..], n);
        assert SmallerAt(a, b, n + 1) by { SmallerLater(a, b, n); }
      }
    }
  }

  lemma FirstAgrees(a: string, b: string, n: nat)
    ensures n > 0 && SmallerAt(a, b, n) ==> a != [] && b != [] && a[0] == b[0]
  {
    if n > 0 && SmallerAt(a, b, n) { assert a[0] == a[..n][0] == b[..n][0] == b[0]; }
  }

  lemma DecidedAtOnce(a: string, b: string)
    requires a == [] || b == [] || a[0] != b[0]
    ensures Less(a, b) <==> exists n: nat :: SmallerAt(a, b, n)
  {
    if Less(a, b) { assert SmallerAt(a, b, 0); }
    forall n: nat | SmallerAt(a, b, n) ensures Less(a, b) {
      FirstAgrees(a, b, n);
    }
  }

  lemma SmallerLater(a: string, b: string, n: nat)
    requires a != [] && b != [] && a[0] == b[0]
    ensures SmallerAt(a, b, n + 1) <==> SmallerAt(a[1..], b[1..], n)
  {
    if n + 1 <= |a| && n + 1 <= |b| {
      assert a[..n + 1] == [a[0]] + a[1..][..n] && b[..n + 1] == [b[0]] + b[1..][..n];
      assert a[..n + 1][1..] == a[1..][..n] && b[..n + 1][1..] == b[1..][..n];
    }
  }
}
