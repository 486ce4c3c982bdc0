/**
  Finite collections of (key, score) entries, ordered by score and then by key
  as `SortedSet::Item::operator<` orders them.
  */
module Entries {
  import opened ByteOrder
  import opened RowCodec

  type Scores = map<string, int>

  /** `k` comes no later than `j` in the order of the entries. */
  ghost predicate Precedes(m: Scores, k: string, j: string)
    requires k in m && j in m
  {
    k == j || EntryBefore(m[k], k, m[j], j)
  }

  ghost predicate IsLeast(m: Scores, k: string) {
    k in m && forall j {:trigger Precedes(m, k, j)} | j in m :: Precedes(m, k, j)
  }

  ghost predicate IsGreatest(m: Scores, k: string) {
    k in m && forall j {:trigger Precedes(m, j, k)} | j in m :: Precedes(m, j, k)
  }

  lemma PrecedesTransitive(m: Scores, a: string, b: string, c: string)
    requires a in m && b in m && c in m
    requires Precedes(m, a, b) && Precedes(m, b, c)
    ensures Precedes(m, a, c)
  {
    if a != b && b != c && m[a] == m[b] == m[c] {
      Transitive(a, b, c);
    }
  }

  lemma PrecedesTotal(m: Scores, a: string, b: string)
    requires a in m && b in m
    ensures Precedes(m, a, b) || Precedes(m, b, a)
    ensures Precedes(m, a, b) && Precedes(m, b, a) ==> a == b
  {
    Trichotomy(a, b);
  }

  lemma {:induction false} ExtremesExist(m: Scores)
    requires m != map[]
    ensures exists k :: IsLeast(m, k)
    ensures exists k :: IsGreatest(m, k)
    decreases |m|
  {
    var x :| x in m;
    var rest := m - {x};
    if rest == map[] {
      assert m.Keys - {x} == rest.Keys == {};
      assert m.Keys == {x};
      assert IsLeast(m, x) && IsGreatest(m, x);
    } else {
      ExtremesExist(rest);
      var k :| IsLeast(rest, k);
      var g :| IsGreatest(rest, g);
      LeastOfTwo(m, x, k);
      GreatestOfTwo(m, x, g);
    }
  }

  lemma LeastOfTwo(m: Scores, x: string, k: string)
    requires x in m && k in m && IsLeast(m - {x}, k)
    ensures IsLeast(m, x) || IsLeast(m, k)
  {
    PrecedesTotal(m, x, k);
    var y := if Precedes(m, x, k) then x else k;
    forall j | j in m ensures Precedes(m, y, j) {
      if j != x {
        assert j in m - {x} && Precedes(m - {x}, k, j);
        if y == x { PrecedesTransitive(m, x, k, j); }
      }
    }
    assert IsLeast(m, y);
  }

  lemma GreatestOfTwo(m: Scores, x: string, k: string)
    requires x in m && k in m && IsGreatest(m - {x}, k)
    ensures IsGreatest(m, x) || IsGreatest(m, k)
  {
    PrecedesTotal(m, x, k);
    var y := if Precedes(m, k, x) then x else k;
    forall j | j in m ensures Precedes(m, j, y) {
      if j != x {
        assert j in m - {x} && Precedes(m - {x}, j, k);
        if y == x { PrecedesTransitive(m, j, k, x); }
      }
    }
    assert IsGreatest(m, y);
  }

  ghost function Least(m: Scores): (k: string)
    requires m != map[]
    ensures IsLeast(m, k)
  {
    ExtremesExist(m);
    var k :| IsLeast(m, k);
    k
  }

  ghost function Greatest(m: Scores): (k: string)
    requires m != map[]
    ensures IsGreatest(m, k)
  {
    ExtremesExist(m);
    var k :| IsGreatest(m, k);
    k
  }

  lemma LeastUnique(m: Scores, k: string)
    requires IsLeast(m, k)
    ensures k == Least(m)
  {
    PrecedesTotal(m, k, Least(m));
  }

  lemma GreatestUnique(m: Scores, k: string)
    requires IsGreatest(m, k)
    ensures k == Greatest(m)
  {
    PrecedesTotal(m, k, Greatest(m));
  }

  /** The `limit` least entries, taken off one at a time from the front. */
  ghost function FirstEntries(m: Scores, limit: nat): (r: Scores)
    decreases |m|
  {
    if limit == 0 || m == map[] then map[]
    else
      var k := Least(m);
      assert (m - {k}).Keys == m.Keys - {k};
      FirstEntries(m - {k}, limit - 1)[k := m[k]]
  }

  ghost predicate IsFirstEntries(m: Scores, limit: nat, r: Scores) {
    && r.Keys <= m.Keys
    && (forall k | k in r :: r[k] == m[k])
    && |r| == (if |m| <= limit then |m| else limit)
    && (forall k, j {:trigger Precedes(m, k, j)} | k in r && j in m && j !in r :: Precedes(m, k, j))
  }

  lemma FirstEntriesStep(m: Scores, limit: nat)
    ensures limit == 0 || m == map[] ==> FirstEntries(m, limit) == map[]
    ensures limit > 0 && m != map[] ==>
              FirstEntries(m, limit) == FirstEntries(m - {Least(m)}, limit - 1)[Least(m) := m[Least(m)]]
  {
    hide Least;
  }

  lemma NoEntriesAreFirst(m: Scores, limit: nat)
    requires limit == 0 || m == map[]
    ensures IsFirstEntries(m, limit, map[])
  {
  }

  lemma {:induction false} FirstEntriesAreFirst(m: Scores, limit: nat)
    ensures IsFirstEntries(m, limit, FirstEntries(m, limit))
    decreases limit
  {
    hide FirstEntries, IsFirstEntries, Least;
    FirstEntriesStep(m, limit);
    if limit > 0 && m != map[] {
      var k := Least(m);
      FirstEntriesAreFirst(m - {k}, limit - 1);
      FirstPlusLeast(m, limit, k, FirstEntries(m - {k}, limit - 1));
    } else {
      NoEntriesAreFirst(m, limit);
    }
  }

  lemma FirstPlusLeast(m: Scores, limit: nat, k: string, q: Scores)
    requires limit > 0 && IsLeast(m, k) && IsFirstEntries(m - {k}, limit - 1, q)
    ensures IsFirstEntries(m, limit, q[k := m[k]])
  {
    var r := q[k := m[k]];
    SizeOfUpdate(q, k, m[k]);
    SizeOfUpdate(m - {k}, k, m[k]);
    assert m == (m - {k})[k := m[k]];
    forall i, j | i in r && j in m && j !in r ensures Precedes(m, i, j) {
      if i != k { assert i in q && j in m - {k} && Precedes(m - {k}, i, j); }
    }
  }

  lemma SizeOfUpdate(m: Scores, k: string, v: int)
    requires k !in m
    ensures |m[k := v]| == |m| + 1
  {
    assert m[k := v].Keys == m.Keys + {k};
  }
}
