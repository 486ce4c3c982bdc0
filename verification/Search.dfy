/**
  First-occurrence search, as done by `std::string::find` and by
  `BoundaryPositionInDataCollector`.
  */
module Search {

  predicate At(s: string, p: string, i: int) {
    0 <= i && i + |p| <= |s| && s[i..i + |p|] == p
  }

  ghost predicate First(s: string, p: string, i: int) {
    At(s, p, i) && forall j | 0 <= j < i :: !At(s, p, j)
  }

  ghost predicate Absent(s: string, p: string) {
    forall j :: !At(s, p, j)
  }

  /** Position of the first occurrence of `p` in `s`, or -1. */
  function IndexOf(s: string, p: string): (r: int)
    ensures r >= 0 ==> First(s, p, r)
    ensures r < 0 ==> r == -1 && Absent(s, p)
  {
    Scan(s, p, 0)
  }

  function Scan(s: string, p: string, i: nat): (r: int)
    ensures r >= 0 ==> At(s, p, r) && forall j | i <= j < r :: !At(s, p, j)
    ensures r < 0 ==> r == -1 && forall j | i <= j :: !At(s, p, j)
    decreases |s| - i
  {
    if i + |p| > |s| then -1 else if At(s, p, i) then i else Scan(s, p, i + 1)
  }

  /** Occurrences in a suffix are occurrences further on. */
  lemma Shift(s: string, p: string, k: int)
    requires 0 <= k <= |s|
    ensures forall j | j >= k :: At(s, p, j) <==> At(s[k..], p, j - k)
  {
    forall j | j >= k ensures At(s, p, j) <==> At(s[k..], p, j - k) {
      if j + |p| <= |s| { assert s[j..j + |p|] == s[k..][j - k..j - k + |p|]; }
    }
  }

  lemma AtChar(s: string, p: string, j: int, k: int)
    requires 0 <= k < |p|
    ensures At(s, p, j) ==> s[j + k] == p[k]
  {
    if At(s, p, j) { assert s[j..j + |p|][k] == s[j + k]; }
  }

  lemma FirstUnique(s: string, p: string, i: int)
    requires First(s, p, i)
    ensures IndexOf(s, p) == i
  {
  }

  lemma AbsentMeansNone(s: string, p: string)
    requires Absent(s, p)
    ensures IndexOf(s, p) == -1
  {
  }

  /** Text appended behind an occurrence does not disturb it; new occurrences reach into the new text. */
  lemma AtExtended(s: string, p: string, t: string)
    ensures forall i | i + |p| <= |s| :: At(s + t, p, i) <==> At(s, p, i)
  {
    forall i | i + |p| <= |s| ensures At(s + t, p, i) <==> At(s, p, i) {
      if 0 <= i { assert (s + t)[i..i + |p|] == s[i..i + |p|]; }
    }
  }

  lemma FoundStays(s: string, p: string, t: string)
    requires IndexOf(s, p) >= 0
    ensures IndexOf(s + t, p) == IndexOf(s, p)
  {
    AtExtended(s, p, t);
    FirstUnique(s + t, p, IndexOf(s, p));
  }

  lemma FoundLater(s: string, p: string, t: string)
    requires IndexOf(s, p) < 0 && IndexOf(s + t, p) >= 0
    ensures IndexOf(s + t, p) > |s| - |p|
  {
    AtExtended(s, p, t);
    assert !At(s, p, IndexOf(s + t, p));
  }

  lemma FoundAfterDrop(s: string, p: string, k: int)
    requires 0 <= k <= |s| && IndexOf(s, p) >= k
    ensures IndexOf(s[k..], p) == IndexOf(s, p) - k
  {
    Shift(s, p, k);
    var i := IndexOf(s, p);
    assert At(s[k..], p, i - k);
    forall j | 0 <= j < i - k ensures !At(s[k..], p, j) {
      assert At(s, p, j + k) <==> At(s[k..], p, j + k - k);
    }
    FirstUnique(s[k..], p, i - k);
  }

  lemma AbsentAfterDrop(s: string, p: string, k: int)
    requires 0 <= k <= |s| && IndexOf(s, p) < 0
    ensures IndexOf(s[k..], p) < 0
  {
    Shift(s, p, k);
    forall j ensures !At(s[k..], p, j) {
      if j >= 0 { assert At(s, p, j + k) <==> At(s[k..], p, j + k - k); }
    }
  }
}
