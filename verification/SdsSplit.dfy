/**
  `sdssplitlen` and `sdsjoinsds`: splitting at every separator, from the left,
  and joining with a separator.
  */
module SdsSplit {
  import opened Wrappers
  import opened Search

  /** Pieces of a string that has at least one piece. */
  function Pieces(s: string, sep: string): (r: seq<string>)
    requires |sep| > 0
    ensures |r| > 0
    decreases |s|
  {
    var i := IndexOf(s, sep);
    if i < 0 then [s] else [s[..i]] + Pieces(s[i + |sep|..], sep)
  }

  /** `sdssplitlen`: the empty string has no pieces. */
  function Split(s: string, sep: string): seq<string>
    requires |sep| > 0
  {
    if s == "" then [] else Pieces(s, sep)
  }

  function Join(tokens: seq<string>, sep: string): string {
    if tokens == [] then ""
    else if |tokens| == 1 then tokens[0]
    else tokens[0] + sep + Join(tokens[1..], sep)
  }

  lemma FirstPiece(s: string, sep: string, i: nat)
    requires |sep| > 0 && IndexOf(s, sep) == i
    ensures i + |sep| <= |s| && s == s[..i] + sep + s[i + |sep|..]
    ensures Pieces(s, sep) == [s[..i]] + Pieces(s[i + |sep|..], sep)
  {
    assert s == s[..i] + s[i..i + |sep|] + s[i + |sep|..];
  }

  lemma JoinCons(t: string, tokens: seq<string>, sep: string)
    requires tokens != []
    ensures Join([t] + tokens, sep) == t + sep + Join(tokens, sep)
  {
    assert ([t] + tokens)[1..] == tokens;
  }

  lemma {:induction false} JoinPieces(s: string, sep: string)
    requires |sep| > 0
    ensures Join(Pieces(s, sep), sep) == s
    decreases |s|
  {
    var i := IndexOf(s, sep);
    if i >= 0 {
      FirstPiece(s, sep, i);
      JoinPieces(s[i + |sep|..], sep);
      JoinCons(s[..i], Pieces(s[i + |sep|..], sep), sep);
    }
  }

  /** Joining what splitting produced gives back the string. */
  lemma JoinSplit(s: string, sep: string)
    requires |sep| > 0
    ensures Join(Split(s, sep), sep) == s
  {
    JoinPieces(s, sep);
  }

  lemma {:induction false} PiecesAreFree(s: string, sep: string, k: nat)
    requires |sep| > 0 && k < |Pieces(s, sep)|
    ensures Absent(Pieces(s, sep)[k], sep)
    decreases |s|
  {
    var i := IndexOf(s, sep);
    if i >= 0 {
      if k == 0 {
        PrefixIsFree(s, sep, i);
      } else {
        PiecesAreFree(s[i + |sep|..], sep, k - 1);
      }
    }
  }

  lemma PrefixIsFree(s: string, sep: string, i: int)
    requires |sep| > 0 && First(s, sep, i)
    ensures Absent(s[..i], sep)
  {
    AtExtended(s[..i], sep, s[i..]);
    assert s[..i] + s[i..] == s;
    forall j ensures !At(s[..i], sep, j) {
      assert j + |sep| <= i ==> (At(s, sep, j) <==> At(s[..i], sep, j));
    }
  }

  /** No token contains the separator. */
  lemma TokensAreFree(s: string, sep: string)
    requires |sep| > 0
    ensures forall k | 0 <= k < |Split(s, sep)| :: Absent(Split(s, sep)[k], sep)
  {
    forall k | 0 <= k < |Split(s, sep)| ensures Absent(Split(s, sep)[k], sep) {
      PiecesAreFree(s, sep, k);
    }
  }

  /** Every token but the last runs up to the first separator behind its start, and the last holds none. */
  ghost predicate Separable(tokens: seq<string>, sep: string) {
    && (forall k | 0 <= k < |tokens| - 1 :: First(tokens[k] + sep, sep, |tokens[k]|))
    && (tokens != [] ==> Absent(tokens[|tokens| - 1], sep))
  }

  lemma CutJoined(t: string, sep: string, rest: string)
    requires |sep| > 0 && First(t + sep, sep, |t|)
    ensures Pieces(t + sep + rest, sep) == [t] + Pieces(rest, sep)
  {
    var s := t + sep + rest;
    FirstUnique(t + sep, sep, |t|);
    FoundStays(t + sep, sep, rest);
    FirstPiece(s, sep, |t|);
    assert s[..|t|] == t && s[|t| + |sep|..] == rest;
  }

  lemma {:induction false} PiecesOfJoin(tokens: seq<string>, sep: string)
    requires |sep| > 0 && tokens != [] && Separable(tokens, sep)
    ensures Pieces(Join(tokens, sep), sep) == tokens
    decreases |tokens|
  {
    if |tokens| == 1 {
      AbsentMeansNone(tokens[0], sep);
    } else {
      CutJoined(tokens[0], sep, Join(tokens[1..], sep));
      PiecesOfJoin(tokens[1..], sep);
      assert tokens == [tokens[0]] + tokens[1..];
    }
  }

  lemma SeparableCons(t: string, tokens: seq<string>, sep: string)
    requires tokens != [] && Separable(tokens, sep) && First(t + sep, sep, |t|)
    ensures Separable([t] + tokens, sep)
  {
    var r := [t] + tokens;
    forall k | 0 <= k < |r| - 1 ensures First(r[k] + sep, sep, |r[k]|) {
      if k > 0 { assert r[k] == tokens[k - 1]; }
    }
  }

  lemma FirstInPrefix(s: string, sep: string, i: nat)
    requires First(s, sep, i)
    ensures First(s[..i] + sep, sep, i)
  {
    var rest := s[i + |sep|..];
    assert s == (s[..i] + sep) + rest by { assert s == s[..i] + s[i..i + |sep|] + rest; }
    AtExtended(s[..i] + sep, sep, rest);
  }

  lemma {:induction false} PiecesAreSeparable(s: string, sep: string)
    requires |sep| > 0
    ensures Separable(Pieces(s, sep), sep)
    decreases |s|
  {
    var i := IndexOf(s, sep);
    if i >= 0 {
      FirstPiece(s, sep, i);
      PiecesAreSeparable(s[i + |sep|..], sep);
      FirstInPrefix(s, sep, i);
      SeparableCons(s[..i], Pieces(s[i + |sep|..], sep), sep);
    }
  }

  /**
    Splitting what was joined gives back the tokens exactly when the separator
    is not found too early and the tokens are not a single empty one.
    */
  lemma SplitJoinIff(tokens: seq<string>, sep: string)
    requires |sep| > 0
    ensures Split(Join(tokens, sep), sep) == tokens <==> Separable(tokens, sep) && tokens != [""]
  {
    var s := Join(tokens, sep);
    if tokens != [] {
      if s == "" { JoinIsEmpty(tokens, sep); }
      if Separable(tokens, sep) { PiecesOfJoin(tokens, sep); }
      PiecesAreSeparable(s, sep);
    }
  }

  lemma JoinIsEmpty(tokens: seq<string>, sep: string)
    requires |sep| > 0 && tokens != [] && Join(tokens, sep) == ""
    ensures tokens == [""]
  {
  }

  /** One more token has been cut off in front of the separator at `j`. */
  lemma CutToken(s: string, sep: string, tokens: seq<string>, start: nat, j: nat)
    requires |sep| > 0 && start <= j && At(s, sep, j) && forall k | start <= k < j :: !At(s, sep, k)
    requires Pieces(s, sep) == tokens + Pieces(s[start..], sep)
    ensures Pieces(s, sep) == (tokens + [s[start..j]]) + Pieces(s[j + |sep|..], sep)
  {
    FirstFrom(s, sep, start, j);
    FirstPiece(s[start..], sep, j - start);
    assert s[start..][..j - start] == s[start..j] && s[start..][j - start + |sep|..] == s[j + |sep|..];
    MoveToken(tokens, s[start..j], Pieces(s[j + |sep|..], sep));
  }

  lemma MoveToken(tokens: seq<string>, t: string, rest: seq<string>)
    ensures tokens + ([t] + rest) == (tokens + [t]) + rest
  {
  }

  lemma LastToken(s: string, sep: string, start: nat)
    requires |sep| > 0 && start <= |s| && forall k | start <= k <= |s| - |sep| :: !At(s, sep, k)
    ensures Pieces(s[start..], sep) == [s[start..]]
  {
    NoneFrom(s, sep, start);
  }

  /**
    `sdssplitlen`; None stands for the NULL returned for an empty separator.
    Every token is stored into one of the `slots` of an array that doubles.
    */
  method SplitLen(s: string, sep: string) returns (r: Option<seq<string>>, slots: nat)
    ensures r.None? <==> sep == ""
    ensures r.Some? ==> r.value == Split(s, sep) && |r.value| <= slots
  {
    hide Pieces;
    slots := 5;
    if |sep| < 1 {
      return None, slots;
    }
    var tokens := [];
    if |s| == 0 {
      return Some(tokens), slots;
    }
    var start, j := 0, 0;
    assert s[0..] == s;
    while j < |s| - (|sep| - 1)
      invariant 0 <= start <= j && start <= |s|
      invariant Pieces(s, sep) == tokens + Pieces(s[start..], sep)
      invariant forall k | start <= k < j :: !At(s, sep, k)
      invariant |tokens| + 1 <= slots
      decreases |s| - j
    {
      if slots < |tokens| + 2 {
        slots := slots * 2;
      }
      if At(s, sep, j) {
        CutToken(s, sep, tokens, start, j);
        tokens := tokens + [s[start..j]];
        start := j + |sep|;
        j := j + |sep| - 1;
      }
      j := j + 1;
    }
    LastToken(s, sep, start);
    tokens := tokens + [s[start..]];
    r := Some(tokens);
  }

  lemma FirstFrom(s: string, sep: string, start: nat, j: nat)
    requires start <= j && At(s, sep, j) && forall k | start <= k < j :: !At(s, sep, k)
    ensures IndexOf(s[start..], sep) == j - start
  {
    Shift(s, sep, start);
    assert At(s[start..], sep, j - start);
    forall k | 0 <= k < j - start ensures !At(s[start..], sep, k) {
      assert At(s, sep, k + start) <==> At(s[start..], sep, k + start - start);
    }
    FirstUnique(s[start..], sep, j - start);
  }

  lemma NoneFrom(s: string, sep: string, start: nat)
    requires start <= |s| && forall k | start <= k <= |s| - |sep| :: !At(s, sep, k)
    ensures IndexOf(s[start..], sep) == -1
  {
    Shift(s, sep, start);
    forall k ensures !At(s[start..], sep, k) {
      if k >= 0 { assert At(s, sep, k + start) <==> At(s[start..], sep, k + start - start); }
    }
    AbsentMeansNone(s[start..], sep);
  }
}
