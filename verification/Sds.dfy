/**
  sds strings: a heap buffer with its length and spare room, changed in place,
  and the library calls built on it.
  */
module Sds {
  import Decimal
  import opened Wrappers
  import opened Text
  import opened SdsQuoting
  import opened SdsSplit

  const SDS_MAX_PREALLOC: nat := 1024 * 1024

  class SdsString {
    var len: nat
    var free: nat
    var buf: array<char>

    /** The buffer holds the text, a NUL behind it and the spare room. */
    ghost predicate Valid()
      reads this, buf
    {
      buf.Length == len + free + 1 && buf[len] == '\0'
    }

    ghost function Contents(): string
      reads this, buf
      requires Valid()
    {
      buf[..len]
    }

    /** `sdsnewlen` */
    constructor (init: string)
      ensures Valid() && fresh(buf) && Contents() == init && free == 0
    {
      len, free := |init|, 0;
      buf := new char[|init| + 1](i requires 0 <= i <= |init| => if i < |init| then init[i] else '\0');
      new;
      assert buf[..len] == init;
    }

    /** `sdsMakeRoomFor`: the text stays, and `addlen` more bytes fit behind it. */
    method MakeRoomFor(addlen: nat)
      requires Valid()
      modifies this
      ensures Valid() && (buf == old(buf) || fresh(buf))
      ensures len == old(len) && Contents() == old(Contents())
      ensures free >= addlen
      ensures old(free) >= addlen ==> free == old(free) && buf == old(buf)
      ensures old(free) < addlen ==>
                len + free == if len + addlen < SDS_MAX_PREALLOC then 2 * (len + addlen) else len + addlen + SDS_MAX_PREALLOC
    {
      if free >= addlen {
        return;
      }
      var newlen := len + addlen;
      if newlen < SDS_MAX_PREALLOC {
        newlen := newlen * 2;
      } else {
        newlen := newlen + SDS_MAX_PREALLOC;
      }
      var from := buf;
      var keep := len;
      buf := new char[newlen + 1](i requires 0 <= i && keep < from.Length reads from => if i <= keep then from[i] else '\0');
      free := newlen - len;
      assert buf[..len] == from[..len];
    }

    /** `sdscatlen` */
    method CatLen(t: string)
      requires Valid()
      modifies this, buf
      ensures Valid() && (buf == old(buf) || fresh(buf))
      ensures Contents() == old(Contents()) + t
      ensures len + free >= old(len + free)
    {
      ghost var before := Contents();
      var curlen := len;
      MakeRoomFor(|t|);
      forall i | 0 <= i < |t| {
        buf[curlen + i] := t[i];
      }
      len := curlen + |t|;
      free := free - |t|;
      buf[curlen + |t|] := '\0';
      assert buf[..curlen] == before;
      assert buf[curlen..len] == t;
      assert buf[..len] == buf[..curlen] + buf[curlen..len];
    }

    /** `sdscatrepr` */
    method CatRepr(p: string)
      requires Valid() && IsBytes(p)
      modifies this, buf
      ensures Valid() && (buf == old(buf) || fresh(buf))
      ensures Contents() == old(Contents()) + Repr(p)
    {
      ghost var before := Contents() + "\"";
      CatLen("\"");
      var i := 0;
      AppendNothing(before, p);
      while i < |p|
        invariant 0 <= i <= |p|
        invariant Valid() && (buf == old(buf) || fresh(buf))
        invariant Contents() == Quoted(before, p, i)
      {
        AppendEscaped(before, p, i);
        CatLen(EscapeChar(p[i]));
        i := i + 1;
      }
      CatLen("\"");
      CloseRepr(old(Contents()), p);
    }
  }

  /** The text so far, with `i` bytes of `p` escaped. */
  ghost function Quoted(before: string, p: string, i: nat): string
    requires IsBytes(p) && i <= |p|
  {
    before + Escape(p[..i])
  }

  lemma AppendNothing(before: string, p: string)
    requires IsBytes(p)
    ensures before == Quoted(before, p, 0)
  {
  }

  lemma AppendEscaped(before: string, p: string, i: nat)
    requires IsBytes(p) && i < |p|
    ensures Quoted(before, p, i) + EscapeChar(p[i]) == Quoted(before, p, i + 1)
  {
    EscapeAppend(p[..i], p[i]);
    assert p[..i + 1] == p[..i] + [p[i]];
  }

  lemma {:induction false} EscapeAppend(s: string, c: char)
    requires IsBytes(s) && c as int < 256
    ensures IsBytes(s + [c]) && Escape(s + [c]) == Escape(s) + EscapeChar(c)
    decreases |s|
  {
    var t := s + [c];
    assert IsBytes(t);
    if s == "" {
      assert t[1..] == "";
      assert Escape(t) == EscapeChar(c) + "";
    } else {
      EscapeAppend(s[1..], c);
      assert t[1..] == s[1..] + [c];
    }
  }

  lemma CloseRepr(before: string, p: string)
    requires IsBytes(p)
    ensures Quoted(before + "\"", p, |p|) + "\"" == before + Repr(p)
  {
    assert p[..|p|] == p;
  }

  /** `sdsjoinsds` */
  method JoinSds(argv: seq<string>, sep: string) returns (join: SdsString)
    ensures fresh(join) && fresh(join.buf) && join.Valid() && join.Contents() == Join(argv, sep)
  {
    join := new SdsString("");
    var j := 0;
    while j < |argv|
      invariant 0 <= j <= |argv|
      invariant fresh(join) && fresh(join.buf) && join.Valid()
      invariant join.Contents() == Joined(argv[..j], sep) + (if 0 < j < |argv| then sep else "")
    {
      JoinedAppend(argv, j, sep);
      join.CatLen(argv[j]);
      if j != |argv| - 1 {
        join.CatLen(sep);
      }
      j := j + 1;
    }
    assert argv[..|argv|] == argv;
    JoinedIsJoin(argv, sep);
  }

  /** Joining from the left, as the loop does. */
  ghost function Joined(tokens: seq<string>, sep: string): string {
    if tokens == [] then ""
    else if |tokens| == 1 then tokens[0]
    else Joined(tokens[..|tokens| - 1], sep) + sep + tokens[|tokens| - 1]
  }

  lemma JoinedAppend(argv: seq<string>, j: nat, sep: string)
    requires j < |argv|
    ensures Joined(argv[..j + 1], sep) == Joined(argv[..j], sep) + (if 0 < j < |argv| then sep else "") + argv[j]
  {
    assert argv[..j + 1][..j] == argv[..j];
  }

  lemma {:induction false} JoinedIsJoin(tokens: seq<string>, sep: string)
    ensures Joined(tokens, sep) == Join(tokens, sep)
    decreases |tokens|
  {
    if |tokens| > 1 {
      var n := |tokens| - 1;
      JoinedIsJoin(tokens[..n], sep);
      JoinAppend(tokens[..n], tokens[n], sep);
      assert tokens == tokens[..n] + [tokens[n]];
    }
  }

  lemma {:induction false} JoinAppend(tokens: seq<string>, t: string, sep: string)
    requires tokens != []
    ensures Join(tokens + [t], sep) == Join(tokens, sep) + sep + t
    decreases |tokens|
  {
    var all := tokens + [t];
    assert all[1..] == tokens[1..] + [t];
    if |tokens| == 1 {
      assert all[1..] == [t];
    } else {
      JoinAppend(tokens[1..], t, sep);
      Regroup(tokens[0] + sep, Join(tokens[1..], sep), sep, t);
    }
  }

  lemma Regroup(a: string, b: string, c: string, d: string)
    ensures a + (b + c + d) == (a + b) + c + d
  {
  }

  // ---- The argument splitter's loops ------------------------------------------------------

  function ModeOf(inq: bool, insq: bool): Mode {
    if inq then InQuotes else if insq then InSingleQuotes else Bare
  }

  lemma PeekBehind(line: string, p: nat, k: nat)
    requires p <= |line|
    ensures Peek(line[p..], k) == Peek(line, p + k)
  {
  }

  /** What the token loop still makes of the text from `p` on. */
  ghost function Ahead(line: string, p: nat, inq: bool, insq: bool, current: string): Option<Token>
    requires p <= |line|
  {
    ReadToken(line[p..], ModeOf(inq, insq), current)
  }

  lemma TurnAhead(line: string, p: nat, inq: bool, insq: bool, current: string)
    requires p <= |line|
    ensures match TakeTurn(line[p..], ModeOf(inq, insq))
            case Go(skip, add, next) =>
              p + skip <= |line| &&
              Ahead(line, p, inq, insq, current)
              == Ahead(line, p + skip, next == InQuotes, next == InSingleQuotes, current + add)
            case Done(skip) =>
              p + skip <= |line| && Ahead(line, p, inq, insq, current) == Some(Token(current, line[p + skip..]))
            case Bad => Ahead(line, p, inq, insq, current).None?
  {
    var t := TakeTurn(line[p..], ModeOf(inq, insq));
    if !t.Bad? { DropTwice(line, p, t.skip); }
  }

  /** One turn of the token loop inside double quotes; `err` stands for the jump to `err`. */
  method QuotedStep(line: string, from: nat, text: string) returns (err: bool, done: bool, p: nat, current: string)
    requires from <= |line|
    ensures err ==> Ahead(line, from, true, false, text).None?
    ensures !err ==> from < p <= |line|
    ensures !err && done ==> Ahead(line, from, true, false, text) == Some(Token(current, line[p..]))
    ensures !err && !done ==> Ahead(line, from, true, false, text) == Ahead(line, p, true, false, current)
  {
    hide Ahead;
    TurnAhead(line, from, true, false, text);
    PeekBehind(line, from, 0);
    PeekBehind(line, from, 1);
    PeekBehind(line, from, 2);
    PeekBehind(line, from, 3);
    err, done, p, current := false, false, from, text;
    if Peek(line, p) == '\\' && Peek(line, p + 1) == 'x' && IsHexDigit(Peek(line, p + 2)) && IsHexDigit(Peek(line, p + 3)) {
      var byte := HexValue(line[p + 2]) * 16 + HexValue(line[p + 3]);
      current := current + [byte as char];
      p := p + 3;
    } else if Peek(line, p) == '\\' && Peek(line, p + 1) != '\0' {
      p := p + 1;
      current := current + [Unescape(line[p])];
    } else if Peek(line, p) == '\"' {
      if Peek(line, p + 1) != '\0' && !Decimal.IsSpace(Peek(line, p + 1)) {
        err := true;
        return;
      }
      done := true;
    } else if Peek(line, p) == '\0' {
      err := true;
      return;
    } else {
      current := current + [line[p]];
    }
    p := p + 1;
    assert text + "" == text;
  }

  /** One turn inside single quotes. */
  method SingleQuotedStep(line: string, from: nat, text: string)
    returns (err: bool, done: bool, p: nat, current: string)
    requires from <= |line|
    ensures err ==> Ahead(line, from, false, true, text).None?
    ensures !err ==> from < p <= |line|
    ensures !err && done ==> Ahead(line, from, false, true, text) == Some(Token(current, line[p..]))
    ensures !err && !done ==> Ahead(line, from, false, true, text) == Ahead(line, p, false, true, current)
  {
    hide Ahead;
    TurnAhead(line, from, false, true, text);
    PeekBehind(line, from, 0);
    PeekBehind(line, from, 1);
    err, done, p, current := false, false, from, text;
    if Peek(line, p) == '\\' && Peek(line, p + 1) == '\'' {
      p := p + 1;
      current := current + "'";
    } else if Peek(line, p) == '\'' {
      if Peek(line, p + 1) != '\0' && !Decimal.IsSpace(Peek(line, p + 1)) {
        err := true;
        return;
      }
      done := true;
    } else if Peek(line, p) == '\0' {
      err := true;
      return;
    } else {
      current := current + [line[p]];
    }
    p := p + 1;
  }

  /** One turn outside quotes. */
  method BareStep(line: string, from: nat, text: string)
    returns (inq: bool, insq: bool, done: bool, p: nat, current: string)
    requires from <= |line|
    ensures from <= p <= |line| && (p == from ==> done && Peek(line, from) == '\0')
    ensures !(inq && insq)
    ensures done ==> Ahead(line, from, false, false, text) == Some(Token(current, line[p..]))
    ensures !done ==> Ahead(line, from, false, false, text) == Ahead(line, p, inq, insq, current)
  {
    hide Ahead;
    TurnAhead(line, from, false, false, text);
    PeekBehind(line, from, 0);
    inq, insq, done, p, current := false, false, false, from, text;
    assert text + "" == text;
    match Peek(line, p) {
      case ' ' | '\n' | '\r' | '\t' | '\0' => done := true;
      case '\"' => inq := true;
      case '\'' => insq := true;
      case _ => current := current + [line[p]];
    }
    if Peek(line, p) != '\0' {
      p := p + 1;
    }
  }

  /** The token loop; None stands for the jump to `err`. */
  method NextToken(line: string, from: nat) returns (r: Option<string>, p: nat)
    requires from <= |line| && Peek(line, from) != '\0'
    ensures from <= p <= |line|
    ensures r.None? ==> ReadToken(line[from..], Bare, "").None?
    ensures r.Some? ==> ReadToken(line[from..], Bare, "") == Some(Token(r.value, line[p..])) && from < p
  {
    hide TakeTurn, ReadToken;
    var inq, insq, done, err := false, false, false, false;
    var current := "";
    p := from;
    while !done
      invariant from <= p <= |line| && !(inq && insq) && (done ==> from < p)
      invariant Ahead(line, from, false, false, "") ==
                if done then Some(Token(current, line[p..])) else Ahead(line, p, inq, insq, current)
      decreases !done, |line| - p
    {
      if inq {
        err, done, p, current := QuotedStep(line, p, current);
      } else if insq {
        err, done, p, current := SingleQuotedStep(line, p, current);
      } else {
        inq, insq, done, p, current := BareStep(line, p, current);
      }
      if err {
        return None, from;
      }
    }
    r := Some(current);
  }

  method SkipSpaces(line: string, from: nat) returns (p: nat)
    requires from <= |line|
    ensures from <= p <= |line| && line[p..] == SkipBlanks(line[from..])
  {
    p := from;
    while Peek(line, p) != '\0' && Decimal.IsSpace(Peek(line, p))
      invariant from <= p <= |line| && SkipBlanks(line[p..]) == SkipBlanks(line[from..])
      decreases |line| - p
    {
      DropTwice(line, p, 1);
      p := p + 1;
    }
  }

  function Prepend(vector: seq<string>, more: Option<seq<string>>): Option<seq<string>> {
    if more.None? then None else Some(vector + more.value)
  }

  lemma OneMoreArgument(vector: seq<string>, line: string, s: string, text: string, rest: string)
    requires s == SkipBlanks(line) && Peek(s, 0) != '\0'
    requires ReadToken(s, Bare, "") == Some(Token(text, rest))
    ensures Prepend(vector, SplitArgs(line)) == Prepend(vector + [text], SplitArgs(rest))
  {
    if SplitArgs(rest).Some? { MoveToken(vector, text, SplitArgs(rest).value); }
  }

  /** `sdssplitargs` */
  method SplitArguments(line: string) returns (r: Option<seq<string>>)
    ensures r == SplitArgs(line)
  {
    var p := 0;
    var vector: seq<string> := [];
    assert line[0..] == line && (SplitArgs(line).Some? ==> [] + SplitArgs(line).value == SplitArgs(line).value);
    while true
      invariant 0 <= p <= |line|
      invariant Prepend(vector, SplitArgs(line[p..])) == SplitArgs(line)
      decreases |line| - p
    {
      ghost var before := line[p..];
      p := SkipSpaces(line, p);
      PeekBehind(line, p, 0);
      if Peek(line, p) == '\0' {
        assert vector + [] == vector;
        return Some(vector);
      }
      var token, next := NextToken(line, p);
      if token.None? {
        return None;
      }
      OneMoreArgument(vector, before, line[p..], token.value, line[next..]);
      vector := vector + [token.value];
      p := next;
    }
  }
}
