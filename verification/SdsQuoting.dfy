/**
  `sdscatrepr` and `sdssplitargs`: quoting a binary string and splitting a line
  of quoted arguments (C locale). Characters are bytes, below 256.
  */
module SdsQuoting {
  import opened Wrappers
  import Decimal

  predicate IsBytes(s: string) {
    forall i | 0 <= i < |s| :: s[i] as int < 256
  }

  const BELL: char := 7 as char
  const BACKSPACE: char := 8 as char

  /** C-locale `isprint` */
  predicate IsPrint(c: char) {
    ' ' <= c <= '~'
  }

  // ---- Quoting ---------------------------------------------------------------------

  function HexDigit(n: nat): (c: char)
    requires n < 16
  {
    if n < 10 then '0' + n as char else 'a' + (n - 10) as char
  }

  function EscapeChar(c: char): string
    requires c as int < 256
  {
    if c == '\\' || c == '\"' then ['\\', c]
    else if c == '\n' then "\\n"
    else if c == '\r' then "\\r"
    else if c == '\t' then "\\t"
    else if c == BELL then "\\a"
    else if c == BACKSPACE then "\\b"
    else if IsPrint(c) then [c]
    else ['\\', 'x', HexDigit(c as int / 16), HexDigit(c as int % 16)]
  }

  function Escape(s: string): string
    requires IsBytes(s)
  {
    if s == [] then "" else EscapeChar(s[0]) + Escape(s[1..])
  }

  /** What `sdscatrepr` appends. */
  function Repr(s: string): string
    requires IsBytes(s)
  {
    "\"" + Escape(s) + "\""
  }

  // ---- Splitting ---------------------------------------------------------------------

  /** The character `p[k]` of a C string; NUL at its end. */
  function Peek(s: string, k: nat): char {
    if k < |s| then s[k] else '\0'
  }

  predicate IsHexDigit(c: char) {
    '0' <= c <= '9' || 'a' <= c <= 'f' || 'A' <= c <= 'F'
  }

  function HexValue(c: char): (n: nat)
    requires IsHexDigit(c)
    ensures n < 16
  {
    if '0' <= c <= '9' then (c - '0') as int
    else if 'a' <= c <= 'f' then (c - 'a') as int + 10
    else (c - 'A') as int + 10
  }

  function Unescape(c: char): char {
    if c == 'n' then '\n'
    else if c == 'r' then '\r'
    else if c == 't' then '\t'
    else if c == 'b' then BACKSPACE
    else if c == 'a' then BELL
    else c
  }

  datatype Mode = Bare | InQuotes | InSingleQuotes

  /** A finished token and the text behind it. */
  datatype Token = Token(text: string, rest: string)

  predicate IsHexEscape(s: string) {
    Peek(s, 0) == '\\' && Peek(s, 1) == 'x' && IsHexDigit(Peek(s, 2)) && IsHexDigit(Peek(s, 3))
  }

  /** A closing quote must be followed by a space or nothing at all. */
  predicate ClosesWell(s: string) {
    Peek(s, 1) == '\0' || Decimal.IsSpace(Peek(s, 1))
  }

  /** One turn of the token loop: how the text and the mode change, or where the token ends. */
  datatype Turn = Go(skip: nat, add: string, mode: Mode) | Done(skip: nat) | Bad

  function QuotedTurn(s: string): Turn {
    var c := Peek(s, 0);
    if IsHexEscape(s) then Go(4, [(HexValue(s[2]) * 16 + HexValue(s[3])) as char], InQuotes)
    else if c == '\\' && Peek(s, 1) != '\0' then Go(2, [Unescape(s[1])], InQuotes)
    else if c == '\"' then (if ClosesWell(s) then Done(1) else Bad)
    else if c == '\0' then Bad
    else Go(1, [c], InQuotes)
  }

  function SingleQuotedTurn(s: string): Turn {
    var c := Peek(s, 0);
    if c == '\\' && Peek(s, 1) == '\'' then Go(2, "'", InSingleQuotes)
    else if c == '\'' then (if ClosesWell(s) then Done(1) else Bad)
    else if c == '\0' then Bad
    else Go(1, [c], InSingleQuotes)
  }

  function BareTurn(s: string): Turn {
    var c := Peek(s, 0);
    if c == '\0' then Done(0)
    else if c == ' ' || c == '\n' || c == '\r' || c == '\t' then Done(1)
    else if c == '\"' then Go(1, "", InQuotes)
    else if c == '\'' then Go(1, "", InSingleQuotes)
    else Go(1, [c], Bare)
  }

  function TakeTurn(s: string, mode: Mode): (t: Turn)
    ensures t.Go? ==> 0 < t.skip <= |s|
    ensures t.Done? ==> t.skip <= |s| && (t.skip == 0 ==> mode == Bare && Peek(s, 0) == '\0')
  {
    match mode
    case Bare => BareTurn(s)
    case InQuotes => QuotedTurn(s)
    case InSingleQuotes => SingleQuotedTurn(s)
  }

  /** The token loop, from the text still to be read. */
  function ReadToken(s: string, mode: Mode, text: string): (r: Option<Token>)
    ensures r.Some? ==> |r.value.rest| <= |s|
    ensures r.Some? && Peek(s, 0) != '\0' ==> |r.value.rest| < |s|
    decreases |s|
  {
    match TakeTurn(s, mode)
    case Go(skip, add, next) => ReadToken(s[skip..], next, text + add)
    case Done(skip) => Some(Token(text, s[skip..]))
    case Bad => None
  }

  function SkipBlanks(s: string): (r: string)
    ensures |r| <= |s|
    ensures r == "" || !Decimal.IsSpace(r[0])
  {
    if s != "" && Decimal.IsSpace(s[0]) then SkipBlanks(s[1..]) else s
  }

  /** `sdssplitargs`; None when it returns NULL. */
  function SplitArgs(line: string): Option<seq<string>>
    decreases |line|
  {
    var s := SkipBlanks(line);
    if Peek(s, 0) == '\0' then Some([])
    else
      match ReadToken(s, Bare, "")
      case None => None
      case Some(Token(text, rest)) =>
        match SplitArgs(rest)
        case None => None
        case Some(more) => Some([text] + more)
  }

  // ---- The round trip -------------------------------------------------------------------

  lemma HexRoundTrip(n: nat)
    requires n < 16
    ensures IsHexDigit(HexDigit(n)) && HexValue(HexDigit(n)) == n
  {
  }

  /** An escaped byte is read back as that byte, whatever follows. */
  lemma EscapedByte(c: char, rest: string)
    requires c as int < 256
    ensures QuotedTurn(EscapeChar(c) + rest) == Go(|EscapeChar(c)|, [c], InQuotes)
  {
    var e := EscapeChar(c);
    var s := e + rest;
    if |e| == 4 {
      HexRoundTrip(c as int / 16);
      HexRoundTrip(c as int % 16);
      assert s[0] == e[0] && s[1] == e[1] && s[2] == e[2] && s[3] == e[3];
    } else if |e| == 2 {
      assert s[0] == e[0] && s[1] == e[1];
    } else {
      assert s[0] == c;
    }
  }

  lemma EscapeInPieces(t: string, rest: string)
    requires IsBytes(t) && t != ""
    ensures var e, s' := EscapeChar(t[0]), Escape(t[1..]) + "\"" + rest;
            Escape(t) + "\"" + rest == e + s' && (e + s')[|e|..] == s'
  {
  }

  lemma ReadOn(s: string, mode: Mode, text: string, skip: nat, add: string, next: Mode)
    requires TakeTurn(s, mode) == Go(skip, add, next)
    ensures ReadToken(s, mode, text) == ReadToken(s[skip..], next, text + add)
  {
  }

  lemma ClosingQuote(text: string, rest: string)
    requires rest == "" || rest[0] == ' '
    ensures ReadToken("\"" + rest, InQuotes, text) == Some(Token(text, rest))
  {
    assert ("\"" + rest)[1..] == rest;
  }

  lemma EscapedStep(t: string, text: string, rest: string)
    requires IsBytes(t) && t != ""
    ensures ReadToken(Escape(t) + "\"" + rest, InQuotes, text)
         == ReadToken(Escape(t[1..]) + "\"" + rest, InQuotes, text + [t[0]])
  {
    var e, s' := EscapeChar(t[0]), Escape(t[1..]) + "\"" + rest;
    EscapeInPieces(t, rest);
    EscapedByte(t[0], s');
    ReadOn(e + s', InQuotes, text, |e|, [t[0]], InQuotes);
  }

  /** Inside quotes, an escaped string up to its closing quote is read back as the string. */
  lemma {:induction false} EscapedString(t: string, text: string, rest: string)
    requires IsBytes(t) && (rest == "" || rest[0] == ' ')
    ensures ReadToken(Escape(t) + "\"" + rest, InQuotes, text) == Some(Token(text + t, rest))
    decreases |t|
  {
    if t == "" {
      ClosingQuote(text, rest);
      NothingEscaped(text, rest);
    } else {
      EscapedStep(t, text, rest);
      TextGrows(text, t);
      EscapedString(t[1..], text + [t[0]], rest);
    }
  }

  lemma NothingEscaped(text: string, rest: string)
    ensures Escape("") + "\"" + rest == "\"" + rest && text + "" == text
  {
  }

  lemma TextGrows(text: string, t: string)
    requires t != ""
    ensures (text + [t[0]]) + t[1..] == text + t
  {
  }

  lemma OpeningQuote(s: string)
    requires s != "" && s[0] == '\"'
    ensures ReadToken(s, Bare, "") == ReadToken(s[1..], InQuotes, "")
  {
    assert "" + "" == "";
    ReadOn(s, Bare, "", 1, "", InQuotes);
  }

  lemma QuotedToken(t: string, rest: string)
    requires IsBytes(t) && (rest == "" || rest[0] == ' ')
    ensures ReadToken(Repr(t) + rest, Bare, "") == Some(Token(t, rest))
  {
    ReprStarts(t, rest);
    OpeningQuote(Repr(t) + rest);
    EscapedString(t, "", rest);
    assert "" + t == t;
  }

  lemma ReprStarts(t: string, rest: string)
    requires IsBytes(t)
    ensures var s := Repr(t) + rest; s != "" && s[0] == '\"' && s[1..] == Escape(t) + "\"" + rest
  {
  }

  /** Quoted strings, separated by single spaces. */
  function QuotedLine(args: seq<string>): string
    requires forall i | 0 <= i < |args| :: IsBytes(args[i])
  {
    if args == [] then ""
    else if |args| == 1 then Repr(args[0])
    else Repr(args[0]) + " " + QuotedLine(args[1..])
  }

  lemma BlankInFront(s: string)
    ensures SplitArgs(" " + s) == SplitArgs(s)
  {
    assert (" " + s)[1..] == s;
  }

  /** A quoted string in front is the first argument. */
  lemma FirstArgument(t: string, tail: string, more: seq<string>)
    requires IsBytes(t) && (tail == "" || tail[0] == ' ') && SplitArgs(tail) == Some(more)
    ensures SplitArgs(Repr(t) + tail) == Some([t] + more)
  {
    var line := Repr(t) + tail;
    assert line[0] == '\"' && SkipBlanks(line) == line;
    QuotedToken(t, tail);
  }

  /** Splitting a line of quoted strings gives back exactly the strings. */
  lemma {:induction false} QuotingRoundTrip(args: seq<string>)
    requires forall i | 0 <= i < |args| :: IsBytes(args[i])
    ensures SplitArgs(QuotedLine(args)) == Some(args)
    decreases |args|
  {
    if args != [] {
      QuotingRoundTrip(args[1..]);
      assert args == [args[0]] + args[1..];
      if |args| == 1 {
        FirstArgument(args[0], "", args[1..]);
        assert Repr(args[0]) + "" == Repr(args[0]);
      } else {
        var rest := QuotedLine(args[1..]);
        BlankInFront(rest);
        FirstArgument(args[0], " " + rest, args[1..]);
        assert Repr(args[0]) + (" " + rest) == Repr(args[0]) + " " + rest;
      }
    }
  }

  /** One quoted string is one argument. */
  lemma ReprRoundTrip(s: string)
    requires IsBytes(s)
    ensures SplitArgs(Repr(s)) == Some([s])
  {
    QuotingRoundTrip([s]);
  }
}
