/**
  The lines `sdssplitargs` takes, by their grammar: arguments with blanks
  between them, each written bare, in double or in single quotes, or bare up to
  a quoted end. Every line is either such a line or broken at a quote, and the
  splitter answers with the arguments of the one and refuses the other.
  */
module SdsLines {
  import Decimal
  import opened Wrappers
  import opened SdsQuoting

  // ---- The grammar ----------------------------------------------------------------------------

  /** Inside double quotes: `\xff`, a backslash and a character, or any other character. */
  datatype DoubleChar = Hex(byte: nat, upperHigh: bool, upperLow: bool) | Escaped(c: char) | Inner(c: char)

  /** Inside single quotes: `\'` or any other character. */
  datatype SingleChar = Apostrophe | Raw(c: char)

  datatype Quotes = NoQuotes | DoubleQuoted(double: seq<DoubleChar>) | SingleQuoted(single: seq<SingleChar>)

  /** An argument: bare characters and, at its end, perhaps a quoted part. */
  datatype Arg = Arg(bare: string, quotes: Quotes)

  /** A quote that is never closed, or that is closed in front of something other than a blank. */
  datatype Fault =
    | OpenDouble(double: seq<DoubleChar>, tail: string)
    | OpenSingle(single: seq<SingleChar>, tail: string)
    | DoubleRunsOn(double: seq<DoubleChar>, tail: string)
    | SingleRunsOn(single: seq<SingleChar>, tail: string)

  /** A line ends behind its last blanks or at a NUL. */
  datatype Line =
    | End(blank: string, cut: string)
    | More(blank: string, arg: Arg, line: Line)
    | Broken(blank: string, bare: string, fault: Fault)

  const ESCAPES: map<char, char> := map['n' := '\n', 'r' := '\r', 't' := '\t', 'b' := 8 as char, 'a' := 7 as char]

  function Digit(n: nat, upper: bool): char
    requires n < 16
  {
    if upper then "0123456789ABCDEF"[n] else "0123456789abcdef"[n]
  }

  function DoubleText(c: DoubleChar): string {
    match c
    case Hex(byte, u, v) => ['\\', 'x', Digit(byte / 16 % 16, u), Digit(byte % 16, v)]
    case Escaped(c) => ['\\', c]
    case Inner(c) => [c]
  }

  function DoubleMeans(c: DoubleChar): char {
    match c
    case Hex(byte, _, _) => (byte % 256) as char
    case Escaped(c) => if c in ESCAPES then ESCAPES[c] else c
    case Inner(c) => c
  }

  function AllDouble(s: seq<DoubleChar>): string {
    if s == [] then "" else DoubleText(s[0]) + AllDouble(s[1..])
  }

  function DoublesMean(s: seq<DoubleChar>): string {
    if s == [] then "" else [DoubleMeans(s[0])] + DoublesMean(s[1..])
  }

  predicate StartsHex(s: string) {
    IsHexDigit(Peek(s, 0)) && IsHexDigit(Peek(s, 1))
  }

  /** `behind` is the text behind `s`: an escaped `x` in front of two hexadecimal digits would be another character. */
  predicate DoublesOk(s: seq<DoubleChar>, behind: string) {
    s == [] ||
    (&& DoublesOk(s[1..], behind)
     && match s[0]
        case Hex(byte, _, _) => byte < 256
        case Escaped(c) => c != '\0' && !(c == 'x' && StartsHex(AllDouble(s[1..]) + behind))
        case Inner(c) => c != '\0' && c != '\"' && c != '\\')
  }

  function SingleText(c: SingleChar): string {
    if c.Apostrophe? then "\\'" else [c.c]
  }

  function SingleMeans(c: SingleChar): char {
    if c.Apostrophe? then '\'' else c.c
  }

  function AllSingle(s: seq<SingleChar>): string {
    if s == [] then "" else SingleText(s[0]) + AllSingle(s[1..])
  }

  function SinglesMean(s: seq<SingleChar>): string {
    if s == [] then "" else [SingleMeans(s[0])] + SinglesMean(s[1..])
  }

  /** A backslash in front of a quote would be another character. */
  predicate SinglesOk(s: seq<SingleChar>, behind: string) {
    s == [] ||
    (&& SinglesOk(s[1..], behind)
     && (s[0].Raw? ==>
           && s[0].c != '\0' && s[0].c != '\''
           && !(s[0].c == '\\' && Peek(AllSingle(s[1..]) + behind, 0) == '\'')))
  }

  /** The blanks that end a bare argument; `isspace` knows two more. */
  predicate EndsBare(c: char) {
    c == ' ' || c == '\n' || c == '\r' || c == '\t'
  }

  predicate BareChar(c: char) {
    !EndsBare(c) && c != '\0' && c != '\"' && c != '\''
  }

  predicate BareOk(s: string) {
    (forall i | 0 <= i < |s| :: BareChar(s[i])) && (s != "" ==> !Decimal.IsSpace(s[0]))
  }

  predicate BlankText(s: string) {
    forall i | 0 <= i < |s| :: Decimal.IsSpace(s[i])
  }

  function QuotesText(q: Quotes): string {
    match q
    case NoQuotes => ""
    case DoubleQuoted(s) => "\"" + (AllDouble(s) + "\"")
    case SingleQuoted(s) => "'" + (AllSingle(s) + "'")
  }

  function QuotesMean(q: Quotes): string {
    match q
    case NoQuotes => ""
    case DoubleQuoted(s) => DoublesMean(s)
    case SingleQuoted(s) => SinglesMean(s)
  }

  function ArgMeans(a: Arg): string {
    a.bare + QuotesMean(a.quotes)
  }

  predicate ArgOk(a: Arg) {
    && BareOk(a.bare)
    && match a.quotes
       case NoQuotes => a.bare != ""
       case DoubleQuoted(s) => DoublesOk(s, "\"")
       case SingleQuoted(s) => SinglesOk(s, "'")
  }

  /** What may follow an argument. */
  predicate MayFollow(q: Quotes, more: string) {
    Peek(more, 0) == '\0' || if q.NoQuotes? then EndsBare(more[0]) else Decimal.IsSpace(more[0])
  }

  function FaultText(f: Fault): string {
    match f
    case OpenDouble(s, tail) => "\"" + (AllDouble(s) + tail)
    case OpenSingle(s, tail) => "'" + (AllSingle(s) + tail)
    case DoubleRunsOn(s, tail) => "\"" + (AllDouble(s) + ("\"" + tail))
    case SingleRunsOn(s, tail) => "'" + (AllSingle(s) + ("'" + tail))
  }

  predicate RunsOn(tail: string) {
    Peek(tail, 0) != '\0' && !Decimal.IsSpace(Peek(tail, 0))
  }

  predicate FaultOk(f: Fault) {
    match f
    case OpenDouble(s, tail) =>
      DoublesOk(s, tail) && (Peek(tail, 0) == '\0' || (tail[0] == '\\' && Peek(tail, 1) == '\0'))
    case OpenSingle(s, tail) => SinglesOk(s, tail) && Peek(tail, 0) == '\0'
    case DoubleRunsOn(s, tail) => DoublesOk(s, "\"") && RunsOn(tail)
    case SingleRunsOn(s, tail) => SinglesOk(s, "'") && RunsOn(tail)
  }

  function LineText(l: Line): string {
    match l
    case End(blank, cut) => blank + cut
    case More(blank, arg, line) => blank + (arg.bare + (QuotesText(arg.quotes) + LineText(line)))
    case Broken(blank, bare, fault) => blank + (bare + FaultText(fault))
  }

  predicate LineOk(l: Line) {
    && BlankText(l.blank)
    && match l
       case End(_, cut) => cut == "" || cut[0] == '\0'
       case More(_, arg, line) => ArgOk(arg) && MayFollow(arg.quotes, LineText(line)) && LineOk(line)
       case Broken(_, bare, fault) => BareOk(bare) && FaultOk(fault)
  }

  /** The arguments of a line, or none when it is broken. */
  function Answer(l: Line): Option<seq<string>> {
    match l
    case End(_, _) => Some([])
    case More(_, arg, line) =>
      (match Answer(line)
       case None => None
       case Some(more) => Some([ArgMeans(arg)] + more))
    case Broken(_, _, _) => None
  }

  predicate IsBroken(l: Line) {
    l.Broken? || (l.More? && IsBroken(l.line))
  }

  lemma {:induction false} AnswerIff(l: Line)
    ensures Answer(l).None? <==> IsBroken(l)
  {
    if l.More? { AnswerIff(l.line); }
  }

  // ---- Reading the pieces ----------------------------------------------------------------------

  lemma {:induction false} BareIsRead(bare: string, rest: string, text: string)
    requires forall i | 0 <= i < |bare| :: BareChar(bare[i])
    ensures ReadToken(bare + rest, Bare, text) == ReadToken(rest, Bare, text + bare)
    decreases |bare|
  {
    if bare == "" {
      assert bare + rest == rest && text + bare == text;
    } else {
      var s := bare + rest;
      assert s[1..] == bare[1..] + rest && s[0] == bare[0];
      ReadOn(s, Bare, text, 1, [bare[0]], Bare);
      BareIsRead(bare[1..], rest, text + [bare[0]]);
      assert (text + [bare[0]]) + bare[1..] == text + bare;
    }
  }

  lemma DigitIsHex(n: nat, upper: bool)
    requires n < 16
    ensures IsHexDigit(Digit(n, upper)) && HexValue(Digit(n, upper)) == n
  {
  }

  lemma HexDigitIsDigit(c: char) returns (n: nat, upper: bool)
    requires IsHexDigit(c)
    ensures n < 16 && Digit(n, upper) == c
  {
    n := HexValue(c);
    upper := 'A' <= c <= 'F';
  }

  lemma HexIsRead(byte: nat, u: bool, v: bool, rest: string)
    requires byte < 256
    ensures QuotedTurn(DoubleText(Hex(byte, u, v)) + rest) == Go(4, [byte as char], InQuotes)
  {
    hide Digit, HexValue;
    DigitIsHex(byte / 16, u);
    DigitIsHex(byte % 16, v);
    var s := DoubleText(Hex(byte, u, v)) + rest;
    assert s[0] == '\\' && s[1] == 'x' && s[2] == Digit(byte / 16, u) && s[3] == Digit(byte % 16, v);
  }

  lemma UnescapeIs(c: char)
    ensures Unescape(c) == if c in ESCAPES then ESCAPES[c] else c
  {
  }

  lemma EscapedIsRead(c: char, rest: string)
    requires c != '\0' && !(c == 'x' && StartsHex(rest))
    ensures QuotedTurn(DoubleText(Escaped(c)) + rest) == Go(2, [DoubleMeans(Escaped(c))], InQuotes)
  {
    hide Unescape, ESCAPES;
    var s := DoubleText(Escaped(c)) + rest;
    assert s[0] == '\\' && s[1] == c;
    assert Peek(s, 2) == Peek(rest, 0) && Peek(s, 3) == Peek(rest, 1);
    UnescapeIs(c);
  }

  lemma InnerIsRead(c: char, rest: string)
    requires c != '\0' && c != '\"' && c != '\\'
    ensures QuotedTurn(DoubleText(Inner(c)) + rest) == Go(1, [c], InQuotes)
  {
    assert (DoubleText(Inner(c)) + rest)[0] == c;
  }

  lemma DoubleIsRead(s: seq<DoubleChar>, rest: string, text: string)
    requires s != [] && DoublesOk(s, rest)
    ensures ReadToken(DoubleText(s[0]) + (AllDouble(s[1..]) + rest), InQuotes, text)
         == ReadToken(AllDouble(s[1..]) + rest, InQuotes, text + [DoubleMeans(s[0])])
  {
    hide QuotedTurn;
    var more := AllDouble(s[1..]) + rest;
    match s[0] {
      case Hex(byte, u, v) => HexIsRead(byte, u, v, more);
      case Escaped(c) => EscapedIsRead(c, more);
      case Inner(c) => InnerIsRead(c, more);
    }
    var d := DoubleText(s[0]);
    assert (d + more)[|d|..] == more;
    ReadOn(d + more, InQuotes, text, |d|, [DoubleMeans(s[0])], InQuotes);
  }

  lemma {:induction false} DoublesAreRead(s: seq<DoubleChar>, rest: string, text: string)
    requires DoublesOk(s, rest)
    ensures ReadToken(AllDouble(s) + rest, InQuotes, text) == ReadToken(rest, InQuotes, text + DoublesMean(s))
    decreases |s|
  {
    hide ReadToken;
    if s == [] {
      assert AllDouble(s) + rest == rest && text + DoublesMean(s) == text;
    } else {
      DoubleIsRead(s, rest, text);
      Grouped(DoubleText(s[0]), AllDouble(s[1..]), rest);
      DoublesAreRead(s[1..], rest, text + [DoubleMeans(s[0])]);
      Grouped(text, [DoubleMeans(s[0])], DoublesMean(s[1..]));
    }
  }

  lemma Grouped(a: string, b: string, c: string)
    ensures (a + b) + c == a + (b + c)
  {
  }

  lemma SingleIsRead(s: seq<SingleChar>, rest: string, text: string)
    requires s != [] && SinglesOk(s, rest)
    ensures ReadToken(SingleText(s[0]) + (AllSingle(s[1..]) + rest), InSingleQuotes, text)
         == ReadToken(AllSingle(s[1..]) + rest, InSingleQuotes, text + [SingleMeans(s[0])])
  {
    var more, d := AllSingle(s[1..]) + rest, SingleText(s[0]);
    var t := d + more;
    assert t[|d|..] == more;
    if s[0].Apostrophe? {
      assert t[0] == '\\' && t[1] == '\'';
    } else {
      assert t[0] == s[0].c && Peek(t, 1) == Peek(more, 0);
    }
    ReadOn(t, InSingleQuotes, text, |d|, [SingleMeans(s[0])], InSingleQuotes);
  }

  lemma {:induction false} SinglesAreRead(s: seq<SingleChar>, rest: string, text: string)
    requires SinglesOk(s, rest)
    ensures ReadToken(AllSingle(s) + rest, InSingleQuotes, text) == ReadToken(rest, InSingleQuotes, text + SinglesMean(s))
    decreases |s|
  {
    hide ReadToken;
    if s == [] {
      assert AllSingle(s) + rest == rest && text + SinglesMean(s) == text;
    } else {
      SingleIsRead(s, rest, text);
      Grouped(SingleText(s[0]), AllSingle(s[1..]), rest);
      SinglesAreRead(s[1..], rest, text + [SingleMeans(s[0])]);
      Grouped(text, [SingleMeans(s[0])], SinglesMean(s[1..]));
    }
  }

  lemma OpensDouble(rest: string, text: string)
    ensures ReadToken("\"" + rest, Bare, text) == ReadToken(rest, InQuotes, text)
  {
    assert ("\"" + rest)[1..] == rest && text + "" == text;
  }

  lemma OpensSingle(rest: string, text: string)
    ensures ReadToken("'" + rest, Bare, text) == ReadToken(rest, InSingleQuotes, text)
  {
    assert ("'" + rest)[1..] == rest && text + "" == text;
  }

  lemma ClosesDouble(more: string, text: string)
    ensures ReadToken("\"" + more, InQuotes, text) == if RunsOn(more) then None else Some(Token(text, more))
  {
    assert ("\"" + more)[1..] == more && Peek("\"" + more, 1) == Peek(more, 0);
  }

  lemma ClosesSingle(more: string, text: string)
    ensures ReadToken("'" + more, InSingleQuotes, text) == if RunsOn(more) then None else Some(Token(text, more))
  {
    assert ("'" + more)[1..] == more && Peek("'" + more, 1) == Peek(more, 0);
  }

  lemma NeverCloses(tail: string, text: string)
    ensures Peek(tail, 0) == '\0' ==> ReadToken(tail, InSingleQuotes, text).None? && ReadToken(tail, InQuotes, text).None?
    ensures |tail| > 0 && tail[0] == '\\' && Peek(tail, 1) == '\0' ==> ReadToken(tail, InQuotes, text).None?
  {
    if |tail| > 0 && tail[0] == '\\' && Peek(tail, 1) == '\0' {
      assert Peek(tail[1..], 0) == '\0';
      assert ReadToken(tail[1..], InQuotes, text + ['\\']).None?;
    }
  }

  // ---- What may stand behind a piece -------------------------------------------------------------

  lemma {:induction false} DoublesBefore(s: seq<DoubleChar>, more: string)
    ensures DoublesOk(s, "\"") <==> DoublesOk(s, "\"" + more)
    decreases |s|
  {
    if s != [] {
      DoublesBefore(s[1..], more);
      SameStart(AllDouble(s[1..]), '\"', more);
    }
  }

  lemma SameStart(a: string, c: char, more: string)
    requires !IsHexDigit(c)
    ensures StartsHex(a + [c]) <==> StartsHex(a + ([c] + more))
    ensures Peek(a + [c], 0) == Peek(a + ([c] + more), 0)
  {
    if |a| == 0 {
      assert (a + ([c] + more))[0] == c;
    } else if |a| == 1 {
      assert (a + ([c] + more))[1] == c && (a + [c])[1] == c;
    }
  }

  lemma {:induction false} SinglesBefore(s: seq<SingleChar>, more: string)
    ensures SinglesOk(s, "'") <==> SinglesOk(s, "'" + more)
    decreases |s|
  {
    if s != [] {
      SinglesBefore(s[1..], more);
      SameStart(AllSingle(s[1..]), '\'', more);
    }
  }

  // ---- Reading an argument ---------------------------------------------------------------------------

  lemma DoubleQuotesAreRead(s: seq<DoubleChar>, more: string, text: string)
    requires DoublesOk(s, "\"") && !RunsOn(more)
    ensures ReadToken("\"" + (AllDouble(s) + ("\"" + more)), Bare, text) == Some(Token(text + DoublesMean(s), more))
  {
    hide ReadToken, DoublesOk, AllDouble, DoublesMean;
    OpensDouble(AllDouble(s) + ("\"" + more), text);
    DoublesBefore(s, more);
    DoublesAreRead(s, "\"" + more, text);
    ClosesDouble(more, text + DoublesMean(s));
  }

  lemma SingleQuotesAreRead(s: seq<SingleChar>, more: string, text: string)
    requires SinglesOk(s, "'") && !RunsOn(more)
    ensures ReadToken("'" + (AllSingle(s) + ("'" + more)), Bare, text) == Some(Token(text + SinglesMean(s), more))
  {
    hide ReadToken, SinglesOk, AllSingle, SinglesMean;
    OpensSingle(AllSingle(s) + ("'" + more), text);
    SinglesBefore(s, more);
    SinglesAreRead(s, "'" + more, text);
    ClosesSingle(more, text + SinglesMean(s));
  }

  lemma InQuotesThen(q: string, s: string, more: string)
    ensures (q + (s + q)) + more == q + (s + (q + more))
  {
  }

  lemma QuotesAreRead(q: Quotes, more: string, text: string)
    requires q.DoubleQuoted? ==> DoublesOk(q.double, "\"")
    requires q.SingleQuoted? ==> SinglesOk(q.single, "'")
    requires !q.NoQuotes? && MayFollow(q, more)
    ensures ReadToken(QuotesText(q) + more, Bare, text) == Some(Token(text + QuotesMean(q), more))
  {
    hide ReadToken, DoublesOk, SinglesOk, AllDouble, AllSingle;
    match q
    case DoubleQuoted(s) =>
      InQuotesThen("\"", AllDouble(s), more);
      DoubleQuotesAreRead(s, more, text);
    case SingleQuoted(s) =>
      InQuotesThen("'", AllSingle(s), more);
      SingleQuotesAreRead(s, more, text);
  }

  lemma BareEnds(more: string, text: string)
    ensures Peek(more, 0) == '\0' ==> ReadToken(more, Bare, text) == Some(Token(text, more))
    ensures |more| > 0 && EndsBare(more[0]) ==> ReadToken(more, Bare, text) == Some(Token(text, more[1..]))
  {
    assert more[0..] == more;
  }

  /** What is left of the line behind an argument: a bare one takes the blank that ends it along. */
  function Behind(q: Quotes, more: string): string {
    if q.NoQuotes? && Peek(more, 0) != '\0' then more[1..] else more
  }

  lemma ArgIsRead(a: Arg, more: string)
    requires ArgOk(a) && MayFollow(a.quotes, more)
    ensures ReadToken(a.bare + (QuotesText(a.quotes) + more), Bare, "") == Some(Token(ArgMeans(a), Behind(a.quotes, more)))
  {
    hide ReadToken, DoublesOk, SinglesOk;
    BareIsRead(a.bare, QuotesText(a.quotes) + more, "");
    assert "" + a.bare == a.bare;
    if a.quotes.NoQuotes? {
      assert QuotesText(a.quotes) + more == more;
      BareEnds(more, a.bare);
      assert a.bare + "" == a.bare;
    } else {
      QuotesAreRead(a.quotes, more, a.bare);
    }
  }

  lemma FaultIsRefused(bare: string, f: Fault)
    requires BareOk(bare) && FaultOk(f)
    ensures ReadToken(bare + FaultText(f), Bare, "").None?
  {
    hide ReadToken, DoublesOk, SinglesOk;
    BareIsRead(bare, FaultText(f), "");
    var text := "" + bare;
    match f
    case OpenDouble(s, tail) =>
      OpensDouble(AllDouble(s) + tail, text);
      DoublesAreRead(s, tail, text);
      NeverCloses(tail, text + DoublesMean(s));
    case OpenSingle(s, tail) =>
      OpensSingle(AllSingle(s) + tail, text);
      SinglesAreRead(s, tail, text);
      NeverCloses(tail, text + SinglesMean(s));
    case DoubleRunsOn(s, tail) =>
      OpensDouble(AllDouble(s) + ("\"" + tail), text);
      DoublesBefore(s, tail);
      DoublesAreRead(s, "\"" + tail, text);
      ClosesDouble(tail, text + DoublesMean(s));
    case SingleRunsOn(s, tail) =>
      OpensSingle(AllSingle(s) + ("'" + tail), text);
      SinglesBefore(s, tail);
      SinglesAreRead(s, "'" + tail, text);
      ClosesSingle(tail, text + SinglesMean(s));
  }

  // ---- Whole lines --------------------------------------------------------------------------------------

  lemma {:induction false} BlanksAreSkipped(blank: string, s: string)
    requires BlankText(blank) && (s == "" || !Decimal.IsSpace(s[0]))
    ensures SkipBlanks(blank + s) == s
    decreases |blank|
  {
    if blank == "" {
      assert blank + s == s;
    } else {
      assert (blank + s)[1..] == blank[1..] + s;
      BlanksAreSkipped(blank[1..], s);
    }
  }

  lemma SplitSkips(line: string)
    requires line != "" && Decimal.IsSpace(line[0])
    ensures SplitArgs(line[1..]) == SplitArgs(line)
  {
  }

  lemma ArgStarts(a: Arg, more: string)
    requires ArgOk(a)
    ensures var s := a.bare + (QuotesText(a.quotes) + more); s != "" && !Decimal.IsSpace(s[0]) && Peek(s, 0) != '\0'
  {
    var s := a.bare + (QuotesText(a.quotes) + more);
    if a.bare == "" { assert s == QuotesText(a.quotes) + more; }
  }

  lemma FaultOpens(f: Fault)
    ensures FaultText(f) != "" && (FaultText(f)[0] == '\"' || FaultText(f)[0] == '\'')
  {
    hide AllDouble, AllSingle;
  }

  lemma FaultStarts(bare: string, f: Fault)
    requires BareOk(bare)
    ensures var s := bare + FaultText(f); s != "" && !Decimal.IsSpace(s[0]) && Peek(s, 0) != '\0'
  {
    hide FaultText;
    FaultOpens(f);
    var s := bare + FaultText(f);
    if bare == "" { assert s == FaultText(f); }
  }

  lemma OneArg(blank: string, s: string, text: string, rest: string, more: Option<seq<string>>)
    requires BlankText(blank) && s != "" && !Decimal.IsSpace(s[0]) && Peek(s, 0) != '\0'
    requires ReadToken(s, Bare, "") == Some(Token(text, rest)) && SplitArgs(rest) == more
    ensures SplitArgs(blank + s) == if more.None? then None else Some([text] + more.value)
  {
    hide ReadToken;
    BlanksAreSkipped(blank, s);
  }

  lemma NoArg(blank: string, s: string)
    requires BlankText(blank) && (s == "" || !Decimal.IsSpace(s[0]))
    ensures Peek(s, 0) == '\0' ==> SplitArgs(blank + s) == Some([])
    ensures Peek(s, 0) != '\0' && ReadToken(s, Bare, "").None? ==> SplitArgs(blank + s).None?
  {
    hide ReadToken;
    BlanksAreSkipped(blank, s);
  }

  /** The splitter answers with the arguments of a line, however they are written, and refuses a broken line. */
  lemma {:induction false} SplitIs(l: Line)
    requires LineOk(l)
    ensures SplitArgs(LineText(l)) == Answer(l)
    decreases l
  {
    hide SplitArgs, ReadToken, ArgOk, FaultOk;
    match l
    case End(blank, cut) => NoArg(blank, cut);
    case More(blank, arg, line) =>
      var more := LineText(line);
      SplitIs(line);
      ArgIsRead(arg, more);
      ArgStarts(arg, more);
      if arg.quotes.NoQuotes? && Peek(more, 0) != '\0' { SplitSkips(more); }
      OneArg(blank, arg.bare + (QuotesText(arg.quotes) + more), ArgMeans(arg), Behind(arg.quotes, more), Answer(line));
    case Broken(blank, bare, fault) =>
      FaultIsRefused(bare, fault);
      FaultStarts(bare, fault);
      NoArg(blank, bare + FaultText(fault));
  }

  // ---- Every line is one of these --------------------------------------------------------------------------

  lemma NoBlank()
    ensures BlankText("")
  {
  }

  lemma LongerBlank(c: char, blank: string)
    requires Decimal.IsSpace(c) && BlankText(blank)
    ensures BlankText([c] + blank)
  {
  }

  lemma {:induction false} BlankPrefix(line: string) returns (blank: string)
    ensures BlankText(blank) && line == blank + SkipBlanks(line)
    decreases |line|
  {
    hide BlankText, Decimal.IsSpace;
    if line != "" && Decimal.IsSpace(line[0]) {
      var more := BlankPrefix(line[1..]);
      blank := [line[0]] + more;
      LongerBlank(line[0], more);
      assert line == [line[0]] + line[1..];
    } else {
      blank := "";
      NoBlank();
      assert line == "" + line;
    }
  }

  lemma {:induction false} BarePrefix(s: string) returns (bare: string, rest: string)
    ensures s == bare + rest && (forall i | 0 <= i < |bare| :: BareChar(bare[i]))
    ensures rest == "" || !BareChar(rest[0])
    decreases |s|
  {
    if s != "" && BareChar(s[0]) {
      var b, r := BarePrefix(s[1..]);
      bare, rest := [s[0]] + b, r;
      assert s == [s[0]] + s[1..];
    } else {
      bare, rest := "", s;
    }
  }

  predicate DoubleStops(tail: string) {
    Peek(tail, 0) == '\0' || Peek(tail, 0) == '\"' || (Peek(tail, 0) == '\\' && Peek(tail, 1) == '\0')
  }

  lemma {:induction false} DoublePrefix(s: string) returns (d: seq<DoubleChar>, tail: string)
    ensures s == AllDouble(d) + tail && DoublesOk(d, tail) && DoubleStops(tail)
    decreases |s|
  {
    if DoubleStops(s) {
      d, tail := [], s;
    } else {
      var first, rest := FirstDouble(s);
      var more, t := DoublePrefix(rest);
      d, tail := [first] + more, t;
      assert d[1..] == more;
      Grouped(DoubleText(first), AllDouble(more), tail);
    }
  }

  lemma FirstHex(s: string) returns (first: DoubleChar)
    requires IsHexEscape(s)
    ensures first.Hex? && first.byte < 256 && |s| >= 4 && DoubleText(first) == s[..4] && s == s[..4] + s[4..]
  {
    hide Digit, HexValue;
    var m, u := HexDigitIsDigit(s[2]);
    var n, v := HexDigitIsDigit(s[3]);
    first := Hex(16 * m + n, u, v);
    TwoDigits(m, n);
    assert s[..4] == ['\\', 'x', s[2], s[3]];
  }

  lemma TwoDigits(m: nat, n: nat)
    requires m < 16 && n < 16
    ensures (16 * m + n) / 16 % 16 == m && (16 * m + n) % 16 == n && 16 * m + n < 256
  {
  }

  lemma FirstDouble(s: string) returns (first: DoubleChar, rest: string)
    requires !DoubleStops(s)
    ensures s == DoubleText(first) + rest && |rest| < |s|
    ensures match first
            case Hex(byte, _, _) => byte < 256
            case Escaped(c) => c != '\0' && !(c == 'x' && StartsHex(rest))
            case Inner(c) => c != '\0' && c != '\"' && c != '\\'
  {
    hide Digit;
    if s[0] != '\\' {
      first, rest := Inner(s[0]), s[1..];
    } else if IsHexEscape(s) {
      first := FirstHex(s);
      rest := s[4..];
    } else {
      first, rest := Escaped(s[1]), s[2..];
      assert Peek(rest, 0) == Peek(s, 2) && Peek(rest, 1) == Peek(s, 3);
    }
  }

  lemma {:induction false} SinglePrefix(s: string) returns (d: seq<SingleChar>, tail: string)
    ensures s == AllSingle(d) + tail && SinglesOk(d, tail) && (Peek(tail, 0) == '\0' || tail[0] == '\'')
    decreases |s|
  {
    if Peek(s, 0) == '\0' || s[0] == '\'' {
      d, tail := [], s;
    } else {
      var first, rest := Raw(s[0]), s[1..];
      if s[0] == '\\' && Peek(s, 1) == '\'' { first, rest := Apostrophe, s[2..]; }
      assert s == SingleText(first) + rest;
      var more, t := SinglePrefix(rest);
      d, tail := [first] + more, t;
      assert d[1..] == more;
      Grouped(SingleText(first), AllSingle(more), tail);
    }
  }

  /** A quoted part, or a fault, behind bare characters. */
  lemma QuotePrefix(rest: string) returns (q: Quotes, more: string, f: Fault)
    requires rest != "" && (rest[0] == '\"' || rest[0] == '\'')
    ensures q.NoQuotes? ==> FaultOk(f) && rest == FaultText(f)
    ensures !q.NoQuotes? ==> rest == QuotesText(q) + more && MayFollow(q, more)
    ensures q.DoubleQuoted? ==> DoublesOk(q.double, "\"")
    ensures q.SingleQuoted? ==> SinglesOk(q.single, "'")
  {
    q, more, f := NoQuotes, "", OpenSingle([], "");
    if rest[0] == '\"' {
      var d, tail := DoublePrefix(rest[1..]);
      assert rest == "\"" + (AllDouble(d) + tail);
      if Peek(tail, 0) == '\"' {
        more := tail[1..];
        assert tail == "\"" + more;
        DoublesBefore(d, more);
        if RunsOn(more) {
          f := DoubleRunsOn(d, more);
        } else {
          q := DoubleQuoted(d);
          assert rest == ("\"" + (AllDouble(d) + "\"")) + more;
        }
      } else {
        f := OpenDouble(d, tail);
      }
    } else {
      var d, tail := SinglePrefix(rest[1..]);
      assert rest == "'" + (AllSingle(d) + tail);
      if Peek(tail, 0) == '\'' {
        more := tail[1..];
        assert tail == "'" + more;
        SinglesBefore(d, more);
        if RunsOn(more) {
          f := SingleRunsOn(d, more);
        } else {
          q := SingleQuoted(d);
          assert rest == ("'" + (AllSingle(d) + "'")) + more;
        }
      } else {
        f := OpenSingle(d, tail);
      }
    }
  }

  /** Every string is the text of a line or of a broken line. */
  lemma {:induction false} EveryLine(line: string) returns (l: Line)
    ensures LineOk(l) && LineText(l) == line
    decreases |line|
  {
    hide DoublesOk, SinglesOk, SkipBlanks, AllDouble, AllSingle;
    var blank := BlankPrefix(line);
    var s := SkipBlanks(line);
    if Peek(s, 0) == '\0' {
      l := End(blank, s);
    } else {
      var bare, rest := BarePrefix(s);
      if rest != "" && (rest[0] == '\"' || rest[0] == '\'') {
        var q, more, f := QuotePrefix(rest);
        if q.NoQuotes? {
          l := Broken(blank, bare, f);
        } else {
          QuotesAreLong(q);
          var tail := EveryLine(more);
          l := More(blank, Arg(bare, q), tail);
        }
      } else {
        var tail := EveryLine(rest);
        l := More(blank, Arg(bare, NoQuotes), tail);
        assert QuotesText(NoQuotes) + rest == rest;
      }
    }
  }

  lemma QuotesAreLong(q: Quotes)
    ensures !q.NoQuotes? ==> |QuotesText(q)| >= 2
  {
  }

  /** A line is refused if and only if it is broken at a quote, and otherwise its arguments are the answer. */
  lemma SplitIff(line: string) returns (l: Line)
    ensures LineOk(l) && LineText(l) == line
    ensures SplitArgs(line).None? <==> IsBroken(l)
    ensures SplitArgs(line) == Answer(l)
  {
    hide SplitArgs;
    l := EveryLine(line);
    SplitIs(l);
    AnswerIff(l);
  }

  // ---- Writing lists ------------------------------------------------------------------------------------------

  datatype Style = AsBare | AsSingle | AsRepr

  /** An argument, how it is written, and the blanks in front of it. */
  datatype Item = Item(blank: string, text: string, style: Style)

  /** What each style can write. */
  predicate Writable(i: Item) {
    match i.style
    case AsBare => i.text != "" && BareOk(i.text)
    case AsSingle => '\0' !in i.text && (i.text != "" ==> i.text[|i.text| - 1] != '\\')
    case AsRepr => IsBytes(i.text)
  }

  function SinglesOf(s: string): seq<SingleChar> {
    if s == "" then [] else [if s[0] == '\'' then Apostrophe else Raw(s[0])] + SinglesOf(s[1..])
  }

  function DoubleOf(c: char): DoubleChar
    requires c as int < 256
  {
    if |EscapeChar(c)| == 1 then Inner(c)
    else if |EscapeChar(c)| == 2 then Escaped(EscapeChar(c)[1])
    else Hex(c as nat, false, false)
  }

  function DoublesOf(s: string): seq<DoubleChar>
    requires IsBytes(s)
  {
    if s == "" then [] else [DoubleOf(s[0])] + DoublesOf(s[1..])
  }

  function ArgOf(i: Item): Arg
    requires Writable(i)
  {
    match i.style
    case AsBare => Arg(i.text, NoQuotes)
    case AsSingle => Arg("", SingleQuoted(SinglesOf(i.text)))
    case AsRepr => Arg("", DoubleQuoted(DoublesOf(i.text)))
  }

  lemma {:induction false} SinglesOfMean(s: string)
    requires '\0' !in s && (s != "" ==> s[|s| - 1] != '\\')
    ensures SinglesOk(SinglesOf(s), "'") && SinglesMean(SinglesOf(s)) == s
    decreases |s|
  {
    if s != "" {
      var first, more := if s[0] == '\'' then Apostrophe else Raw(s[0]), SinglesOf(s[1..]);
      SinglesOfMean(s[1..]);
      assert ([first] + more)[1..] == more;
      assert s == [s[0]] + s[1..];
      if s[0] == '\\' { NoQuoteFirst(s[1..]); }
    }
  }

  lemma NoQuoteFirst(s: string)
    requires s != ""
    ensures Peek(AllSingle(SinglesOf(s)) + "'", 0) != '\''
  {
    var first, more := if s[0] == '\'' then Apostrophe else Raw(s[0]), SinglesOf(s[1..]);
    assert ([first] + more)[1..] == more;
  }

  lemma DoubleOfMeans(c: char)
    requires c as int < 256
    ensures DoubleText(DoubleOf(c)) == EscapeChar(c) && DoubleMeans(DoubleOf(c)) == c
    ensures match DoubleOf(c)
            case Hex(byte, _, _) => byte < 256
            case Escaped(c) => c != '\0' && c != 'x'
            case Inner(c) => c != '\0' && c != '\"' && c != '\\'
  {
    hide Digit, HexDigit, ESCAPES;
    if |EscapeChar(c)| == 4 {
      HexIsWritten(c as nat);
    } else if |EscapeChar(c)| == 2 {
      LetterIsWritten(c);
    }
  }

  lemma HexIsWritten(n: nat)
    requires n < 256
    ensures DoubleText(Hex(n, false, false)) == ['\\', 'x', HexDigit(n / 16), HexDigit(n % 16)] && n % 256 == n
  {
    hide Digit, HexDigit;
    DigitIsWritten(n / 16);
    DigitIsWritten(n % 16);
  }

  lemma LetterIsWritten(c: char)
    requires c as int < 256 && |EscapeChar(c)| == 2
    ensures var e := EscapeChar(c)[1]; e != '\0' && e != 'x' && (if e in ESCAPES then ESCAPES[e] else e) == c
    ensures EscapeChar(c) == ['\\', EscapeChar(c)[1]]
  {
  }

  lemma DigitIsWritten(n: nat)
    requires n < 16
    ensures Digit(n, false) == HexDigit(n)
  {
  }

  lemma {:induction false} DoublesOfMean(s: string)
    requires IsBytes(s)
    ensures DoublesOk(DoublesOf(s), "\"") && DoublesMean(DoublesOf(s)) == s && AllDouble(DoublesOf(s)) == Escape(s)
    decreases |s|
  {
    if s != "" {
      var first, more := DoubleOf(s[0]), DoublesOf(s[1..]);
      DoubleOfMeans(s[0]);
      DoublesOfMean(s[1..]);
      assert ([first] + more)[1..] == more;
      assert s == [s[0]] + s[1..];
    }
  }

  lemma ArgOfMeans(i: Item)
    requires Writable(i)
    ensures ArgOk(ArgOf(i)) && ArgMeans(ArgOf(i)) == i.text
    ensures i.style.AsRepr? ==> QuotesText(ArgOf(i).quotes) == Repr(i.text)
  {
    match i.style
    case AsBare => assert i.text + "" == i.text;
    case AsSingle => SinglesOfMean(i.text);
    case AsRepr =>
      DoublesOfMean(i.text);
      assert "\"" + (Escape(i.text) + "\"") == Repr(i.text);
  }

  function LineOf(items: seq<Item>, last: string): Line
    requires forall k | 0 <= k < |items| :: Writable(items[k])
  {
    if items == [] then End(last, "") else More(items[0].blank, ArgOf(items[0]), LineOf(items[1..], last))
  }

  function Texts(items: seq<Item>): seq<string> {
    if items == [] then [] else [items[0].text] + Texts(items[1..])
  }

  /** Blanks between any two arguments; those behind a bare one must start with one that ends it. */
  predicate Spaced(items: seq<Item>, last: string) {
    && BlankText(last)
    && (forall k | 0 <= k < |items| :: BlankText(items[k].blank))
    && (forall k | 0 < k < |items| :: items[k].blank != "" && EndsBare(items[k].blank[0]))
    && (last != "" ==> EndsBare(last[0]))
  }

  /** Any list of arguments, each in any style that can write it, splits into just that list. */
  lemma WrittenListSplits(items: seq<Item>, last: string)
    requires (forall k | 0 <= k < |items| :: Writable(items[k])) && Spaced(items, last)
    ensures LineOk(LineOf(items, last)) && SplitArgs(LineText(LineOf(items, last))) == Some(Texts(items))
  {
    hide SplitArgs, ArgOk;
    ListIsLine(items, last);
    SplitIs(LineOf(items, last));
  }

  lemma {:induction false} ListIsLine(items: seq<Item>, last: string)
    requires (forall k | 0 <= k < |items| :: Writable(items[k])) && Spaced(items, last)
    ensures LineOk(LineOf(items, last)) && Answer(LineOf(items, last)) == Some(Texts(items))
    decreases |items|
  {
    hide ArgOk;
    if items == [] {
      assert last + "" == last;
    } else {
      ArgOfMeans(items[0]);
      ListIsLine(items[1..], last);
      LineStarts(items[1..], last);
    }
  }

  lemma LineStarts(items: seq<Item>, last: string)
    requires forall k | 0 <= k < |items| :: Writable(items[k])
    ensures items == [] ==> LineText(LineOf(items, last)) == last
    ensures items != [] && items[0].blank != "" ==>
              LineText(LineOf(items, last)) != "" && LineText(LineOf(items, last))[0] == items[0].blank[0]
  {
  }
}
