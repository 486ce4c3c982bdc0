/**
  The reader accepts nothing else: whatever document it accepts starts with a
  text of the grammar, and the value it yields is what that text means.
  */
module JsonSoundness {
  import Decimal
  import opened JsonValue
  import opened JsonLexer
  import opened JsonReading
  import opened JsonSyntax
  import opened JsonConformance
  import opened JsonAcceptance
  import opened JsonErrors
  import opened Text
  import opened Wrappers

  // ---- Tokens and the text in front of them --------------------------------------------------------------

  lemma {:induction false} BlankPrefix(s: string) returns (b: string)
    ensures Blank(b) && s == b + SkipBlanks(s)
    decreases |s|
  {
    if s != "" && IsBlank(s[0]) {
      var more := BlankPrefix(s[1..]);
      b := [s[0]] + more;
      assert s == [s[0]] + s[1..];
    } else {
      b := "";
      assert s == "" + s;
    }
  }

  /** A token and its text at the start of `u`. */
  ghost predicate Starts(u: string, t: Token) {
    && t.text != "" && u == t.text + t.rest && !IsBlank(t.text[0])
    && Classify(t.text[0], t.text[1..] + t.rest) == (t.kind, t.rest)
  }

  lemma TokenStarts(u: string)
    requires u != "" && !IsBlank(u[0])
    ensures Starts(u, ReadToken(u))
  {
    hide Classify;
    var t := ReadToken(u);
    assert SkipBlanks(u) == u;
    ClassifiedIsPrefix(u[0], u[1..]);
    assert u[1..][|u[1..]| - |t.rest|..] == t.rest;
    assert u == u[..|u| - |t.rest|] + t.rest;
    assert t.text[1..] + t.rest == u[1..];
  }

  /** A token, the blanks in front of it and the text it starts. */
  lemma TokenSplits(s: string) returns (b: string, u: string)
    requires ReadToken(s).text != ""
    ensures s == b + u && Blank(b) && Starts(u, ReadToken(s))
  {
    hide Classify;
    b := BlankPrefix(s);
    u := SkipBlanks(s);
    assert SkipBlanks(u) == u;
    TokenStarts(u);
  }

  // ---- The text of each kind of token -----------------------------------------------------------------------

  lemma MarkText(u: string, t: Token)
    requires Starts(u, t)
    ensures t.kind == ObjectBegin ==> t.text == "{"
    ensures t.kind == ObjectEnd ==> t.text == "}"
    ensures t.kind == ArrayBegin ==> t.text == "["
    ensures t.kind == ArrayEnd ==> t.text == "]"
    ensures t.kind == Separator ==> t.text == ","
    ensures t.kind == Colon ==> t.text == ":"
  {
    hide AfterString, AfterComment, AfterNumber, AfterWord;
    var rest := t.text[1..];
    if rest + t.rest == t.rest { assert |rest| == 0; assert t.text == [t.text[0]]; }
  }

  lemma WordIs(rest: string, word: string, t: string)
    requires AfterWord(rest + t, word) == Stop(true, t)
    ensures rest == word
  {
    assert |rest + t| == |rest| + |t|;
    assert (rest + t)[..|word|] == word;
    assert rest == (rest + t)[..|rest|];
  }

  lemma WordTextIs(u: string, t: Token)
    requires Starts(u, t)
    ensures t.kind == TrueKind ==> t.text == "true"
    ensures t.kind == FalseKind ==> t.text == "false"
    ensures t.kind == NullKind ==> t.text == "null"
  {
    hide AfterString, AfterComment, AfterNumber, AfterWord;
    var rest := t.text[1..];
    assert t.text == [t.text[0]] + rest;
    if t.kind == TrueKind {
      WordIs(rest, "rue", t.rest);
    } else if t.kind == FalseKind {
      WordIs(rest, "alse", t.rest);
    } else if t.kind == NullKind {
      WordIs(rest, "ull", t.rest);
    }
  }

  lemma NothingIsClosed()
    ensures Closed("")
  {
  }

  lemma InFront(first: string, s: string, more: string, rest: string)
    requires first <= s && s[|first|..] == more + ("\"" + rest)
    ensures s == first + more + ("\"" + rest)
  {
    assert s == first + s[|first|..];
  }

  lemma {:induction false} StringBody(s: string) returns (body: string)
    requires AfterString(s).ok
    ensures s == body + ("\"" + AfterString(s).rest) && Closed(body)
    decreases |s|
  {
    hide Closed;
    if s[0] == '\\' {
      var more := StringBody(s[2..]);
      body := ['\\', s[1]] + more;
      ClosedEscape(s[1], more);
      InFront(['\\', s[1]], s, more, AfterString(s).rest);
    } else if s[0] == '"' {
      body := "";
      NothingIsClosed();
      assert s == "" + ("\"" + s[1..]);
    } else {
      var more := StringBody(s[1..]);
      body := [s[0]] + more;
      ClosedPast([s[0]], more);
      InFront([s[0]], s, more, AfterString(s).rest);
    }
  }

  lemma StringTextIs(u: string, t: Token) returns (body: string)
    requires Starts(u, t) && t.kind == StringKind
    ensures t.text == "\"" + body + "\"" && Closed(body) && Unquoted(t.text) == body
  {
    hide AfterComment, AfterNumber, AfterWord, AfterString;
    var rest := t.text[1..] + t.rest;
    assert t.text[0] == '"';
    body := StringBody(rest);
    CutBefore(t.text[1..], t.rest, body + "\"");
    assert rest == (body + "\"") + t.rest;
    assert t.text == [t.text[0]] + t.text[1..];
  }

  lemma CutBefore(a: string, rest: string, b: string)
    ensures a + rest == b + rest ==> a == b
  {
    if a + rest == b + rest {
      assert |a| == |b|;
      assert a == (a + rest)[..|a|] && b == (b + rest)[..|a|];
    }
  }

  lemma {:induction false} NumberStops(s: string)
    ensures EndsNumber(AfterNumber(s))
    decreases |s|
  {
    if s != "" { NumberStops(s[1..]); }
  }

  lemma NumberTextIs(u: string, t: Token)
    requires Starts(u, t) && t.kind == NumberKind
    ensures EndsNumber(t.rest)
  {
    hide AfterComment, AfterString, AfterWord, AfterNumber;
    NumberStops(t.text[1..] + t.rest);
  }

  // ---- Comments -------------------------------------------------------------------------------------------------

  lemma {:induction false} BlockBody(s: string) returns (body: string)
    requires AfterBlock(s).ok
    ensures s == body + ("*/" + AfterBlock(s).rest)
    ensures forall i | 0 <= i < |body| :: !(body[i] == '*' && (body + "*/")[i + 1] == '/')
    decreases |s|
  {
    if s[0] == '*' && |s| > 1 && s[1] == '/' {
      body := "";
      assert s == "" + ("*/" + s[2..]);
    } else {
      var more := BlockBody(s[1..]);
      body := [s[0]] + more;
      assert s == [s[0]] + s[1..];
      assert (body + "*/")[1] == s[1] by { assert s[1] == s[1..][0] == (more + ("*/" + AfterBlock(s).rest))[0]; }
      forall i | 0 <= i < |body| ensures !(body[i] == '*' && (body + "*/")[i + 1] == '/') {
        if i > 0 { assert body[i] == more[i - 1] && (body + "*/")[i + 1] == (more + "*/")[i]; }
      }
    }
  }

  lemma {:induction false} LineBody(s: string) returns (body: string, eol: char)
    requires AfterLine(s) != ""
    ensures s == body + ([eol] + AfterLine(s)) && eol in "\r\n" && forall i | 0 <= i < |body| :: body[i] !in "\r\n"
    decreases |s|
  {
    if s[0] == '\r' || s[0] == '\n' {
      body, eol := "", s[0];
      assert s == "" + ([eol] + s[1..]);
    } else {
      var more, e := LineBody(s[1..]);
      body, eol := [s[0]] + more, e;
      assert s == [s[0]] + s[1..];
    }
  }

  lemma BlockIs(body: string)
    requires forall i | 0 <= i < |body| :: !(body[i] == '*' && (body + "*/")[i + 1] == '/')
    ensures IsBlockComment("/*" + (body + "*/"))
  {
    var c := "/*" + (body + "*/");
    assert c[..2] == "/*" && c[|c| - 2..] == "*/";
    forall i | 2 <= i < |c| - 2 ensures !(c[i] == '*' && c[i + 1] == '/') {
      assert c[i] == body[i - 2] && c[i + 1] == (body + "*/")[i - 1];
    }
  }

  lemma LineIs(body: string, eol: char)
    requires eol in "\r\n" && forall i | 0 <= i < |body| :: body[i] !in "\r\n"
    ensures IsLineComment("//" + (body + [eol]))
  {
    var c := "//" + (body + [eol]);
    assert c[..2] == "//" && c[|c| - 1] == eol;
    forall i | 2 <= i < |c| - 1 ensures c[i] !in "\r\n" { assert c[i] == body[i - 2]; }
  }

  /** A comment that something follows has its end mark. */
  lemma CommentTextIs(u: string, t: Token)
    requires Starts(u, t) && t.kind == Comment && t.rest != ""
    ensures IsComment(t.text)
  {
    hide AfterNumber, AfterString, AfterWord, AfterBlock, AfterLine, IsBlockComment, IsLineComment;
    var s := t.text[1..] + t.rest;
    assert t.text[0] == '/' && s != "";
    if s[0] == '*' {
      var body := BlockBody(s[1..]);
      CommentInPieces(t, s, '*', body + "*/");
      BlockIs(body);
    } else {
      var body, eol := LineBody(s[1..]);
      CommentInPieces(t, s, '/', body + [eol]);
      LineIs(body, eol);
    }
  }

  lemma CommentInPieces(t: Token, s: string, c: char, body: string)
    requires t.text != "" && t.text[0] == '/' && s == t.text[1..] + t.rest && s != "" && s[0] == c
    requires s[1..] == body + t.rest
    ensures t.text == ['/', c] + body
  {
    assert s == [c] + s[1..];
    assert s == ([c] + body) + t.rest;
    CutBefore(t.text[1..], t.rest, [c] + body);
    assert t.text == ['/'] + t.text[1..];
  }

  lemma GapFrom(b: string, c: string, g: string)
    requires Blank(b) && IsComment(c) && Gap(g)
    ensures Gap(b + (c + g))
  {
    hide IsComment;
    var s := c + g;
    assert |c| > 0 by { CommentStarts(c); }
    assert s[..|c|] == c && s[|c|..] == g;
    assert Gap(s);
    GapBehindBlanks(b, s);
  }

  lemma {:induction false} GapBehindBlanks(b: string, g: string)
    requires Blank(b) && Gap(g)
    ensures Gap(b + g)
    decreases |b|
  {
    if b == "" {
      assert b + g == g;
    } else {
      GapBehindBlanks(b[1..], g);
      assert (b + g)[1..] == b[1..] + g;
    }
  }

  /** The next token, and the gap in front of it. */
  lemma {:induction false} NextSplits(s: string) returns (g: string, u: string)
    requires NextToken(s).text != ""
    ensures s == g + u && Gap(g) && Starts(u, NextToken(s))
    decreases |s|
  {
    hide ReadToken, Starts, IsComment, Gap;
    var t := ReadToken(s);
    KindsHaveText(s);
    var b, v := TokenSplits(s);
    if t.kind == Comment {
      StartsIs(v, t);
      SomethingFollows(t.rest);
      CommentTextIs(v, t);
      var g', u' := NextSplits(t.rest);
      g, u := b + (t.text + g'), u';
      GapFrom(b, t.text, g');
      assert s == b + (t.text + (g' + u'));
    } else {
      g, u := b, v;
      BlankIsGap(b);
    }
  }

  lemma StartsIs(u: string, t: Token)
    requires Starts(u, t)
    ensures u == t.text + t.rest && t.text != ""
  {
  }

  lemma SomethingFollows(s: string)
    ensures NextToken(s).text != "" ==> s != ""
  {
  }

  lemma KindsHaveText(s: string)
    ensures NextToken(s).kind != EndOfStream ==> NextToken(s).text != ""
    ensures ReadToken(s).kind != EndOfStream ==> ReadToken(s).text != ""
    decreases |s|
  {
    hide Classify;
    var t := ReadToken(s);
    if SkipBlanks(s) != "" {
      ClassifiedIsPrefix(SkipBlanks(s)[0], SkipBlanks(s)[1..]);
    }
    if t.kind == Comment { KindsHaveText(t.rest); }
  }

  // ---- Strings ----------------------------------------------------------------------------------------------------

  lemma {:induction false} ClosedPast(h: string, rest: string)
    requires forall i | 0 <= i < |h| :: h[i] != '"' && h[i] != '\\'
    ensures Closed(h + rest) <==> Closed(rest)
    decreases |h|
  {
    if h == "" {
      assert h + rest == rest;
    } else {
      assert (h + rest)[1..] == h[1..] + rest;
      ClosedPast(h[1..], rest);
    }
  }

  lemma {:induction false} HexIsPlain(h: string)
    requires HexNumber(h).Some?
    ensures forall i | 0 <= i < |h| :: h[i] != '"' && h[i] != '\\'
    decreases |h|
  {
    if h != "" {
      HexIsPlain(h[..|h| - 1]);
      forall i | 0 <= i < |h| ensures h[i] != '"' && h[i] != '\\' {
        if i < |h| - 1 { assert h[i] == h[..|h| - 1][i]; }
      }
    }
  }

  lemma HexClosed(s: string)
    requires Closed(s) && HexEscape(s).CodePoint?
    ensures |s| >= 4 && FourHex(s[..4]) && HexEscape(s) == CodePoint(HexNumber(s[..4]).value, s[4..]) && Closed(s[4..])
  {
    HexIsPlain(s[..4]);
    ClosedPast(s[..4], s[4..]);
    assert s == s[..4] + s[4..];
  }

  lemma ClosedEscape(c: char, s: string)
    ensures Closed(['\\', c] + s) <==> Closed(s)
  {
    assert (['\\', c] + s)[2..] == s;
  }

  lemma LoneBack(s: string) returns (chars: seq<Spelling>, rest: string)
    requires |s| >= 4 && FourHex(s[..4]) && !IsHighSurrogate(HexNumber(s[..4]).value)
    ensures rest == s[4..] && "\\u" + s == AllSpelled(chars) + rest && SpellingsOk(chars) && Ended(chars)
  {
    hide HexNumber;
    chars, rest := [Unicode(s[..4])], s[4..];
    OneSpelled(s[..4], rest);
    Hexed(s);
  }

  lemma Hexed(s: string)
    requires |s| >= 4
    ensures "\\u" + s == "\\u" + s[..4] + s[4..]
  {
  }

  lemma SurrogatesBack(s: string) returns (chars: seq<Spelling>, rest: string)
    requires |s| >= 10 && FourHex(s[..4]) && IsHighSurrogate(HexNumber(s[..4]).value)
    requires s[4..][..2] == "\\u" && FourHex(s[4..][2..][..4])
    ensures rest == s[4..][2..][4..] && "\\u" + s == AllSpelled(chars) + rest && SpellingsOk(chars) && Ended(chars)
  {
    hide HexNumber;
    var high, t := s[..4], s[4..];
    var low := t[2..][..4];
    chars, rest := [Unicode(high), Unicode(low)], t[2..][4..];
    TwoSpelled(high, low, rest);
    Hexed(s);
    Hexed(t[2..]);
    assert t == t[..2] + t[2..];
  }

  /** A `\u` escape, and the other half if it is a high surrogate. */
  lemma UnicodeBack(s: string) returns (chars: seq<Spelling>, rest: string)
    requires Closed(s) && UnicodeEscape(s).CodePoint?
    ensures rest == UnicodeEscape(s).rest && Closed(rest) && "\\u" + s == AllSpelled(chars) + rest && |rest| < |s|
    ensures SpellingsOk(chars) && Ended(chars)
  {
    hide HexNumber, HexEscape, Closed, Ended, AllSpelled, SpellingsOk;
    HexClosed(s);
    if IsHighSurrogate(HexNumber(s[..4]).value) {
      var t := s[4..];
      assert t == ['\\', 'u'] + t[2..] by { assert t[..2] == "\\u" && t == t[..2] + t[2..]; }
      ClosedEscape('u', t[2..]);
      HexClosed(t[2..]);
      chars, rest := SurrogatesBack(s);
    } else {
      chars, rest := LoneBack(s);
    }
  }

  /** No high surrogate of these waits for what follows. */
  predicate Ended(chars: seq<Spelling>) {
    if |chars| == 2 then IsHigh(chars[0]) && chars[1].Unicode? else |chars| == 1 && !IsHigh(chars[0])
  }

  lemma TwoSpelled(high: string, low: string, rest: string)
    ensures AllSpelled([Unicode(high), Unicode(low)]) + rest == "\\u" + high + ("\\u" + low + rest)
  {
    var c := [Unicode(high), Unicode(low)];
    assert c[1..] == [Unicode(low)] && c[1..][1..] == [];
    assert AllSpelled(c[1..]) == "\\u" + low + "";
  }

  lemma OneSpelled(hex: string, rest: string)
    ensures AllSpelled([Unicode(hex)]) + rest == "\\u" + hex + rest
  {
    assert [Unicode(hex)][1..] == [];
  }

  lemma {:induction false} SpelledTogether(a: seq<Spelling>, b: seq<Spelling>)
    ensures AllSpelled(a + b) == AllSpelled(a) + AllSpelled(b)
    decreases |a|
  {
    if a == [] {
      assert a + b == b;
    } else {
      assert (a + b)[1..] == a[1..] + b;
      SpelledTogether(a[1..], b);
    }
  }

  lemma PairedTogether(a: seq<Spelling>, b: seq<Spelling>)
    requires SpellingsOk(a) && SpellingsOk(b) && Ended(a) && AllPaired(b)
    ensures SpellingsOk(a + b) && AllPaired(a + b)
  {
    var c := a + b;
    if |a| == 2 {
      assert c[2..] == b && c[0] == a[0] && c[1] == a[1];
    } else {
      assert c[1..] == b && c[0] == a[0];
    }
  }

  /** The first character of a string that can be decoded, or a pair of surrogates. */
  lemma FirstBack(body: string) returns (chars: seq<Spelling>, rest: string)
    requires body != "" && Closed(body) && DecodeString(body).Good?
    ensures body == AllSpelled(chars) + rest && Closed(rest) && DecodeString(rest).Good? && |rest| < |body|
    ensures SpellingsOk(chars) && Ended(chars)
  {
    hide UnicodeEscape, Unescape, SHORT;
    if body[0] != '\\' {
      chars, rest := [Plain(body[0])], body[1..];
      assert chars[1..] == [] && body == [body[0]] + body[1..];
    } else if body[1] == 'u' {
      assert body == "\\u" + body[2..];
      chars, rest := UnicodeBack(body[2..]);
    } else {
      UnescapeIs(body[1]);
      chars, rest := [Short(body[1])], body[2..];
      assert chars[1..] == [] && body == ['\\', body[1]] + body[2..];
    }
  }

  lemma {:induction false} StringBack(body: string) returns (chars: seq<Spelling>)
    requires Closed(body) && DecodeString(body).Good?
    ensures AllSpelled(chars) == body && SpellingsOk(chars) && AllPaired(chars)
    decreases |body|
  {
    hide DecodeString, Closed;
    if body == "" {
      chars := [];
    } else {
      var first, rest := FirstBack(body);
      var more := StringBack(rest);
      chars := first + more;
      SpelledTogether(first, more);
      PairedTogether(first, more);
    }
  }

  /** The name or value of a string token that was decoded. */
  lemma QuotedBack(u: string, t: Token) returns (chars: seq<Spelling>)
    requires Starts(u, t) && t.kind == StringKind && |t.text| >= 2 && DecodeString(Unquoted(t.text)).Good?
    ensures t.text == InQuotes(chars) && SpellingsOk(chars) && AllPaired(chars)
    ensures DecodeString(Unquoted(t.text)) == Good(StringMeans(chars))
  {
    hide DecodeString, Closed, Starts;
    var body := StringTextIs(u, t);
    chars := StringBack(body);
    StringIsReadIff(chars);
  }

  // ---- Separators ---------------------------------------------------------------------------------------------------

  lemma LetterOrWord(c: char, word: string, full: string, t: Token)
    requires t.text != "" && t.text[0] == c && t.rest == AfterWord(t.text[1..] + t.rest, word).rest && full == [c] + word
    ensures t.text == full || t.text == [c]
  {
    var rest := t.text[1..];
    assert t.text == [c] + rest;
    if word <= rest + t.rest {
      WordIs(rest, word, t.rest);
    } else {
      assert |rest| == 0;
    }
  }

  lemma SlashText(t: Token)
    requires t.text != "" && t.text[0] == '/' && t.rest != ""
    requires !AfterComment(t.text[1..] + t.rest).ok && AfterComment(t.text[1..] + t.rest).rest == t.rest
    ensures |t.text| == 2 && t.text[1] != '*' && t.text[1] != '/'
  {
    var s := t.text[1..] + t.rest;
    if s[0] == '*' { OpenBlock(s[1..]); }
    assert |s| == |t.text| - 1 + |t.rest|;
    assert s[0] != '*' && s[0] != '/';
    assert t.text[1] == s[0];
  }

  lemma {:induction false} OpenBlock(s: string)
    ensures !AfterBlock(s).ok ==> AfterBlock(s).rest == ""
    decreases |s|
  {
    if s != "" { OpenBlock(s[1..]); }
  }

  lemma {:induction false} OpenString(s: string)
    ensures !AfterString(s).ok ==> AfterString(s).rest == ""
    decreases |s|
  {
    if s != "" && s[0] == '\\' && |s| > 1 {
      OpenString(s[2..]);
    } else if s != "" {
      OpenString(s[1..]);
    }
  }

  lemma StringSep(u: string, t: Token)
    requires Starts(u, t) && t.text[0] == '"' && t.rest != ""
    ensures SeparatorText(t.text)
  {
    hide AfterString, Closed, NumberText;
    OpenString(t.text[1..] + t.rest);
    var body := StringTextIs(u, t);
    assert t.text[1..|t.text| - 1] == body;
  }

  lemma SlashSep(u: string, t: Token)
    requires Starts(u, t) && t.text[0] == '/' && t.kind != Comment && t.rest != ""
    ensures SeparatorText(t.text)
  {
    hide AfterComment, Closed, NumberText;
    SlashText(t);
  }

  lemma WordsSeparate(c: char)
    ensures SeparatorText("true") && SeparatorText("false") && SeparatorText("null")
    ensures c in "tfn" ==> SeparatorText([c])
  {
    hide Closed, NumberText;
  }

  lemma LetterSep(u: string, t: Token)
    requires Starts(u, t) && t.text[0] in "tfn"
    ensures SeparatorText(t.text)
  {
    hide AfterWord, SeparatorText;
    var c := t.text[0];
    WordsSeparate(c);
    if c == 't' {
      LetterOrWord(c, "rue", "true", t);
    } else if c == 'f' {
      LetterOrWord(c, "alse", "false", t);
    } else {
      LetterOrWord(c, "ull", "null", t);
    }
  }

  lemma OtherSep(u: string, t: Token)
    requires Starts(u, t) && t.text[0] !in "tfn\"/-}" && !Decimal.IsDigit(t.text[0])
    ensures SeparatorText(t.text)
  {
    hide AfterWord, AfterString, AfterComment, AfterNumber, Closed, NumberText;
    var c := t.text[0];
    assert t.rest == t.text[1..] + t.rest;
    assert |t.text[1..]| == 0;
    assert t.text == [c];
    DigitChars(c);
  }

  lemma DigitChars(c: char)
    ensures c in "0123456789" <==> Decimal.IsDigit(c)
  {
  }

  /** Whatever else stands behind a comment in place of the comma. */
  lemma SeparatorBack(u: string, t: Token)
    requires Starts(u, t) && t.kind != ObjectEnd && t.kind != Comment && t.rest != ""
    requires t.kind == NumberKind ==> NumberText(t.text)
    ensures SeparatorText(t.text)
  {
    hide SeparatorText, AfterWord, AfterString, AfterComment, AfterNumber;
    var c := t.text[0];
    if c == '"' {
      StringSep(u, t);
    } else if c == '/' {
      SlashSep(u, t);
    } else if c in "tfn" {
      LetterSep(u, t);
    } else if c == '-' || Decimal.IsDigit(c) {
      NumberIsSeparator(t.text);
    } else {
      OtherSep(u, t);
    }
  }

  lemma NumberIsSeparator(s: string)
    requires NumberText(s)
    ensures SeparatorText(s)
  {
  }

  // ---- Values --------------------------------------------------------------------------------------------------------

  /** `s` starts with the gap `g` and the text `x`, read as `r`. */
  ghost predicate IsText(s: string, g: string, x: Syntax, r: Read, scan: string -> Option<real>) {
    && Gap(g) && Readable(x, scan) && s == g + (Render(x) + r.rest)
    && r.value == Meaning(x, scan) && (x.Numeral? ==> EndsNumber(r.rest))
  }

  lemma {:induction false} ValueBack(s: string, was: Value, scan: string -> Option<real>) returns (g: string, x: Syntax)
    requires ReadValue(s, was, scan).ok
    ensures IsText(s, g, x, ReadValue(s, was, scan), scan)
    decreases |s|, 1
  {
    hide Starts, ReadMembers, ReadArray, NextToken, Gap;
    var t, r := NextToken(s), ReadValue(s, was, scan);
    KindsHaveText(s);
    var u;
    g, u := NextSplits(s);
    StartsIs(u, t);
    if t.kind == ObjectBegin {
      MarkText(u, t);
      x := ObjectBack(t.rest, scan);
    } else if t.kind == ArrayBegin {
      MarkText(u, t);
      x := ArrayBack(t.rest, scan);
    } else {
      x := ScalarBack(u, t, was, scan);
    }
  }

  lemma ScalarBack(u: string, t: Token, was: Value, scan: string -> Option<real>) returns (x: Syntax)
    requires Starts(u, t) && (t.kind == StringKind ==> |t.text| >= 2) && (t.kind == NumberKind ==> NumberText(t.text))
    requires ReadScalar(t, was, scan).ok
    ensures Readable(x, scan) && u == Render(x) + t.rest && ReadScalar(t, was, scan).value == Meaning(x, scan)
    ensures x.Numeral? ==> EndsNumber(t.rest)
  {
    hide Starts, DecodeString, DecodeNumber;
    StartsIs(u, t);
    WordTextIs(u, t);
    if t.kind == NumberKind {
      NumberTextIs(u, t);
      x := Numeral(t.text);
    } else if t.kind == StringKind {
      var chars := QuotedBack(u, t);
      x := Quoted(chars);
    } else if t.kind == NullKind {
      x := Word(Null);
    } else {
      x := Word(Bool(t.kind == TrueKind));
    }
  }

  lemma {:induction false} ArrayBack(s: string, scan: string -> Option<real>) returns (x: Syntax)
    requires ReadArray(s, scan).ok
    ensures Readable(x, scan) && !x.Numeral? && "[" + s == Render(x) + ReadArray(s, scan).rest
    ensures ReadArray(s, scan).value == Meaning(x, scan)
    decreases |s|, 5
  {
    hide ReadItems, RenderItems;
    var u, r := SkipBlanks(s), ReadArray(s, scan);
    if u != "" && u[0] == ']' {
      var b := BlankPrefix(s);
      x := EmptyArray(b);
      assert u == "]" + u[1..];
      Regroup("[", b, "]", u[1..]);
    } else {
      SkippedIsSame(s, 0, Empty, scan);
      var i := ItemsBack(s, 0, Empty, scan);
      x := Array(i);
      Regroup("[", RenderItems(i), "]", r.rest);
    }
  }

  lemma {:induction false} ItemsBack(s: string, index: nat, items: Entries, scan: string -> Option<real>) returns (i: Items)
    requires ReadItems(s, index, items, scan).ok
    ensures ReadableItems(i, scan) && s == RenderItems(i) + ("]" + ReadItems(s, index, items, scan).rest)
    ensures ReadItems(s, index, items, scan).value == Arr(AddItems(i, index, items, scan))
    decreases |s|, 4
  {
    hide ReadValue, NextToken, Gap, Starts, Render;
    var item := ReadValue(s, Null, scan);
    var items' := Put(items, Index(index), item.value);
    var g, x := ValueBack(s, Null, scan);
    var t := NextToken(item.rest);
    KindsHaveText(item.rest);
    var after, u := NextSplits(item.rest);
    StartsIs(u, t);
    MarkText(u, t);
    var p := Padded(g, x, after);
    var first := Around(p, Render(x));
    Regroup(g, Render(x), after, u);
    if t.kind == ArrayEnd {
      i := LastItem(p);
    } else {
      var more := ItemsBack(t.rest, index + 1, items', scan);
      i := Item(p, more);
      Regroup(first, ",", RenderItems(more), "]" + ReadItems(s, index, items, scan).rest);
    }
  }

  lemma NoMembersRead(s: string, scan: string -> Option<real>)
    requires NextToken(s).kind == ObjectEnd
    ensures ReadMembers(s, "", Empty, scan).value == Obj(Empty)
    ensures ReadMembers(s, "", Empty, scan).rest == NextToken(s).rest
  {
    hide NextToken, ReadColon, DecodeString;
  }

  lemma Bracketed(open: string, text: string, close: string, rest: string)
    ensures open + (text + (close + rest)) == open + text + close + rest
  {
  }

  lemma {:induction false} ObjectBack(s: string, scan: string -> Option<real>) returns (x: Syntax)
    requires ReadMembers(s, "", Empty, scan).ok
    ensures Readable(x, scan) && !x.Numeral? && "{" + s == Render(x) + ReadMembers(s, "", Empty, scan).rest
    ensures ReadMembers(s, "", Empty, scan).value == Meaning(x, scan)
    decreases |s|, 3
  {
    hide NextToken, Gap, Starts, ReadMembers, RenderMembers, AddMembers, ReadableMembers;
    var t, r := NextToken(s), ReadMembers(s, "", Empty, scan);
    if t.kind == ObjectEnd {
      NoMembersRead(s, scan);
      var gap := BraceBack(s);
      x := EmptyObject(gap);
      Bracketed("{", gap, "}", t.rest);
    } else {
      var m := MembersBack(s, "", Empty, scan);
      x := Object(m);
      Bracketed("{", RenderMembers(m), "}", r.rest);
    }
  }

  lemma BraceBack(s: string) returns (gap: string)
    requires NextToken(s).kind == ObjectEnd
    ensures Gap(gap) && s == gap + ("}" + NextToken(s).rest)
  {
    hide NextToken, Gap, Starts;
    KindsHaveText(s);
    var u;
    gap, u := NextSplits(s);
    StartsIs(u, NextToken(s));
    MarkText(u, NextToken(s));
  }

  /** A name and the colon behind it. */
  lemma NameBack(s: string, before: string, members: Entries, scan: string -> Option<real>)
    returns (g: string, chars: seq<Spelling>, b: string, rest: string)
    requires ReadMembers(s, before, members, scan).ok && NextToken(s).kind != ObjectEnd
    ensures Gap(g) && SpellingsOk(chars) && AllPaired(chars) && Blank(b)
    ensures s == g + (InQuotes(chars) + (b + (":" + rest)))
    ensures ReadMembers(s, before, members, scan) == ReadMember(rest, StringMeans(chars), members, scan)
  {
    hide NextToken, ReadToken, Gap, Starts, DecodeString, ReadMember, InQuotes, StringMeans;
    var t := NextToken(s);
    KindsHaveText(s);
    var u, v;
    g, u := NextSplits(s);
    StartsIs(u, t);
    chars := QuotedBack(u, t);
    var colon := ReadToken(t.rest);
    KindsHaveText(t.rest);
    b, v := TokenSplits(t.rest);
    StartsIs(v, colon);
    MarkText(v, colon);
    rest := colon.rest;
  }

  /** What stands behind the value of a member: the end of the object, or a separator and more. */
  datatype End = CloseObject(after: string) | Separate(after: string, sep: string, rest: string)

  lemma EndBack(s: string, name: string, members: Entries, scan: string -> Option<real>) returns (e: End)
    requires AfterMember(s, name, members, scan).ok
    ensures Gap(e.after)
    ensures e.CloseObject? ==>
              var r := AfterMember(s, name, members, scan);
              s == e.after + ("}" + r.rest) && r.value == Obj(members)
    ensures e.Separate? ==>
              && s == e.after + (e.sep + e.rest) && SepOk(e.after, e.sep) && |e.rest| < |s|
              && AfterMember(s, name, members, scan) == ReadMembers(e.rest, name, members, scan)
  {
    hide NextToken, ReadToken, Gap, Starts, ReadMembers;
    var t := ReadToken(s);
    KindsHaveText(s);
    var b, u := TokenSplits(s);
    StartsIs(u, t);
    MarkText(u, t);
    if t.kind == ObjectEnd {
      e := CloseObject(b);
      BlankIsGap(b);
    } else if t.kind == Separator {
      e := Separate(b, ",", t.rest);
      BlankIsGap(b);
      CommaIsOk(b);
    } else {
      e := CommentBack(s, b, t, u, name, members, scan);
    }
  }

  lemma NothingIsRefused(name: string, members: Entries, scan: string -> Option<real>)
    ensures !ReadMembers("", name, members, scan).ok
  {
  }

  lemma EndHasNothing(s: string)
    ensures NextToken(s).text == "" ==> NextToken(s).rest == ""
    decreases |s|
  {
    hide Classify;
    var t := ReadToken(s);
    if SkipBlanks(s) != "" { ClassifiedIsPrefix(SkipBlanks(s)[0], SkipBlanks(s)[1..]); }
    if t.kind == Comment { EndHasNothing(t.rest); }
  }

  lemma CommentBack(s: string, b: string, t: Token, u: string, name: string, members: Entries,
                    scan: string -> Option<real>) returns (e: End)
    requires AfterMember(s, name, members, scan).ok && t == ReadToken(s) && t.kind == Comment
    requires s == b + u && Blank(b) && Starts(u, t)
    ensures Gap(e.after)
    ensures e.CloseObject? ==>
              var r := AfterMember(s, name, members, scan);
              s == e.after + ("}" + r.rest) && r.value == Obj(members)
    ensures e.Separate? ==>
              && s == e.after + (e.sep + e.rest) && SepOk(e.after, e.sep) && |e.rest| < |s|
              && AfterMember(s, name, members, scan) == ReadMembers(e.rest, name, members, scan)
  {
    hide NextToken, ReadToken, Gap, Starts, ReadMembers, SeparatorText, IsComment;
    StartsIs(u, t);
    var comma := NextToken(t.rest);
    NothingIsRefused(name, members, scan);
    KindsHaveText(t.rest);
    EndHasNothing(t.rest);
    SomethingFollows(t.rest);
    CommentTextIs(u, t);
    var g, v := NextSplits(t.rest);
    StartsIs(v, comma);
    MarkText(v, comma);
    var after := b + (t.text + g);
    GapFrom(b, t.text, g);
    NotBlank(b, t.text, g);
    if comma.kind == ObjectEnd {
      e := CloseObject(after);
      assert s == after + ("}" + comma.rest);
    } else {
      SeparatorBack(v, comma);
      e := Separate(after, comma.text, comma.rest);
      assert s == after + (comma.text + comma.rest);
    }
  }

  lemma NotBlank(b: string, c: string, g: string)
    requires IsComment(c)
    ensures !Blank(b + (c + g))
  {
    CommentStarts(c);
    assert (b + (c + g))[|b|] == '/';
  }

  lemma {:induction false} MembersBack(s: string, before: string, members: Entries, scan: string -> Option<real>)
    returns (m: Members)
    requires ReadMembers(s, before, members, scan).ok && NextToken(s).kind != ObjectEnd
    ensures ReadableMembers(m, scan) && s == RenderMembers(m) + ("}" + ReadMembers(s, before, members, scan).rest)
    ensures ReadMembers(s, before, members, scan).value == Obj(AddMembers(m, members, scan))
    decreases |s|, 2
  {
    hide ReadMembers, NextToken, ReadValue, AfterMember, Gap, SepOk, InQuotes, Render;
    var r := ReadMembers(s, before, members, scan);
    var g, chars, b, t := NameBack(s, before, members, scan);
    var name := StringMeans(chars);
    var key := Name(CString(name));
    var member := ReadValue(t, Get(members, key), scan);
    var members' := Put(members, key, member.value);
    var g', x := ValueBack(t, Get(members, key), scan);
    var e := EndBack(member.rest, name, members', scan);
    var y := Member(g, chars, b, Padded(g', x, e.after));
    var value := Around(y.value, Render(x));
    if e.CloseObject? {
      m := LastMember(y);
    } else if NextToken(e.rest).kind == ObjectEnd {
      var gap := BraceBack(e.rest);
      BraceBehindSeparator(gap, NextToken(e.rest).rest, name, members', scan);
      m := Dangling(y, e.sep, gap);
    } else {
      var more := MembersBack(e.rest, name, members', scan);
      m := MoreMembers(y, e.sep, more);
    }
    assert member.rest == e.after + BehindValue(m, r.rest);
    assert t == value + BehindValue(m, r.rest) by {
      Regroup(g', Render(x), e.after, BehindValue(m, r.rest));
    }
    MembersInPieces(m, r.rest);
  }

  // ---- Documents -----------------------------------------------------------------------------------------------------

  /** The document `d` is the text `x` with a gap in front of it and anything behind it. */
  ghost predicate Holds(d: string, g: string, x: Syntax, behind: string, scan: string -> Option<real>) {
    && Gap(g) && Readable(x, scan) && (x.Numeral? ==> EndsNumber(behind))
    && d == g + (Render(x) + behind)
  }

  /**
    For every byte string: it is accepted if and only if it starts, behind blanks
    and comments, with a readable text of the grammar; and the value is what
    that text means, whichever such text it is.
    */
  lemma AcceptedIff(d: string, root: Value, scan: string -> Option<real>)
    ensures Parse(d, root, scan).ok <==> exists g, x, behind :: Holds(d, g, x, behind, scan)
    ensures forall g, x, behind | Holds(d, g, x, behind, scan) ::
              Parse(d, root, scan).value == Meaning(x, scan) && Parse(d, root, scan).errors == []
  {
    hide ReadValue, Gap, Readable, Render, Meaning, NextToken;
    if Parse(d, root, scan).ok {
      var g, x := ValueBack(d, root, scan);
      assert Holds(d, g, x, ReadValue(d, root, scan).rest, scan);
    }
    forall g, x, behind | Holds(d, g, x, behind, scan)
      ensures Parse(d, root, scan).ok
      ensures Parse(d, root, scan).value == Meaning(x, scan) && Parse(d, root, scan).errors == []
    {
      TextConforms(x, scan);
      TextBehindIsIgnored(g, x, behind, root, scan);
    }
  }
}
