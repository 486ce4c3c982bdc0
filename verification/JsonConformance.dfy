/**
  The reader accepts every readable JSON text and gives it its meaning,
  whatever blanks stand between the tokens and however its strings are spelled.
  */
module JsonConformance {
  import opened JsonValue
  import opened JsonLexer
  import opened JsonReading
  import opened JsonSyntax
  import opened Text
  import opened Wrappers

  // ---- Blanks and tokens --------------------------------------------------------------------------------

  lemma {:induction false} BlanksAreSkipped(blank: string, s: string)
    requires Blank(blank)
    ensures SkipBlanks(blank + s) == SkipBlanks(s)
    decreases |blank|
  {
    if blank == "" {
      assert blank + s == s;
    } else {
      assert (blank + s)[1..] == blank[1..] + s;
      BlanksAreSkipped(blank[1..], s);
    }
  }

  lemma BlankInFront(blank: string, s: string)
    requires Blank(blank)
    ensures ReadToken(blank + s) == ReadToken(s) && NextToken(blank + s) == NextToken(s)
  {
    BlanksAreSkipped(blank, s);
  }

  /** A token is recognised from its first character and what that is followed by. */
  lemma TokenIs(text: string, rest: string, kind: Kind)
    requires text != "" && !IsBlank(text[0]) && Classify(text[0], text[1..] + rest) == (kind, rest)
    ensures ReadToken(text + rest) == Token(kind, text, rest)
  {
    var s := text + rest;
    assert s[1..] == text[1..] + rest;
    assert s[..|s| - |rest|] == text;
  }

  /** A token of one character. */
  lemma MarkToken(c: char, rest: string, kind: Kind)
    requires (c, kind) in {('{', ObjectBegin), ('}', ObjectEnd), ('[', ArrayBegin), (']', ArrayEnd),
                           (',', Separator), (':', Colon)}
    ensures ReadToken([c] + rest) == Token(kind, [c], rest)
    ensures NextToken([c] + rest) == ReadToken([c] + rest)
  {
    assert [c][1..] + rest == rest;
    TokenIs([c], rest, kind);
  }

  lemma PaddedMark(blank: string, c: char, rest: string, kind: Kind)
    requires Blank(blank)
    requires (c, kind) in {('{', ObjectBegin), ('}', ObjectEnd), ('[', ArrayBegin), (']', ArrayEnd),
                           (',', Separator), (':', Colon)}
    ensures ReadToken(blank + ([c] + rest)) == Token(kind, [c], rest)
    ensures NextToken(blank + ([c] + rest)) == Token(kind, [c], rest)
  {
    MarkToken(c, rest, kind);
    BlankInFront(blank, [c] + rest);
  }

  // ---- Comments and gaps -----------------------------------------------------------------------------------

  /** A text that stays what it is in front of anything but a quote, a comment, blanks or a brace. */
  predicate Bounds(t: string) {
    t != "" && t[0] in " \t\r\n/\"}"
  }

  lemma {:induction false} BlockIsSkipped(body: string, rest: string)
    requires forall i | 0 <= i < |body| :: !(body[i] == '*' && (body + "*/")[i + 1] == '/')
    ensures AfterBlock(body + ("*/" + rest)) == Stop(true, rest)
    decreases |body|
  {
    var s := body + ("*/" + rest);
    if body == "" {
      assert s == "*/" + rest && s[2..] == rest;
    } else {
      assert s[1..] == body[1..] + ("*/" + rest) && s[1] == (body + "*/")[1];
      forall i | 0 <= i < |body[1..]| ensures !(body[1..][i] == '*' && (body[1..] + "*/")[i + 1] == '/') {
        assert (body[1..] + "*/")[i + 1] == (body + "*/")[i + 2];
      }
      BlockIsSkipped(body[1..], rest);
    }
  }

  lemma {:induction false} LineIsSkipped(body: string, eol: char, rest: string)
    requires eol in "\r\n" && forall i | 0 <= i < |body| :: body[i] !in "\r\n"
    ensures AfterLine(body + ([eol] + rest)) == rest
    decreases |body|
  {
    var s := body + ([eol] + rest);
    if body == "" {
      assert s == [eol] + rest && s[1..] == rest;
    } else {
      assert s[1..] == body[1..] + ([eol] + rest);
      LineIsSkipped(body[1..], eol, rest);
    }
  }

  lemma BlockToken(c: string, rest: string)
    requires IsBlockComment(c)
    ensures ReadToken(c + rest) == Token(Comment, c, rest)
  {
    hide AfterBlock;
    var body := c[2..|c| - 2];
    forall i | 0 <= i < |body| ensures !(body[i] == '*' && (body + "*/")[i + 1] == '/') {
      assert body + "*/" == c[2..] && c[2..][i + 1] == c[i + 3] && body[i] == c[i + 2];
    }
    BlockIsSkipped(body, rest);
    assert c[0] == c[..2][0] && c[1] == c[..2][1];
    assert c[1..] + rest == ['*'] + (body + ("*/" + rest));
    assert (['*'] + (body + ("*/" + rest)))[1..] == body + ("*/" + rest);
    TokenIs(c, rest, Comment);
  }

  lemma LineToken(c: string, rest: string)
    requires IsLineComment(c)
    ensures ReadToken(c + rest) == Token(Comment, c, rest)
  {
    hide AfterLine;
    var body, eol := c[2..|c| - 1], c[|c| - 1];
    LineIsSkipped(body, eol, rest);
    assert c[0] == c[..2][0] && c[1] == c[..2][1];
    assert c[1..] + rest == ['/'] + (body + ([eol] + rest));
    assert (['/'] + (body + ([eol] + rest)))[1..] == body + ([eol] + rest);
    TokenIs(c, rest, Comment);
  }

  lemma CommentToken(c: string, rest: string)
    requires IsComment(c)
    ensures ReadToken(c + rest) == Token(Comment, c, rest) && NextToken(c + rest) == NextToken(rest)
  {
    if IsBlockComment(c) { BlockToken(c, rest); } else { LineToken(c, rest); }
  }

  /** Blanks and comments do not hide the token behind them. */
  lemma {:induction false} GapInFront(g: string, s: string)
    requires Gap(g)
    ensures NextToken(g + s) == NextToken(s)
    decreases |g|
  {
    hide ReadToken, NextToken, IsComment;
    if g == "" {
      assert g + s == s;
    } else if g[0] in " \t\r\n" && Gap(g[1..]) {
      assert g + s == [g[0]] + (g[1..] + s);
      BlankInFront([g[0]], g[1..] + s);
      GapInFront(g[1..], s);
    } else {
      var n: nat :| 0 < n <= |g| && IsComment(g[..n]) && Gap(g[n..]);
      assert g + s == g[..n] + (g[n..] + s);
      CommentToken(g[..n], g[n..] + s);
      GapInFront(g[n..], s);
    }
  }

  lemma {:induction false} BlankIsGap(g: string)
    requires Blank(g)
    ensures Gap(g)
    decreases |g|
  {
    if g != "" { BlankIsGap(g[1..]); }
  }

  lemma GapMark(g: string, c: char, rest: string, kind: Kind)
    requires Gap(g)
    requires (c, kind) in {('{', ObjectBegin), ('}', ObjectEnd), ('[', ArrayBegin), (']', ArrayEnd),
                           (',', Separator), (':', Colon)}
    ensures NextToken(g + ([c] + rest)) == Token(kind, [c], rest)
  {
    MarkToken(c, rest, kind);
    GapInFront(g, [c] + rest);
  }

  lemma CommentStarts(c: string)
    requires IsComment(c)
    ensures |c| >= 3 && c[0] == '/'
  {
    assert c[0] == c[..2][0];
  }

  lemma GapStarts(g: string)
    requires Gap(g) && g != ""
    ensures g[0] in " \t\r\n/"
  {
    if !(g[0] in " \t\r\n" && Gap(g[1..])) {
      var n: nat :| 0 < n <= |g| && IsComment(g[..n]) && Gap(g[n..]);
      CommentStarts(g[..n]);
      assert g[0] == g[..n][0];
    }
  }

  lemma GapBounds(g: string, c: char, rest: string)
    requires Gap(g) && (c == '"' || c == '}')
    ensures Bounds(g + ([c] + rest))
  {
    if g != "" {
      GapStarts(g);
      assert (g + ([c] + rest))[0] == g[0];
    }
  }

  /** A gap that is not all blank has a first comment. */
  lemma {:induction false} FirstComment(g: string) returns (b: string, c: string, more: string)
    requires Gap(g) && !Blank(g)
    ensures g == b + (c + more) && Blank(b) && IsComment(c) && Gap(more)
    decreases |g|
  {
    hide IsComment;
    if g[0] in " \t\r\n" && Gap(g[1..]) {
      b, c, more := FirstComment(g[1..]);
      b := [g[0]] + b;
      assert g == [g[0]] + g[1..];
    } else {
      var n: nat :| 0 < n <= |g| && IsComment(g[..n]) && Gap(g[n..]);
      b, c, more := "", g[..n], g[n..];
      assert g == "" + (c + more);
    }
  }

  // ---- Strings ----------------------------------------------------------------------------------------------

  lemma PlainIsSkipped(c: char, rest: string)
    requires c != '"' && c != '\\'
    ensures AfterString([c] + rest) == AfterString(rest)
  {
    assert ([c] + rest)[1..] == rest;
  }

  lemma EscapeIsSkipped(c: char, rest: string)
    ensures AfterString(['\\', c] + rest) == AfterString(rest)
  {
    assert (['\\', c] + rest)[2..] == rest;
  }

  lemma {:induction false} HexIsSkipped(hex: string, rest: string)
    requires HexNumber(hex).Some?
    ensures AfterString(hex + rest) == AfterString(rest)
    decreases |hex|
  {
    if hex == "" {
      assert hex + rest == rest;
    } else {
      var init, c := hex[..|hex| - 1], hex[|hex| - 1];
      assert hex + rest == init + ([c] + rest);
      HexIsSkipped(init, [c] + rest);
      PlainIsSkipped(c, rest);
    }
  }

  lemma UnicodeIsSkipped(hex: string, rest: string)
    requires HexNumber(hex).Some?
    ensures AfterString("\\u" + hex + rest) == AfterString(rest)
  {
    assert "\\u" + hex + rest == ['\\', 'u'] + (hex + rest);
    EscapeIsSkipped('u', hex + rest);
    HexIsSkipped(hex, rest);
  }

  lemma SpellingIsSkipped(c: Spelling, rest: string)
    requires SpellingOk(c)
    ensures AfterString(Spelled(c) + rest) == AfterString(rest)
  {
    match c
    case Plain(c) => PlainIsSkipped(c, rest);
    case Short(letter) => EscapeIsSkipped(letter, rest);
    case Unicode(hex) => UnicodeIsSkipped(hex, rest);
  }

  /** The scanner finds the closing quote. */
  lemma {:induction false} StringIsSkipped(s: seq<Spelling>, rest: string)
    requires SpellingsOk(s)
    ensures AfterString(AllSpelled(s) + ("\"" + rest)) == Stop(true, rest)
    decreases |s|
  {
    var end := "\"" + rest;
    if s == [] {
      assert AllSpelled(s) + end == end && end[1..] == rest;
    } else {
      assert AllSpelled(s) + end == Spelled(s[0]) + (AllSpelled(s[1..]) + end);
      SpellingIsSkipped(s[0], AllSpelled(s[1..]) + end);
      StringIsSkipped(s[1..], rest);
    }
  }

  lemma HexIsRead(hex: string, rest: string)
    requires FourHex(hex)
    ensures HexEscape(hex + rest) == CodePoint(HexNumber(hex).value, rest)
  {
    assert (hex + rest)[..4] == hex && (hex + rest)[4..] == rest;
  }

  lemma EscapeIsRead(s: string, cp: nat, rest: string)
    requires UnicodeEscape(s) == CodePoint(cp, rest)
    ensures DecodeString("\\u" + s) == DecodeString(rest).After(Utf8(cp))
  {
    assert ("\\u" + s)[2..] == s;
  }

  lemma PairIsRead(high: string, low: string, rest: string)
    requires FourHex(high) && FourHex(low) && IsHighSurrogate(HexNumber(high).value)
    ensures UnicodeEscape(high + ("\\u" + low + rest)) ==
            CodePoint(JoinSurrogates(HexNumber(high).value, HexNumber(low).value), rest)
  {
    hide HexEscape, HexNumber;
    var tail := "\\u" + low + rest;
    HexIsRead(high, tail);
    TailOfPair(low, rest);
    HexIsRead(low, rest);
  }

  lemma TailOfPair(low: string, rest: string)
    ensures var tail := "\\u" + low + rest; |tail| == 2 + |low| + |rest| && tail[..2] == "\\u" && tail[2..] == low + rest
  {
  }

  lemma LoneIsRead(hex: string, rest: string)
    requires FourHex(hex) && !IsHighSurrogate(HexNumber(hex).value)
    ensures UnicodeEscape(hex + rest) == CodePoint(HexNumber(hex).value, rest)
  {
    HexIsRead(hex, rest);
  }

  lemma UnescapeIs(c: char)
    ensures Unescape(c) == if c in SHORT then Some(SHORT[c]) else None
  {
  }

  lemma ShortIsRead(letter: char, rest: string)
    requires letter in SHORT
    ensures DecodeString(['\\', letter] + rest) == DecodeString(rest).After([SHORT[letter]])
  {
    hide Unescape, UnicodeEscape;
    var s := ['\\', letter] + rest;
    UnescapeIs(letter);
    assert s[0] == '\\' && s[1] == letter && s[2..] == rest && letter != 'u';
  }

  lemma SpellingIsRead(c: Spelling, rest: string)
    requires SpellingOk(c) && !IsHigh(c)
    ensures DecodeString(Spelled(c) + rest) == DecodeString(rest).After(SpellingMeans(c))
  {
    hide UnicodeEscape, SHORT;
    var s := Spelled(c) + rest;
    match c
    case Plain(c) => assert s[1..] == rest && s[0] == c;
    case Short(letter) => ShortIsRead(letter, rest);
    case Unicode(hex) =>
      LoneIsRead(hex, rest);
      EscapeIsRead(hex + rest, HexNumber(hex).value, rest);
      assert s == "\\u" + (hex + rest);
  }

  lemma SurrogatesAreRead(high: Spelling, low: Spelling, rest: string)
    requires SpellingOk(high) && IsHigh(high) && SpellingOk(low) && low.Unicode?
    ensures DecodeString(Spelled(high) + (Spelled(low) + rest)) == DecodeString(rest).After(PairMeans(high, low))
  {
    hide DecodeString, UnicodeEscape;
    var tail := "\\u" + low.hex + rest;
    PairIsRead(high.hex, low.hex, rest);
    EscapeIsRead(high.hex + tail, JoinSurrogates(HexNumber(high.hex).value, HexNumber(low.hex).value), rest);
    assert Spelled(high) + (Spelled(low) + rest) == "\\u" + (high.hex + tail);
  }

  /** An escaped high surrogate is accepted if and only if another escape follows at once. */
  lemma SurrogateIff(hex: string, rest: string)
    requires FourHex(hex)
    ensures UnicodeEscape(hex + rest).CodePoint? <==>
            !IsHighSurrogate(HexNumber(hex).value) ||
            (|rest| >= 6 && rest[..2] == "\\u" && HexNumber(rest[2..6]).Some?)
  {
    HexIsRead(hex, rest);
    if |rest| >= 6 { assert rest[2..][..4] == rest[2..6]; }
  }

  /** What does not start with a `\u` escape has no `\u` in front. */
  lemma StartsEscape(s: seq<Spelling>)
    requires SpellingsOk(s) && (s == [] || !s[0].Unicode?) && |AllSpelled(s)| >= 2
    ensures AllSpelled(s)[..2] != "\\u"
  {
    var t := AllSpelled(s);
    assert t[..2][0] == t[0] && t[..2][1] == t[1];
  }

  lemma LoneIsRefused(high: Spelling, s: seq<Spelling>)
    requires SpellingOk(high) && IsHigh(high) && SpellingsOk(s) && (s == [] || !s[0].Unicode?)
    ensures DecodeString(Spelled(high) + AllSpelled(s)).Wrong?
  {
    hide UnicodeEscape, HexNumber, AllSpelled;
    var rest := AllSpelled(s);
    if |rest| >= 2 { StartsEscape(s); }
    SurrogateIff(high.hex, rest);
    EscapeIsWrong("\\u", high.hex, rest);
  }

  lemma EscapeIsWrong(u: string, hex: string, rest: string)
    requires u == "\\u" && UnicodeEscape(hex + rest).NoCodePoint?
    ensures DecodeString(u + hex + rest).Wrong?
  {
    assert (u + hex + rest)[2..] == hex + rest;
  }

  /**
    A string of the grammar is decoded if and only if every escaped high
    surrogate finds another escape to be joined with, and then to what it means.
    */
  lemma {:induction false} StringIsReadIff(s: seq<Spelling>)
    requires SpellingsOk(s)
    ensures DecodeString(AllSpelled(s)).Good? <==> AllPaired(s)
    ensures AllPaired(s) ==> DecodeString(AllSpelled(s)) == Good(StringMeans(s))
    decreases |s|
  {
    if s != [] {
      if !IsHigh(s[0]) {
        SpellingIsRead(s[0], AllSpelled(s[1..]));
        StringIsReadIff(s[1..]);
      } else if |s| > 1 && s[1].Unicode? {
        assert s[1..][1..] == s[2..];
        SurrogatesAreRead(s[0], s[1], AllSpelled(s[2..]));
        StringIsReadIff(s[2..]);
      } else {
        LoneIsRefused(s[0], s[1..]);
      }
    }
  }

  lemma QuotedShape(s: seq<Spelling>, rest: string)
    ensures InQuotes(s)[1..] + rest == AllSpelled(s) + ("\"" + rest)
    ensures Unquoted(InQuotes(s)) == AllSpelled(s)
  {
    InsideQuotes("\"", AllSpelled(s), rest);
  }

  lemma InsideQuotes(q: string, text: string, rest: string)
    requires |q| == 1
    ensures (q + text + q)[1..] + rest == text + (q + rest) && (q + text + q)[1..|q + text + q| - 1] == text
  {
  }

  lemma QuotedToken(s: seq<Spelling>, rest: string)
    requires SpellingsOk(s)
    ensures ReadToken(InQuotes(s) + rest) == Token(StringKind, InQuotes(s), rest)
    ensures NextToken(InQuotes(s) + rest) == ReadToken(InQuotes(s) + rest)
    ensures DecodeString(Unquoted(InQuotes(s))).Good? <==> AllPaired(s)
    ensures AllPaired(s) ==> DecodeString(Unquoted(InQuotes(s))) == Good(StringMeans(s))
  {
    QuotedShape(s, rest);
    StringIsSkipped(s, rest);
    StringIsReadIff(s);
    TokenIs(InQuotes(s), rest, StringKind);
  }

  // ---- Numbers and words --------------------------------------------------------------------------------------

  /** A number ends in front of this text. */
  ghost predicate EndsNumber(rest: string) {
    rest != "" ==> !NumberChar(rest[0])
  }

  lemma {:induction false} NumberIsSkipped(s: string, rest: string)
    requires EndsNumber(rest) && forall i | 0 <= i < |s| :: NumberChar(s[i])
    ensures AfterNumber(s + rest) == rest
    decreases |s|
  {
    if s == "" {
      assert s + rest == rest;
    } else {
      assert (s + rest)[1..] == s[1..] + rest;
      NumberIsSkipped(s[1..], rest);
    }
  }

  lemma NumberToken(text: string, rest: string)
    requires NumberText(text) && EndsNumber(rest)
    ensures ReadToken(text + rest) == Token(NumberKind, text, rest)
  {
    NumberIsSkipped(text[1..], rest);
    TokenIs(text, rest, NumberKind);
  }

  lemma WordToken(v: Value, rest: string, kind: Kind)
    requires v.Null? || v.Bool?
    requires kind == if v.Null? then NullKind else if v.bool_ then TrueKind else FalseKind
    ensures ReadToken(WordText(v) + rest) == Token(kind, WordText(v), rest)
  {
    var word := WordText(v)[1..];
    assert word <= word + rest && (word + rest)[|word|..] == rest;
    TokenIs(WordText(v), rest, kind);
  }

  // ---- What the reader makes of a text --------------------------------------------------------------------------

  /** Whatever the value was before, `s` is read as `v` and `rest` is left. */
  ghost predicate Reads(s: string, v: Value, rest: string, scan: string -> Option<real>) {
    forall was :: ReadValue(s, was, scan) == Read(true, v, rest, [])
  }

  /** Behind any items, `s` is read as the items `i` and a closing bracket. */
  ghost predicate ReadsItems(s: string, index: nat, i: Items, rest: string, scan: string -> Option<real>)
    requires ReadableItems(i, scan)
  {
    forall items :: ReadItems(s, index, items, scan) == Read(true, Arr(AddItems(i, index, items, scan)), rest, [])
  }

  /** Behind any members, `s` is read as the members `m` and a closing brace. */
  ghost predicate ReadsMembers(s: string, m: Members, rest: string, scan: string -> Option<real>)
    requires ReadableMembers(m, scan)
  {
    forall before, members ::
      ReadMembers(s, before, members, scan) == Read(true, Obj(AddMembers(m, members, scan)), rest, [])
  }

  lemma ReadsBehindGap(gap: string, s: string, v: Value, rest: string, scan: string -> Option<real>)
    requires Gap(gap) && Reads(s, v, rest, scan)
    ensures Reads(gap + s, v, rest, scan)
  {
    GapInFront(gap, s);
    forall was ensures ReadValue(gap + s, was, scan) == Read(true, v, rest, []) {
      assert ReadValue(s, was, scan) == Read(true, v, rest, []);
    }
  }

  lemma ReadsWord(v: Value, rest: string, scan: string -> Option<real>)
    requires v.Null? || v.Bool?
    ensures Reads(WordText(v) + rest, v, rest, scan)
  {
    WordToken(v, rest, if v.Null? then NullKind else if v.bool_ then TrueKind else FalseKind);
  }

  lemma ReadsNumber(text: string, rest: string, scan: string -> Option<real>)
    requires NumberText(text) && DecodeNumber(text, scan).Number? && EndsNumber(rest)
    ensures Reads(text + rest, DecodeNumber(text, scan).value, rest, scan)
  {
    NumberToken(text, rest);
  }

  lemma ReadsQuoted(chars: seq<Spelling>, rest: string, scan: string -> Option<real>)
    requires SpellingsOk(chars) && AllPaired(chars)
    ensures Reads(InQuotes(chars) + rest, Str(CString(StringMeans(chars))), rest, scan)
  {
    QuotedToken(chars, rest);
  }

  lemma ReadsLastItem(s: string, index: nat, i: Items, rest: string, scan: string -> Option<real>)
    requires i.LastItem? && ReadableItems(i, scan)
    requires Reads(s, Meaning(i.item.syntax, scan), i.item.after + ("]" + rest), scan)
    ensures ReadsItems(s, index, i, rest, scan)
  {
    GapMark(i.item.after, ']', rest, ArrayEnd);
  }

  lemma ReadsMoreItems(s: string, index: nat, i: Items, t: string, rest: string, scan: string -> Option<real>)
    requires i.Item? && ReadableItems(i, scan)
    requires Reads(s, Meaning(i.item.syntax, scan), i.item.after + ("," + t), scan)
    requires ReadsItems(t, index + 1, i.more, rest, scan)
    ensures ReadsItems(s, index, i, rest, scan)
  {
    var v := Meaning(i.item.syntax, scan);
    GapMark(i.item.after, ',', t, Separator);
    forall items
      ensures ReadItems(s, index, items, scan) == Read(true, Arr(AddItems(i, index, items, scan)), rest, [])
    {
      ItemThenMore(s, index, items, v, i.item.after + ("," + t), t, scan);
      assert ReadItems(t, index + 1, Put(items, Index(index), v), scan)
          == Read(true, Arr(AddItems(i.more, index + 1, Put(items, Index(index), v), scan)), rest, []);
    }
  }

  lemma ItemThenMore(s: string, index: nat, items: Entries, v: Value, u: string, t: string, scan: string -> Option<real>)
    requires Reads(s, v, u, scan) && NextToken(u).kind == Separator && NextToken(u).rest == t
    ensures ReadItems(s, index, items, scan) == ReadItems(t, index + 1, Put(items, Index(index), v), scan)
  {
    assert ReadValue(s, Null, scan) == Read(true, v, u, []);
  }

  lemma ReadsArray(s: string, i: Items, rest: string, scan: string -> Option<real>)
    requires ReadableItems(i, scan) && ReadsItems(s, 0, i, rest, scan)
    requires SkipBlanks(s) == "" || SkipBlanks(s)[0] != ']'
    ensures Reads("[" + s, Arr(AddItems(i, 0, Empty, scan)), rest, scan)
  {
    MarkToken('[', s, ArrayBegin);
    SkippedIsSame(s, 0, Empty, scan);
    assert ReadArray(s, scan) == ReadItems(s, 0, Empty, scan);
  }

  lemma ReadsEmptyArray(blank: string, rest: string, scan: string -> Option<real>)
    requires Blank(blank)
    ensures Reads("[" + (blank + ("]" + rest)), Arr(Empty), rest, scan)
  {
    MarkToken('[', blank + ("]" + rest), ArrayBegin);
    BlanksAreSkipped(blank, "]" + rest);
    assert ("]" + rest)[1..] == rest;
  }

  /** A name and a colon: the member's value follows. */
  lemma NameRead(m: Member, s: string, before: string, members: Entries, scan: string -> Option<real>)
    requires NameOk(m) && AllPaired(m.name)
    ensures ReadMembers(m.before + (InQuotes(m.name) + (m.between + (":" + s))), before, members, scan)
         == ReadMember(s, StringMeans(m.name), members, scan)
  {
    hide ReadMember;
    var t := m.between + (":" + s);
    QuotedToken(m.name, t);
    GapInFront(m.before, InQuotes(m.name) + t);
    PaddedMark(m.between, ':', s, Colon);
  }

  /** Behind a member, `u` closes the object. */
  ghost predicate Closes(u: string, rest: string, scan: string -> Option<real>) {
    forall name, members :: AfterMember(u, name, members, scan) == Read(true, Obj(members), rest, [])
  }

  /** Behind a member, `u` separates it from the text `t`. */
  ghost predicate Separates(u: string, t: string, scan: string -> Option<real>) {
    forall name, members :: AfterMember(u, name, members, scan) == ReadMembers(t, name, members, scan)
  }

  lemma BehindComment(b: string, c: string, more: string, name: string, members: Entries, scan: string -> Option<real>)
    requires Blank(b) && IsComment(c)
    ensures AfterMember(b + (c + more), name, members, scan) ==
            if NextToken(more).kind == ObjectEnd then Read(true, Obj(members), NextToken(more).rest, [])
            else ReadMembers(NextToken(more).rest, name, members, scan)
  {
    hide ReadToken, NextToken, ReadMembers, IsComment;
    CommentToken(c, more);
    BlankInFront(b, c + more);
  }

  lemma GapCloses(after: string, rest: string, scan: string -> Option<real>)
    requires Gap(after)
    ensures Closes(after + ("}" + rest), rest, scan)
  {
    hide NextToken, ReadMembers, IsComment, ReadToken;
    if Blank(after) {
      PaddedMark(after, '}', rest, ObjectEnd);
    } else {
      var b, c, more := FirstComment(after);
      assert after + ("}" + rest) == b + (c + (more + ("}" + rest)));
      GapMark(more, '}', rest, ObjectEnd);
      forall name, members
        ensures AfterMember(after + ("}" + rest), name, members, scan) == Read(true, Obj(members), rest, [])
      {
        BehindComment(b, c, more + ("}" + rest), name, members, scan);
      }
    }
  }

  lemma StringSeparator(sep: string, t: string)
    requires |sep| >= 2 && sep[0] == '"' && sep[|sep| - 1] == '"' && Closed(sep[1..|sep| - 1])
    ensures ReadToken(sep + t) == Token(StringKind, sep, t)
  {
    var body := sep[1..|sep| - 1];
    ClosedIsSkipped(body, t);
    assert sep[1..] + t == body + ("\"" + t);
    TokenIs(sep, t, StringKind);
  }

  lemma {:induction false} ClosedIsSkipped(body: string, rest: string)
    requires Closed(body)
    ensures AfterString(body + ("\"" + rest)) == Stop(true, rest)
    decreases |body|
  {
    var s := body + ("\"" + rest);
    if body == "" {
      assert s == "\"" + rest && s[1..] == rest;
    } else if body[0] == '\\' {
      assert s[2..] == body[2..] + ("\"" + rest);
      ClosedIsSkipped(body[2..], rest);
    } else {
      assert s[1..] == body[1..] + ("\"" + rest);
      ClosedIsSkipped(body[1..], rest);
    }
  }

  lemma WordSeparator(sep: string, t: string)
    requires sep == "true" || sep == "false" || sep == "null"
    ensures ReadToken(sep + t).text == sep && ReadToken(sep + t).rest == t
    ensures ReadToken(sep + t).kind in {TrueKind, FalseKind, NullKind}
  {
    var v := if sep == "null" then Null else Bool(sep == "true");
    WordToken(v, t, if v.Null? then NullKind else if v.bool_ then TrueKind else FalseKind);
  }

  /** A letter that does not start a word is a token of its own. */
  lemma CharSeparator(c: char, t: string)
    requires c !in " \t\r\n}\"/-0123456789" && Bounds(t)
    ensures var k := ReadToken([c] + t); k.text == [c] && k.rest == t && k.kind != ObjectEnd && k.kind != Comment
  {
    var s := [c] + t;
    assert s[1..] == t && SkipBlanks(s) == s;
    assert !("rue" <= t) && !("alse" <= t) && !("ull" <= t);
    assert s[..1] == [c];
  }

  lemma SlashSeparator(c: char, t: string)
    requires c != '*' && c != '/'
    ensures ReadToken(['/', c] + t) == Token(ErrorKind, ['/', c], t)
  {
    var s := ['/', c];
    assert s[1..] + t == [c] + t && ([c] + t)[1..] == t;
    TokenIs(s, t, ErrorKind);
  }

  lemma BoundsEndsNumber(t: string)
    requires Bounds(t)
    ensures EndsNumber(t)
  {
  }

  lemma SeparatorToken(sep: string, t: string)
    requires SeparatorText(sep) && Bounds(t)
    ensures var k := NextToken(sep + t); k.rest == t && k.kind != ObjectEnd
  {
    hide ReadToken, Closed;
    if |sep| == 1 && sep[0] !in " \t\r\n}\"/-0123456789" {
      assert sep == [sep[0]];
      CharSeparator(sep[0], t);
    } else if |sep| == 2 && sep[0] == '/' && sep[1] != '*' && sep[1] != '/' {
      assert sep == ['/', sep[1]];
      SlashSeparator(sep[1], t);
    } else if sep == "true" || sep == "false" || sep == "null" {
      WordSeparator(sep, t);
    } else if NumberText(sep) {
      BoundsEndsNumber(t);
      NumberToken(sep, t);
    } else {
      StringSeparator(sep, t);
    }
  }

  lemma CommaIsSeparator()
    ensures SeparatorText(",")
  {
  }

  lemma GapSeparates(after: string, sep: string, t: string, scan: string -> Option<real>)
    requires Gap(after) && SepOk(after, sep) && Bounds(t)
    ensures Separates(after + (sep + t), t, scan)
  {
    hide NextToken, ReadMembers, IsComment, SeparatorText, ReadToken, Bounds;
    if Blank(after) {
      PaddedMark(after, ',', t, Separator);
    } else {
      var b, c, more := FirstComment(after);
      assert after + (sep + t) == b + (c + (more + (sep + t)));
      CommaIsSeparator();
      SeparatorToken(sep, t);
      GapInFront(more, sep + t);
      forall name, members
        ensures AfterMember(after + (sep + t), name, members, scan) == ReadMembers(t, name, members, scan)
      {
        BehindComment(b, c, more + (sep + t), name, members, scan);
      }
    }
  }

  lemma MemberThenEnd(s: string, name: string, members: Entries, v: Value, u: string, rest: string,
                      scan: string -> Option<real>)
    requires Reads(s, v, u, scan) && Closes(u, rest, scan)
    ensures ReadMember(s, name, members, scan) == Read(true, Obj(Put(members, Name(CString(name)), v)), rest, [])
  {
    assert ReadValue(s, Get(members, Name(CString(name))), scan) == Read(true, v, u, []);
    assert AfterMember(u, name, Put(members, Name(CString(name)), v), scan)
        == Read(true, Obj(Put(members, Name(CString(name)), v)), rest, []);
  }

  lemma MemberThenMore(s: string, name: string, members: Entries, v: Value, u: string, t: string,
                       scan: string -> Option<real>)
    requires Reads(s, v, u, scan) && Separates(u, t, scan)
    ensures ReadMember(s, name, members, scan) == ReadMembers(t, name, Put(members, Name(CString(name)), v), scan)
  {
    assert ReadValue(s, Get(members, Name(CString(name))), scan) == Read(true, v, u, []);
    assert AfterMember(u, name, Put(members, Name(CString(name)), v), scan)
        == ReadMembers(t, name, Put(members, Name(CString(name)), v), scan);
  }

  lemma ReadsLastMember(s: string, m: Members, rest: string, scan: string -> Option<real>)
    requires m.LastMember? && ReadableMembers(m, scan)
    requires Reads(s, Meaning(m.member.value.syntax, scan), m.member.value.after + ("}" + rest), scan)
    ensures ReadsMembers(m.member.before + (InQuotes(m.member.name) + (m.member.between + (":" + s))), m, rest, scan)
  {
    hide ReadMember, Closes;
    var x, v, u := m.member, Meaning(m.member.value.syntax, scan), m.member.value.after + ("}" + rest);
    GapCloses(x.value.after, rest, scan);
    var text := x.before + (InQuotes(x.name) + (x.between + (":" + s)));
    forall before, members
      ensures ReadMembers(text, before, members, scan) == Read(true, Obj(AddMembers(m, members, scan)), rest, [])
    {
      NameRead(x, s, before, members, scan);
      MemberThenEnd(s, StringMeans(x.name), members, v, u, rest, scan);
    }
  }

  lemma ReadsMoreMembers(s: string, m: Members, t: string, rest: string, scan: string -> Option<real>)
    requires m.MoreMembers? && ReadableMembers(m, scan) && Bounds(t)
    requires Reads(s, Meaning(m.member.value.syntax, scan), m.member.value.after + (m.sep + t), scan)
    requires ReadsMembers(t, m.more, rest, scan)
    ensures ReadsMembers(m.member.before + (InQuotes(m.member.name) + (m.member.between + (":" + s))), m, rest, scan)
  {
    hide ReadMember, Separates, Bounds;
    var x, v, u := m.member, Meaning(m.member.value.syntax, scan), m.member.value.after + (m.sep + t);
    GapSeparates(x.value.after, m.sep, t, scan);
    var text := x.before + (InQuotes(x.name) + (x.between + (":" + s)));
    forall before, members
      ensures ReadMembers(text, before, members, scan) == Read(true, Obj(AddMembers(m, members, scan)), rest, [])
    {
      NameRead(x, s, before, members, scan);
      MemberThenMore(s, StringMeans(x.name), members, v, u, t, scan);
      assert ReadMembers(t, StringMeans(x.name), Put(members, MemberKey(x), v), scan)
          == Read(true, Obj(AddMembers(m.more, Put(members, MemberKey(x), v), scan)), rest, []);
    }
  }

  /** A brace behind a separator closes the object if and only if the last name was empty. */
  lemma BraceBehindSeparator(gap: string, rest: string, before: string, members: Entries, scan: string -> Option<real>)
    requires Gap(gap)
    ensures ReadMembers(gap + ("}" + rest), before, members, scan).ok <==> before == ""
    ensures before == "" ==>
              ReadMembers(gap + ("}" + rest), before, members, scan) == Read(true, Obj(members), rest, [])
  {
    GapMark(gap, '}', rest, ObjectEnd);
  }

  lemma ReadsDangling(s: string, m: Members, rest: string, scan: string -> Option<real>)
    requires m.Dangling? && ReadableMembers(m, scan)
    requires Reads(s, Meaning(m.member.value.syntax, scan), m.member.value.after + (m.sep + (m.gap + ("}" + rest))), scan)
    ensures ReadsMembers(m.member.before + (InQuotes(m.member.name) + (m.member.between + (":" + s))), m, rest, scan)
  {
    hide ReadMember, Separates, ReadMembers, Bounds;
    var x, v, t := m.member, Meaning(m.member.value.syntax, scan), m.gap + ("}" + rest);
    GapBounds(m.gap, '}', rest);
    GapSeparates(x.value.after, m.sep, t, scan);
    var text := x.before + (InQuotes(x.name) + (x.between + (":" + s)));
    forall before, members
      ensures ReadMembers(text, before, members, scan) == Read(true, Obj(AddMembers(m, members, scan)), rest, [])
    {
      NameRead(x, s, before, members, scan);
      MemberThenMore(s, StringMeans(x.name), members, v, x.value.after + (m.sep + t), t, scan);
      BraceBehindSeparator(m.gap, rest, StringMeans(x.name), Put(members, MemberKey(x), v), scan);
    }
  }

  lemma ReadsObject(s: string, m: Members, rest: string, scan: string -> Option<real>)
    requires ReadableMembers(m, scan) && ReadsMembers(s, m, rest, scan)
    ensures Reads("{" + s, Obj(AddMembers(m, Empty, scan)), rest, scan)
  {
    MarkToken('{', s, ObjectBegin);
    assert ReadMembers(s, "", Empty, scan) == Read(true, Obj(AddMembers(m, Empty, scan)), rest, []);
  }

  lemma ReadsEmptyObject(gap: string, rest: string, scan: string -> Option<real>)
    requires Gap(gap)
    ensures Reads("{" + (gap + ("}" + rest)), Obj(Empty), rest, scan)
  {
    MarkToken('{', gap + ("}" + rest), ObjectBegin);
    GapMark(gap, '}', rest, ObjectEnd);
  }

  // ---- What is read is in the grammar ------------------------------------------------------------------------

  lemma {:induction false} TextConforms(s: Syntax, scan: string -> Option<real>)
    requires Readable(s, scan)
    ensures Conforming(s)
    decreases s, 1
  {
    if s.Array? { ItemsConform(s.items, scan); }
    if s.Object? { MembersConform(s.members, scan); }
  }

  lemma {:induction false} ItemsConform(i: Items, scan: string -> Option<real>)
    requires ReadableItems(i, scan)
    ensures ConformingItems(i)
    decreases i, 0
  {
    TextConforms(i.item.syntax, scan);
    if i.Item? { ItemsConform(i.more, scan); }
  }

  lemma {:induction false} MembersConform(m: Members, scan: string -> Option<real>)
    requires ReadableMembers(m, scan)
    ensures ConformingMembers(m)
    decreases m, 0
  {
    TextConforms(m.member.value.syntax, scan);
    if m.MoreMembers? { MembersConform(m.more, scan); }
  }

  // ---- Every text ----------------------------------------------------------------------------------------------

  lemma Regroup(a: string, b: string, c: string, d: string)
    ensures (a + b + c) + d == a + (b + (c + d))
  {
  }

  lemma RegroupNamed(a: string, b: string, c: string, d: string, e: string, f: string)
    ensures (a + b + c + d + e) + f == a + (b + (c + (d + (e + f))))
  {
  }

  /** A gap, or what ends a number itself, ends it. */
  lemma EndsBehindGap(g: string, more: string)
    requires Gap(g) && (g != "" || EndsNumber(more))
    ensures EndsNumber(g + more)
  {
    if g != "" {
      GapStarts(g);
      assert (g + more)[0] == g[0];
    } else {
      assert g + more == more;
    }
  }

  /** What stands behind a member's value ends a number. */
  lemma SeparatorEndsNumber(after: string, sep: string, t: string)
    requires Gap(after) && SepOk(after, sep)
    ensures EndsNumber(after + (sep + t))
  {
    if after == "" {
      assert sep == ",";
      assert EndsNumber(sep + t);
    }
    EndsBehindGap(after, sep + t);
  }

  lemma StartsWell(s: Syntax)
    requires Conforming(s)
    ensures Render(s) != "" && Render(s)[0] != ']' && !IsBlank(Render(s)[0])
  {
  }

  lemma SkippedIsSame(s: string, index: nat, items: Entries, scan: string -> Option<real>)
    ensures ReadItems(SkipBlanks(s), index, items, scan) == ReadItems(s, index, items, scan)
  {
    var t := SkipBlanks(s);
    assert SkipBlanks(t) == t;
    assert ReadToken(t) == ReadToken(s);
    assert ReadValue(t, Null, scan) == ReadValue(s, Null, scan);
  }

  /**
    Conformance: whatever the text, and whatever follows it (behind a number,
    only what cannot belong to it), the reader accepts it, gives it its
    meaning, and consumes nothing more.
    */
  lemma {:induction false} ReadsText(s: Syntax, rest: string, scan: string -> Option<real>)
    requires Readable(s, scan) && (s.Numeral? ==> EndsNumber(rest))
    ensures Reads(Render(s) + rest, Meaning(s, scan), rest, scan)
    decreases s, 1
  {
    hide Reads;
    match s
    case Word(v) => ReadsWord(v, rest, scan);
    case Numeral(text) => ReadsNumber(text, rest, scan);
    case Quoted(chars) => ReadsQuoted(chars, rest, scan);
    case EmptyArray(blank) =>
      Regroup("[", blank, "]", rest);
      ReadsEmptyArray(blank, rest, scan);
    case Array(items) => ReadsArrayText(items, rest, scan);
    case EmptyObject(gap) =>
      Regroup("{", gap, "}", rest);
      ReadsEmptyObject(gap, rest, scan);
    case Object(members) =>
      Regroup("{", RenderMembers(members), "}", rest);
      ReadsMembersText(members, rest, scan);
      ReadsObject(RenderMembers(members) + ("}" + rest), members, rest, scan);
  }

  lemma {:induction false} ReadsArrayText(i: Items, rest: string, scan: string -> Option<real>)
    requires ReadableItems(i, scan)
    ensures Reads("[" + RenderItems(i) + "]" + rest, Arr(AddItems(i, 0, Empty, scan)), rest, scan)
    decreases i, 1
  {
    hide Reads, ReadsItems;
    var s := RenderItems(i) + ("]" + rest);
    Regroup("[", RenderItems(i), "]", rest);
    ReadsItemsText(i, 0, rest, scan);
    ItemsConform(i, scan);
    FirstItemStarts(i, "]" + rest);
    ReadsArray(s, i, rest, scan);
  }

  lemma ItemInPieces(a: string, b: string, c: string, d: string, e: string)
    ensures (a + b + c + d) + e == a + (b + (c + (d + e)))
  {
  }

  /** The blanks of a gap are skipped, up to a comment or what follows the gap. */
  lemma {:induction false} SkipsToText(g: string, s: string)
    requires Gap(g) && s != "" && !IsBlank(s[0]) && s[0] != ']'
    ensures var t := SkipBlanks(g + s); t != "" && t[0] != ']'
    decreases |g|
  {
    hide IsComment;
    if g == "" {
      assert g + s == s;
    } else if g[0] in " \t\r\n" && Gap(g[1..]) {
      assert (g + s)[1..] == g[1..] + s;
      SkipsToText(g[1..], s);
    } else {
      var n: nat :| 0 < n <= |g| && IsComment(g[..n]) && Gap(g[n..]);
      CommentStarts(g[..n]);
      assert (g + s)[0] == g[..n][0] == '/';
    }
  }

  lemma FirstItemStarts(i: Items, end: string)
    requires ConformingItems(i)
    ensures var t := SkipBlanks(RenderItems(i) + end); t != "" && t[0] != ']'
  {
    var p := i.item;
    StartsWell(p.syntax);
    var more := if i.LastItem? then "" else "," + RenderItems(i.more);
    var tail := p.after + (more + end);
    assert RenderItems(i) == p.before + Render(p.syntax) + p.after + more;
    ItemInPieces(p.before, Render(p.syntax), p.after, more, end);
    assert (Render(p.syntax) + tail)[0] == Render(p.syntax)[0];
    SkipsToText(p.before, Render(p.syntax) + tail);
  }

  /** A padded value in front of a text that does not continue a number. */
  lemma {:induction false} ReadsPadded(p: Padded, more: string, scan: string -> Option<real>)
    requires PaddingOk(p) && Readable(p.syntax, scan) && EndsNumber(p.after + more)
    ensures Reads(Around(p, Render(p.syntax)) + more, Meaning(p.syntax, scan), p.after + more, scan)
    decreases p, 2
  {
    hide Reads, Gap;
    var tail := p.after + more;
    ReadsText(p.syntax, tail, scan);
    ReadsBehindGap(p.before, Render(p.syntax) + tail, Meaning(p.syntax, scan), tail, scan);
    Regroup(p.before, Render(p.syntax), p.after, more);
  }

  lemma {:induction false} ReadsItemsText(i: Items, index: nat, rest: string, scan: string -> Option<real>)
    requires ReadableItems(i, scan)
    ensures ReadsItems(RenderItems(i) + ("]" + rest), index, i, rest, scan)
    decreases i, 0
  {
    hide Reads, ReadsItems;
    var first := Around(i.item, Render(i.item.syntax));
    if i.LastItem? {
      EndsBehindGap(i.item.after, "]" + rest);
      ReadsPadded(i.item, "]" + rest, scan);
      ReadsLastItem(first + ("]" + rest), index, i, rest, scan);
    } else {
      var t := RenderItems(i.more) + ("]" + rest);
      EndsBehindGap(i.item.after, "," + t);
      ReadsPadded(i.item, "," + t, scan);
      ReadsItemsText(i.more, index + 1, rest, scan);
      ReadsMoreItems(first + ("," + t), index, i, t, rest, scan);
      Regroup(first, ",", RenderItems(i.more), "]" + rest);
    }
  }

  lemma MembersBound(m: Members, rest: string)
    requires NameOk(m.member)
    ensures Bounds(RenderMembers(m) + rest)
  {
    var x := m.member;
    var s := RenderMembers(m) + rest;
    if x.before == "" {
      assert s[0] == '"';
    } else {
      GapStarts(x.before);
      assert s[0] == x.before[0];
    }
  }

  lemma {:induction false} ReadsMembersText(m: Members, rest: string, scan: string -> Option<real>)
    requires ReadableMembers(m, scan)
    ensures ReadsMembers(RenderMembers(m) + ("}" + rest), m, rest, scan)
    decreases m, 0
  {
    hide Reads, ReadsMembers, Bounds, Gap, SepOk;
    var x := m.member;
    var value := Around(x.value, Render(x.value.syntax));
    match m
    case LastMember(_) =>
      EndsBehindGap(x.value.after, "}" + rest);
      ReadsPadded(x.value, "}" + rest, scan);
      ReadsLastMember(value + ("}" + rest), m, rest, scan);
      RegroupNamed(x.before, InQuotes(x.name), x.between, ":", value, "}" + rest);
    case MoreMembers(_, sep, more) =>
      var t := RenderMembers(more) + ("}" + rest);
      SeparatorEndsNumber(x.value.after, sep, t);
      ReadsPadded(x.value, sep + t, scan);
      ReadsMembersText(more, rest, scan);
      MembersBound(more, "}" + rest);
      ReadsMoreMembers(value + (sep + t), m, t, rest, scan);
      Regroup(Named(x, value), sep, RenderMembers(more), "}" + rest);
      RegroupNamed(x.before, InQuotes(x.name), x.between, ":", value, sep + t);
    case Dangling(_, sep, gap) =>
      var t := gap + ("}" + rest);
      SeparatorEndsNumber(x.value.after, sep, t);
      ReadsPadded(x.value, sep + t, scan);
      ReadsDangling(value + (sep + t), m, rest, scan);
      Regroup(Named(x, value), sep, gap, "}" + rest);
      RegroupNamed(x.before, InQuotes(x.name), x.between, ":", value, sep + t);
  }
}
