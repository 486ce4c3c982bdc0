/**
  What the writer writes is a JSON text, and it means the value written: so the
  reader gives it back.
  */
module JsonRoundTrip {
  import Decimal
  import opened JsonValue
  import opened JsonLexer
  import opened JsonReading
  import opened JsonWriting
  import opened JsonSyntax
  import opened JsonConformance
  import opened JsonAcceptance
  import opened Text
  import opened Wrappers

  // ---- Strings and numbers -------------------------------------------------------------------------------

  /** How the writer spells a character. */
  function SpellingOf(c: char): Spelling {
    if c == '"' || c == '\\' then Short(c)
    else if c as int == 8 then Short('b')
    else if c as int == 12 then Short('f')
    else if c == '\n' then Short('n')
    else if c == '\r' then Short('r')
    else if c == '\t' then Short('t')
    else if IsControl(c) then Unicode(['0', '0', HexDigit(c as int / 16), HexDigit(c as int % 16)])
    else Plain(c)
  }

  function SpellingsOf(s: string): seq<Spelling> {
    if s == "" then [] else [SpellingOf(s[0])] + SpellingsOf(s[1..])
  }

  lemma HexDigitIsRead(d: nat)
    requires d < 16
    ensures HexValue(HexDigit(d)) == Some(d)
  {
  }

  /** Four hexadecimal digits of a small number. */
  lemma HexOfSmall(n: nat)
    requires n < 0x20
    ensures HexNumber(['0', '0', HexDigit(n / 16), HexDigit(n % 16)]) == Some(n)
  {
    var s := ['0', '0', HexDigit(n / 16), HexDigit(n % 16)];
    HexDigitIsRead(n / 16);
    HexDigitIsRead(n % 16);
    assert s[..3][..2] == s[..2] && s[..2][..1] == s[..1] && s[..1][..0] == "";
    assert HexNumber(s[..1]) == Some(0);
    assert HexNumber(s[..2]) == Some(0);
    assert HexNumber(s[..3]) == Some(n / 16);
  }

  lemma CharIsSpelled(c: char)
    requires c != '\0'
    ensures SpellingOk(SpellingOf(c)) && !IsHigh(SpellingOf(c))
    ensures Spelled(SpellingOf(c)) == EscapeChar(c) && SpellingMeans(SpellingOf(c)) == [c]
  {
    if SpellingOf(c).Unicode? { HexOfSmall(c as int); }
  }

  /** Every string without NUL is spelled so that it means itself. */
  lemma {:induction false} StringIsSpelled(s: string)
    requires NulFree(s)
    ensures SpellingsOk(SpellingsOf(s)) && AllPaired(SpellingsOf(s))
    ensures AllSpelled(SpellingsOf(s)) == Escape(s) && StringMeans(SpellingsOf(s)) == s
    decreases |s|
  {
    if s != "" {
      CharIsSpelled(s[0]);
      StringIsSpelled(s[1..]);
      var first, more := SpellingOf(s[0]), SpellingsOf(s[1..]);
      assert ([first] + more)[1..] == more;
      assert s == [s[0]] + s[1..];
    }
  }

  lemma SignedTextShape(n: int)
    ensures NumberText(Decimal.SignedText(n)) && !IsDouble(Decimal.SignedText(n))
    ensures IsNegative(Decimal.SignedText(n)) <==> n < 0
    ensures Magnitude(Decimal.SignedText(n)) == Decimal.Digits(if n < 0 then 0 - n else n)
  {
    var t := Decimal.SignedText(n);
    if n < 0 {
      assert t[1..] == Decimal.Digits(0 - n);
      forall i | 1 <= i < |t| ensures Decimal.IsDigit(t[i]) { assert t[i] == Decimal.Digits(0 - n)[i - 1]; }
    }
  }

  /** Every 64-bit integer, signed or unsigned, is decoded exactly. */
  lemma IntegerIsDecoded(n: int, scan: string -> Option<real>)
    requires Decimal.INT64_MIN <= n <= Decimal.UINT64_MAX
    ensures NumberText(Decimal.SignedText(n))
    ensures DecodeNumber(Decimal.SignedText(n), scan) == Number(Tagged(n))
  {
    SignedTextShape(n);
    Decimal.ValueOfDigits(if n < 0 then 0 - n else n);
  }

  // ---- The syntax tree of a value ----------------------------------------------------------------------------

  function Bare(s: Syntax): Padded {
    Padded("", s, "")
  }

  function SyntaxOf(v: Value): Syntax
    requires WellFormed(v) && RealFree(v)
    decreases v, 0
  {
    match v
    case Null => Word(v)
    case Bool(_) => Word(v)
    case Int(i) => Numeral(Decimal.SignedText(i))
    case UInt(u) => Numeral(Decimal.SignedText(u))
    case Str(s) => Quoted(SpellingsOf(s))
    case Arr(e) => if e.Empty? then EmptyArray("") else Array(ItemsOf(e, 0))
    case Obj(e) => if e.Empty? then EmptyObject("") else Object(MembersOf(e))
  }

  function ItemsOf(e: Entries, index: nat): Items
    requires e.Entry? && ArrayEntries(e, index) && RealFreeEntries(e)
    decreases e, e.key.index - index
  {
    if index < e.key.index then Item(Bare(Word(Null)), ItemsOf(e, index + 1))
    else if e.rest.Empty? then LastItem(Bare(SyntaxOf(e.value)))
    else Item(Bare(SyntaxOf(e.value)), ItemsOf(e.rest, index + 1))
  }

  function MembersOf(e: Entries): Members
    requires e.Entry? && ObjectEntries(e) && RealFreeEntries(e)
    decreases e, 0
  {
    var m := Member("", SpellingsOf(e.key.name), "", Bare(SyntaxOf(e.value)));
    if e.rest.Empty? then LastMember(m) else MoreMembers(m, ",", MembersOf(e.rest))
  }

  // ---- Its text is what the writer writes ------------------------------------------------------------------------

  lemma BareText(s: Syntax)
    ensures Around(Bare(s), Render(s)) == Render(s)
  {
  }

  lemma BareName(m: Member, text: string)
    requires m.before == "" && m.between == ""
    ensures Named(m, text) == InQuotes(m.name) + ":" + text
  {
  }

  lemma {:induction false} TextIsWritten(v: Value, scan: string -> Option<real>, show: real -> string)
    requires WellFormed(v) && RealFree(v)
    ensures Readable(SyntaxOf(v), scan) && Render(SyntaxOf(v)) == Write(v, show)
    decreases v, 0
  {
    match v
    case Null =>
    case Bool(_) =>
    case Int(i) => IntegerIsDecoded(i, scan);
    case UInt(u) => IntegerIsDecoded(u, scan);
    case Str(s) => StringIsSpelled(s);
    case Arr(e) => if e.Entry? { ItemsAreWritten(e, 0, scan, show); }
    case Obj(e) => if e.Entry? { MembersAreWritten(e, scan, show); }
  }

  lemma MissingItem(t: string)
    ensures "null" + "," + t == "null," + t
  {
  }

  lemma WithMore(s: string, t: string)
    ensures s + "," + t == s + ("," + t)
  {
  }

  lemma WithoutMore(s: string)
    ensures s + "" == s
  {
  }

  lemma {:induction false} ItemsAreWritten(e: Entries, index: nat, scan: string -> Option<real>, show: real -> string)
    requires e.Entry? && ArrayEntries(e, index) && RealFreeEntries(e)
    ensures ReadableItems(ItemsOf(e, index), scan) && RenderItems(ItemsOf(e, index)) == ItemsText(e, index, show)
    decreases e, e.key.index - index
  {
    if index < e.key.index {
      ItemsAreWritten(e, index + 1, scan, show);
      BareText(Word(Null));
      MissingItem(ItemsText(e, index + 1, show));
    } else {
      TextIsWritten(e.value, scan, show);
      BareText(SyntaxOf(e.value));
      if e.rest.Empty? {
        WithoutMore(Write(e.value, show));
      } else {
        ItemsAreWritten(e.rest, index + 1, scan, show);
        WithMore(Write(e.value, show), ItemsText(e.rest, index + 1, show));
      }
    }
  }

  lemma {:induction false} MembersAreWritten(e: Entries, scan: string -> Option<real>, show: real -> string)
    requires e.Entry? && ObjectEntries(e) && RealFreeEntries(e)
    ensures ReadableMembers(MembersOf(e), scan) && RenderMembers(MembersOf(e)) == MembersText(e, show)
    decreases e, 0
  {
    var m := MembersOf(e).member;
    StringIsSpelled(e.key.name);
    TextIsWritten(e.value, scan, show);
    BareText(SyntaxOf(e.value));
    BareName(m, Write(e.value, show));
    if e.rest.Empty? {
      WithoutMore(Quote(e.key.name) + ":" + Write(e.value, show));
    } else {
      MembersAreWritten(e.rest, scan, show);
      WithMore(Quote(e.key.name) + ":" + Write(e.value, show), MembersText(e.rest, show));
    }
  }

  // ---- Its meaning is the normal form --------------------------------------------------------------------------------

  lemma {:induction false} MeaningIsNormal(v: Value, scan: string -> Option<real>, show: real -> string)
    requires WellFormed(v) && RealFree(v)
    ensures Readable(SyntaxOf(v), scan) && Meaning(SyntaxOf(v), scan) == Normalize(v)
    decreases v, 0
  {
    TextIsWritten(v, scan, show);
    match v
    case Null =>
    case Bool(_) =>
    case Int(i) => IntegerIsDecoded(i, scan);
    case UInt(u) => IntegerIsDecoded(u, scan);
    case Str(s) =>
      StringIsSpelled(s);
      NulFreeIsKept(s);
    case Arr(e) => if e.Entry? { ItemsAreNormal(e, 0, Empty, scan, show); }
    case Obj(e) => if e.Entry? { MembersAreNormal(e, Empty, scan, show); }
  }

  lemma NullMeaning(scan: string -> Option<real>)
    ensures Readable(Word(Null), scan) && Meaning(Word(Null), scan) == Null
  {
  }

  lemma {:induction false} ItemsAreNormal(e: Entries, index: nat, acc: Entries, scan: string -> Option<real>, show: real -> string)
    requires e.Entry? && ArrayEntries(e, index) && RealFreeEntries(e) && Below(acc, Index(index))
    ensures ReadableItems(ItemsOf(e, index), scan)
    ensures AddItems(ItemsOf(e, index), index, acc, scan) == Append(acc, NormalizeItems(e, index))
    decreases e, e.key.index - index
  {
    hide Below, RealFree, Meaning, Readable, SyntaxOf;
    NullMeaning(scan);
    ItemsAreWritten(e, index, scan, show);
    var v := if index < e.key.index then Null else Normalize(e.value);
    var f := if index < e.key.index then e else e.rest;
    AppendEntry(acc, Index(index), v, NormalizeItems(f, index + 1));
    BelowNext(acc, Index(index), v, Index(index + 1));
    if index == e.key.index { MeaningIsNormal(e.value, scan, show); }
    if f.Entry? { ItemsAreNormal(f, index + 1, Put(acc, Index(index), v), scan, show); }
  }

  lemma {:induction false} MembersAreNormal(e: Entries, acc: Entries, scan: string -> Option<real>, show: real -> string)
    requires e.Entry? && ObjectEntries(e) && RealFreeEntries(e) && Below(acc, e.key)
    ensures ReadableMembers(MembersOf(e), scan)
    ensures AddMembers(MembersOf(e), acc, scan) == Append(acc, NormalizeMembers(e))
    decreases e, 0
  {
    MembersAreWritten(e, scan, show);
    StringIsSpelled(e.key.name);
    NulFreeIsKept(e.key.name);
    MeaningIsNormal(e.value, scan, show);
    var v := Normalize(e.value);
    AppendEntry(acc, e.key, v, NormalizeMembers(e.rest));
    if e.rest.Entry? {
      BelowNext(acc, e.key, v, e.rest.key);
      MembersAreNormal(e.rest, Put(acc, e.key, v), scan, show);
    }
  }

  // ---- The round trip ------------------------------------------------------------------------------------------------

  /** In front of any text that cannot continue a number, what was written is read back and nothing more. */
  lemma ReadsWritten(v: Value, rest: string, scan: string -> Option<real>, show: real -> string)
    requires WellFormed(v) && RealFree(v) && EndsNumber(rest)
    ensures Reads(Write(v, show) + rest, Normalize(v), rest, scan)
  {
    TextIsWritten(v, scan, show);
    MeaningIsNormal(v, scan, show);
    ReadsText(SyntaxOf(v), rest, scan);
  }

  /**
    The round trip: whatever value tree without reals is written, parsing the
    document succeeds without an error, uses it up, and gives the same tree
    with its integers tagged anew and its missing indices filled with null.
    */
  lemma RoundTrip(v: Value, root: Value, scan: string -> Option<real>, show: real -> string)
    requires WellFormed(v) && RealFree(v)
    ensures Parse(Write(v, show) + "\n", root, scan) == Read(true, Normalize(v), "", [])
  {
    var p := Padded("", SyntaxOf(v), "\n");
    TextIsWritten(v, scan, show);
    MeaningIsNormal(v, scan, show);
    DocumentIsRead(p, root, scan);
    assert "" + Write(v, show) == Write(v, show);
  }
}
