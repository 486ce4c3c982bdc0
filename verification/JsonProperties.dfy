/** What holds of every document and of every value, beside the round trip. */
module JsonProperties {
  import Decimal
  import opened JsonValue
  import opened JsonLexer
  import opened JsonReading
  import opened JsonWriting
  import opened JsonSyntax
  import opened JsonAcceptance
  import opened JsonRoundTrip
  import opened Text
  import opened Wrappers

  // ---- Every document yields a well-formed value ---------------------------------------------------------

  lemma {:induction false} PutItem(e: Entries, from: nat, i: nat, v: Value)
    requires ArrayEntries(e, from) && Below(e, Index(i)) && from <= i && WellFormed(v)
    ensures ArrayEntries(Put(e, Index(i), v), from) && Below(Put(e, Index(i), v), Index(i + 1))
    decreases e
  {
    if e.Entry? { PutItem(e.rest, e.key.index + 1, i, v); }
  }

  lemma {:induction false} PutMember(e: Entries, name: string, v: Value)
    requires ObjectEntries(e) && NulFree(name) && WellFormed(v)
    ensures ObjectEntries(Put(e, Name(name), v))
    decreases e
  {
    if e.Entry? && e.key != Name(name) {
      if KeyLess(Name(name), e.key) {
        AboveLower(Name(name), e.key, e.rest);
      } else {
        KeyOrder(e.key, Name(name));
        PutMember(e.rest, name, v);
        PutAbove(e.key, e.rest, Name(name), v);
      }
    }
  }

  lemma {:induction false} GetMember(e: Entries, k: Key)
    requires ObjectEntries(e)
    ensures WellFormed(Get(e, k))
    decreases e
  {
    if e.Entry? { GetMember(e.rest, k); }
  }

  lemma NumberIsWellFormed(s: string, scan: string -> Option<real>)
    requires NumberText(s)
    ensures DecodeNumber(s, scan).Number? ==> WellFormed(DecodeNumber(s, scan).value)
  {
    if !IsDouble(s) { MagnitudeDigits(s); }
  }

  /**
    Whatever the document, and whether or not it is accepted, the value built
    has 64-bit integers, C strings, arrays without repeated indices and objects
    without repeated names.
    */
  lemma {:induction false} ReadIsWellFormed(s: string, was: Value, scan: string -> Option<real>)
    requires WellFormed(was)
    ensures WellFormed(ReadValue(s, was, scan).value)
    decreases |s|, 1
  {
    var t := NextToken(s);
    match t.kind
    case ObjectBegin => MembersAreWellFormed(t.rest, "", Empty, scan);
    case ArrayBegin =>
      var u := SkipBlanks(t.rest);
      if u == "" || u[0] != ']' { ItemsAreWellFormed(u, 0, Empty, scan); }
    case NumberKind => NumberIsWellFormed(t.text, scan);
    case StringKind =>
      var d := DecodeString(Unquoted(t.text));
      if d.Good? { CStringIsNulFree(d.text); }
    case _ =>
  }

  lemma {:induction false} ItemsAreWellFormed(s: string, index: nat, items: Entries, scan: string -> Option<real>)
    requires ArrayEntries(items, 0) && Below(items, Index(index))
    ensures WellFormed(ReadItems(s, index, items, scan).value)
    decreases |s|, 4
  {
    var item := ReadValue(s, Null, scan);
    ReadIsWellFormed(s, Null, scan);
    PutItem(items, 0, index, item.value);
    if item.ok { AfterItemIsWellFormed(item.rest, index, Put(items, Index(index), item.value), scan); }
  }

  lemma {:induction false} AfterItemIsWellFormed(s: string, index: nat, items: Entries, scan: string -> Option<real>)
    requires ArrayEntries(items, 0) && Below(items, Index(index + 1))
    ensures WellFormed(AfterItem(s, index, items, scan).value)
    decreases |s|, 3
  {
    var t := NextToken(s);
    if t.kind == Separator { ItemsAreWellFormed(t.rest, index + 1, items, scan); }
  }

  lemma {:induction false} MembersAreWellFormed(s: string, before: string, members: Entries, scan: string -> Option<real>)
    requires ObjectEntries(members)
    ensures WellFormed(ReadMembers(s, before, members, scan).value)
    decreases |s|, 2
  {
    var t := NextToken(s);
    if t.kind == StringKind {
      var d := DecodeString(Unquoted(t.text));
      if d.Good? { ColonIsWellFormed(t.rest, d.text, members, scan); }
    }
  }

  lemma {:induction false} ColonIsWellFormed(s: string, name: string, members: Entries, scan: string -> Option<real>)
    requires ObjectEntries(members)
    ensures WellFormed(ReadColon(s, name, members, scan).value)
    decreases |s|, 3
  {
    var colon := ReadToken(s);
    if colon.kind == Colon { MemberIsWellFormed(colon.rest, name, members, scan); }
  }

  lemma {:induction false} MemberIsWellFormed(s: string, name: string, members: Entries, scan: string -> Option<real>)
    requires ObjectEntries(members)
    ensures WellFormed(ReadMember(s, name, members, scan).value)
    decreases |s|, 4
  {
    var key := Name(CString(name));
    var was := Get(members, key);
    var member := ReadValue(s, was, scan);
    CStringIsNulFree(name);
    GetMember(members, key);
    ReadIsWellFormed(s, was, scan);
    PutMember(members, key.name, member.value);
    if member.ok { AfterMemberIsWellFormed(member.rest, name, Put(members, key, member.value), scan); }
  }

  lemma {:induction false} AfterMemberIsWellFormed(s: string, name: string, members: Entries, scan: string -> Option<real>)
    requires ObjectEntries(members)
    ensures WellFormed(AfterMember(s, name, members, scan).value)
    decreases |s|, 3
  {
    var t := ReadToken(s);
    if t.kind == Comment {
      var comma := NextToken(t.rest);
      if comma.kind != ObjectEnd { MembersAreWellFormed(comma.rest, name, members, scan); }
    } else if t.kind == Separator {
      MembersAreWellFormed(t.rest, name, members, scan);
    }
  }

  // ---- Writing forgets only what reading restores -------------------------------------------------------------

  lemma TaggedText(n: int)
    requires Decimal.INT64_MIN <= n <= Decimal.UINT64_MAX
    ensures WellFormed(Tagged(n)) && forall show :: Write(Tagged(n), show) == Decimal.SignedText(n)
  {
  }

  /** A normal form is well formed, is its own normal form, and is written the same way. */
  lemma {:induction false} NormalIsWritten(v: Value, show: real -> string)
    requires WellFormed(v)
    ensures WellFormed(Normalize(v)) && Normalize(Normalize(v)) == Normalize(v)
    ensures Write(Normalize(v), show) == Write(v, show)
    decreases v, 0
  {
    match v
    case Int(i) => TaggedText(i);
    case UInt(u) => TaggedText(u);
    case Arr(e) => NormalItems(e, 0, show);
    case Obj(e) => NormalMembers(e, show);
    case _ =>
  }

  lemma {:induction false} NormalItems(e: Entries, index: nat, show: real -> string)
    requires ArrayEntries(e, index)
    ensures ArrayEntries(NormalizeItems(e, index), index)
    ensures NormalizeItems(NormalizeItems(e, index), index) == NormalizeItems(e, index)
    ensures e.Entry? ==> ItemsText(NormalizeItems(e, index), index, show) == ItemsText(e, index, show)
    decreases e, if e.Empty? then 0 else e.key.index - index
  {
    if e.Entry? {
      if index < e.key.index {
        NormalItems(e, index + 1, show);
      } else {
        NormalIsWritten(e.value, show);
        NormalItems(e.rest, index + 1, show);
      }
    }
  }

  lemma {:induction false} NormalAbove(k: Key, e: Entries)
    requires Above(k, e) && ObjectEntries(e)
    ensures Above(k, NormalizeMembers(e))
    decreases e
  {
    if e.Entry? { NormalAbove(k, e.rest); }
  }

  lemma {:induction false} NormalMembers(e: Entries, show: real -> string)
    requires ObjectEntries(e)
    ensures ObjectEntries(NormalizeMembers(e)) && NormalizeMembers(NormalizeMembers(e)) == NormalizeMembers(e)
    ensures e.Entry? ==> MembersText(NormalizeMembers(e), show) == MembersText(e, show)
    decreases e, 0
  {
    if e.Entry? {
      NormalAbove(e.key, e.rest);
      NormalIsWritten(e.value, show);
      NormalMembers(e.rest, show);
    }
  }

  /** Two real-free values are written alike exactly when they have the same normal form. */
  lemma SameTextIff(v: Value, w: Value, scan: string -> Option<real>, show: real -> string)
    requires WellFormed(v) && RealFree(v) && WellFormed(w) && RealFree(w)
    ensures Write(v, show) == Write(w, show) <==> Normalize(v) == Normalize(w)
  {
    RoundTrip(v, Null, scan, show);
    RoundTrip(w, Null, scan, show);
    NormalIsWritten(v, show);
    NormalIsWritten(w, show);
  }

  // ---- Integers the grammar does not have -----------------------------------------------------------------------

  /** An integer by section 6 of RFC 8259: digits without a leading zero, and perhaps a minus sign. */
  predicate RfcInteger(s: string) {
    var m := Magnitude(s);
    m != "" && Decimal.AllDigits(m) && (m[0] == '0' ==> |m| == 1)
  }

  function IntegerValue(s: string): int
    requires NumberText(s) && !IsDouble(s)
  {
    MagnitudeDigits(s);
    var n := Decimal.Value(Magnitude(s));
    if IsNegative(s) then 0 - n else n
  }

  /** Of the tokens taken for integers, a lone minus sign and those with leading zeros are not in the RFC. */
  lemma RfcIntegerIff(s: string)
    requires NumberText(s) && !IsDouble(s)
    ensures RfcInteger(s) <==> s != "-" && !(|Magnitude(s)| > 1 && Magnitude(s)[0] == '0')
  {
    MagnitudeDigits(s);
  }

  /** Every token taken for an integer that fits is accepted, and read as the canonical text of its value is. */
  lemma IntegerIsRead(s: string, root: Value, scan: string -> Option<real>)
    requires NumberText(s) && !IsDouble(s) && Decimal.INT64_MIN <= IntegerValue(s) <= Decimal.UINT64_MAX
    ensures Parse(s, root, scan) == Read(true, Tagged(IntegerValue(s)), "", [])
    ensures Parse(s, root, scan) == Parse(Decimal.SignedText(IntegerValue(s)), root, scan)
  {
    hide Parse;
    var t := Decimal.SignedText(IntegerValue(s));
    MagnitudeDigits(s);
    IntegerIsDecoded(IntegerValue(s), scan);
    NumeralDocument(s, root, scan);
    NumeralDocument(t, root, scan);
  }

  lemma NumeralDocument(s: string, root: Value, scan: string -> Option<real>)
    requires NumberText(s) && DecodeNumber(s, scan).Number?
    ensures Parse(s, root, scan) == Read(true, DecodeNumber(s, scan).value, "", [])
  {
    hide Parse;
    var p := Padded("", Numeral(s), "");
    assert Around(p, s) == s;
    DocumentIsRead(p, root, scan);
  }

  lemma LoneMinusIsZero(root: Value, scan: string -> Option<real>)
    ensures !RfcInteger("-") && Parse("-", root, scan) == Read(true, Int(0), "", [])
  {
    hide Parse;
    assert NumberText("-") && !IsDouble("-") && Magnitude("-") == "";
    assert Decimal.Value("") == 0;
    IntegerIsRead("-", root, scan);
  }

  // ---- Corners ---------------------------------------------------------------------------------------------------

  /** The code point a UTF-8 sequence stands for. */
  function FromUtf8(s: string): nat {
    if |s| == 1 then s[0] as nat
    else if |s| == 2 then s[0] as nat % 0x20 * 0x40 + s[1] as nat % 0x40
    else if |s| == 3 then s[0] as nat % 0x10 * 0x1000 + s[1] as nat % 0x40 * 0x40 + s[2] as nat % 0x40
    else if |s| == 4 then
      s[0] as nat % 8 * 0x40000 + s[1] as nat % 0x40 * 0x1000 + s[2] as nat % 0x40 * 0x40 + s[3] as nat % 0x40
    else 0
  }

  lemma SixBits(n: nat)
    ensures n == n / 0x40 * 0x40 + n % 0x40 && n / 0x1000 == n / 0x40 / 0x40 && n / 0x40000 == n / 0x40 / 0x40 / 0x40
  {
  }

  lemma LeadBits(x: nat)
    ensures x < 8 ==> (0xF0 + x) % 8 == x
    ensures x < 0x10 ==> (0xE0 + x) % 0x10 == x
    ensures x < 0x20 ==> (0xC0 + x) % 0x20 == x
  {
  }

  lemma TrailBits(x: nat)
    requires x < 0x40
    ensures (0x80 + x) % 0x40 == x
  {
  }

  lemma FourBytes(cp: nat)
    requires 0xFFFF < cp <= 0x10FFFF
    ensures FromUtf8(Utf8(cp)) == cp
  {
    var a, b, c, d := cp / 0x40000, cp / 0x1000 % 0x40, cp / 0x40 % 0x40, cp % 0x40;
    SixBits(cp);
    SixBits(cp / 0x40);
    SixBits(cp / 0x40 / 0x40);
    LeadBits(a);
    TrailBits(b);
    TrailBits(c);
    TrailBits(d);
  }

  lemma ThreeBytes(cp: nat)
    requires 0x7FF < cp <= 0xFFFF
    ensures FromUtf8(Utf8(cp)) == cp
  {
    var a, b, c := cp / 0x1000, cp / 0x40 % 0x40, cp % 0x40;
    SixBits(cp);
    SixBits(cp / 0x40);
    LeadBits(a);
    TrailBits(b);
    TrailBits(c);
  }

  /** Every code point is encoded in at most four bytes from which it can be recovered. */
  lemma Utf8RoundTrip(cp: nat)
    requires cp <= 0x10FFFF
    ensures 1 <= |Utf8(cp)| <= 4 && FromUtf8(Utf8(cp)) == cp
    ensures forall i | 0 <= i < |Utf8(cp)| :: Utf8(cp)[i] as int < 0x100
  {
    if cp > 0xFFFF {
      FourBytes(cp);
    } else if cp > 0x7FF {
      ThreeBytes(cp);
    } else if cp > 0x7F {
      LeadBits(cp / 0x40);
      TrailBits(cp % 0x40);
    }
  }

  /** Every code point beyond the basic plane is what its two surrogates are joined to. */
  lemma SurrogateRoundTrip(cp: nat)
    requires 0x10000 <= cp <= 0x10FFFF
    ensures var high, low := 0xD800 + (cp - 0x10000) / 0x400, 0xDC00 + (cp - 0x10000) % 0x400;
            IsHighSurrogate(high) && JoinSurrogates(high, low) == cp
  {
  }
}
