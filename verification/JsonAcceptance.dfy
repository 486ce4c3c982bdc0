/**
  Which documents the reader accepts: of the texts of the grammar, exactly the
  readable ones; and which objects with a comma too many.
  */
module JsonAcceptance {
  import opened JsonValue
  import opened JsonLexer
  import opened JsonReading
  import opened JsonSyntax
  import opened JsonConformance
  import opened Text
  import opened Wrappers

  // ---- What the reader refuses ----------------------------------------------------------------------------

  ghost predicate Refuses(s: string, scan: string -> Option<real>) {
    forall was :: !ReadValue(s, was, scan).ok
  }

  ghost predicate RefusesItems(s: string, scan: string -> Option<real>) {
    forall index: nat, items :: !ReadItems(s, index, items, scan).ok
  }

  ghost predicate RefusesMembers(s: string, scan: string -> Option<real>) {
    forall before, members :: !ReadMembers(s, before, members, scan).ok
  }

  lemma RefusesBehindGap(gap: string, s: string, scan: string -> Option<real>)
    requires Gap(gap) && Refuses(s, scan)
    ensures Refuses(gap + s, scan)
  {
    GapInFront(gap, s);
    forall was ensures !ReadValue(gap + s, was, scan).ok {
      assert !ReadValue(s, was, scan).ok;
    }
  }

  lemma RefusesNumber(text: string, rest: string, scan: string -> Option<real>)
    requires NumberText(text) && !DecodeNumber(text, scan).Number? && EndsNumber(rest)
    ensures Refuses(text + rest, scan)
  {
    NumberToken(text, rest);
  }

  lemma RefusesQuoted(chars: seq<Spelling>, rest: string, scan: string -> Option<real>)
    requires SpellingsOk(chars) && !AllPaired(chars)
    ensures Refuses(InQuotes(chars) + rest, scan)
  {
    QuotedToken(chars, rest);
  }

  lemma RefusesFirstItem(s: string, scan: string -> Option<real>)
    requires Refuses(s, scan)
    ensures RefusesItems(s, scan)
  {
  }

  lemma RefusesLaterItem(s: string, v: Value, u: string, t: string, scan: string -> Option<real>)
    requires Reads(s, v, u, scan) && NextToken(u).kind == Separator && NextToken(u).rest == t
    requires RefusesItems(t, scan)
    ensures RefusesItems(s, scan)
  {
    forall index: nat, items ensures !ReadItems(s, index, items, scan).ok {
      ItemThenMore(s, index, items, v, u, t, scan);
      assert !ReadItems(t, index + 1, Put(items, Index(index), v), scan).ok;
    }
  }

  lemma RefusesArray(s: string, scan: string -> Option<real>)
    requires RefusesItems(s, scan) && (SkipBlanks(s) == "" || SkipBlanks(s)[0] != ']')
    ensures Refuses("[" + s, scan)
  {
    MarkToken('[', s, ArrayBegin);
    SkippedIsSame(s, 0, Empty, scan);
    assert ReadArray(s, scan) == ReadItems(s, 0, Empty, scan);
  }

  lemma RefusesObject(s: string, scan: string -> Option<real>)
    requires RefusesMembers(s, scan)
    ensures Refuses("{" + s, scan)
  {
    MarkToken('{', s, ObjectBegin);
    assert !ReadMembers(s, "", Empty, scan).ok;
  }

  lemma RefusesName(m: Member, s: string, scan: string -> Option<real>)
    requires NameOk(m) && !AllPaired(m.name)
    ensures RefusesMembers(m.before + (InQuotes(m.name) + s), scan)
  {
    QuotedToken(m.name, s);
    GapInFront(m.before, InQuotes(m.name) + s);
  }

  lemma MemberRefused(s: string, name: string, members: Entries, scan: string -> Option<real>)
    requires Refuses(s, scan)
    ensures !ReadMember(s, name, members, scan).ok
  {
    assert !ReadValue(s, Get(members, Name(CString(name))), scan).ok;
  }

  lemma RefusesThisMember(m: Member, s: string, scan: string -> Option<real>)
    requires NameOk(m) && AllPaired(m.name) && Refuses(s, scan)
    ensures RefusesMembers(m.before + (InQuotes(m.name) + (m.between + (":" + s))), scan)
  {
    hide ReadMembers, ReadMember;
    var text := m.before + (InQuotes(m.name) + (m.between + (":" + s)));
    forall before, members ensures !ReadMembers(text, before, members, scan).ok {
      NameRead(m, s, before, members, scan);
      MemberRefused(s, StringMeans(m.name), members, scan);
    }
  }

  lemma RefusesLaterMember(m: Member, s: string, v: Value, u: string, t: string, scan: string -> Option<real>)
    requires NameOk(m) && AllPaired(m.name)
    requires Reads(s, v, u, scan) && Separates(u, t, scan)
    requires RefusesMembers(t, scan)
    ensures RefusesMembers(m.before + (InQuotes(m.name) + (m.between + (":" + s))), scan)
  {
    hide ReadMembers, ReadMember;
    var text, name := m.before + (InQuotes(m.name) + (m.between + (":" + s))), StringMeans(m.name);
    forall before, members ensures !ReadMembers(text, before, members, scan).ok {
      NameRead(m, s, before, members, scan);
      MemberThenMore(s, name, members, v, u, t, scan);
      assert !ReadMembers(t, name, Put(members, Name(CString(name)), v), scan).ok;
    }
  }

  /** A brace behind a separator, where the last member has a name. */
  lemma RefusesDangling(m: Member, s: string, v: Value, u: string, gap: string, rest: string, scan: string -> Option<real>)
    requires NameOk(m) && AllPaired(m.name) && StringMeans(m.name) != "" && Gap(gap)
    requires Reads(s, v, u, scan) && Separates(u, gap + ("}" + rest), scan)
    ensures RefusesMembers(m.before + (InQuotes(m.name) + (m.between + (":" + s))), scan)
  {
    hide ReadMembers, ReadMember;
    var text, name := m.before + (InQuotes(m.name) + (m.between + (":" + s))), StringMeans(m.name);
    forall before, members ensures !ReadMembers(text, before, members, scan).ok {
      NameRead(m, s, before, members, scan);
      MemberThenMore(s, name, members, v, u, gap + ("}" + rest), scan);
      BraceBehindSeparator(gap, rest, name, Put(members, Name(CString(name)), v), scan);
    }
  }

  // ---- Every unreadable text --------------------------------------------------------------------------------

  lemma {:induction false} RefusesText(s: Syntax, rest: string, scan: string -> Option<real>)
    requires Conforming(s) && !Readable(s, scan) && (s.Numeral? ==> EndsNumber(rest))
    ensures Refuses(Render(s) + rest, scan)
    decreases s, 1
  {
    hide Refuses, RefusesItems, RefusesMembers;
    if s.Numeral? {
      RefusesNumber(s.text, rest, scan);
    } else if s.Quoted? {
      RefusesQuoted(s.chars, rest, scan);
    } else if s.Array? {
      Regroup("[", RenderItems(s.items), "]", rest);
      RefusesItemsText(s.items, rest, scan);
      FirstItemStarts(s.items, "]" + rest);
      RefusesArray(RenderItems(s.items) + ("]" + rest), scan);
    } else {
      Regroup("{", RenderMembers(s.members), "}", rest);
      RefusesMembersText(s.members, rest, scan);
      RefusesObject(RenderMembers(s.members) + ("}" + rest), scan);
    }
  }

  lemma {:induction false} RefusesPadded(p: Padded, more: string, scan: string -> Option<real>)
    requires PaddingOk(p) && Conforming(p.syntax) && !Readable(p.syntax, scan) && EndsNumber(p.after + more)
    ensures Refuses(Around(p, Render(p.syntax)) + more, scan)
    decreases p, 2
  {
    hide Refuses, Gap;
    var tail := p.after + more;
    RefusesText(p.syntax, tail, scan);
    RefusesBehindGap(p.before, Render(p.syntax) + tail, scan);
    Regroup(p.before, Render(p.syntax), p.after, more);
  }

  lemma {:induction false} RefusesItemsText(i: Items, rest: string, scan: string -> Option<real>)
    requires ConformingItems(i) && !ReadableItems(i, scan)
    ensures RefusesItems(RenderItems(i) + ("]" + rest), scan)
    decreases i, 0
  {
    hide Reads, Refuses, RefusesItems, Gap;
    var first := Around(i.item, Render(i.item.syntax));
    var t := if i.LastItem? then rest else RenderItems(i.more) + ("]" + rest);
    var end: string := if i.LastItem? then "]" else ",";
    if i.Item? { Regroup(first, ",", RenderItems(i.more), "]" + rest); }
    EndsBehindGap(i.item.after, end + t);
    if !Readable(i.item.syntax, scan) {
      RefusesPadded(i.item, end + t, scan);
      RefusesFirstItem(first + (end + t), scan);
    } else {
      ReadsPadded(i.item, end + t, scan);
      RefusesItemsText(i.more, rest, scan);
      GapMark(i.item.after, ',', t, Separator);
      RefusesLaterItem(first + ("," + t), Meaning(i.item.syntax, scan), i.item.after + ("," + t), t, scan);
    }
  }

  /** What follows the value of the first member: the closing brace, or a separator and the rest of the object. */
  function BehindValue(m: Members, rest: string): string {
    match m
    case LastMember(_) => "}" + rest
    case MoreMembers(_, sep, more) => sep + (RenderMembers(more) + ("}" + rest))
    case Dangling(_, sep, gap) => sep + (gap + ("}" + rest))
  }

  lemma MembersInPieces(m: Members, rest: string)
    ensures var x := m.member;
            RenderMembers(m) + ("}" + rest)
            == x.before + (InQuotes(x.name) + (x.between + (":" + (Around(x.value, Render(x.value.syntax)) + BehindValue(m, rest)))))
  {
    hide Render;
    var x := m.member;
    var value := Around(x.value, Render(x.value.syntax));
    match m {
      case LastMember(_) =>
      case MoreMembers(_, sep, more) => Regroup(Named(x, value), sep, RenderMembers(more), "}" + rest);
      case Dangling(_, sep, gap) => Regroup(Named(x, value), sep, gap, "}" + rest);
    }
    RegroupNamed(x.before, InQuotes(x.name), x.between, ":", value, BehindValue(m, rest));
  }

  lemma BehindEndsNumber(m: Members, rest: string)
    requires ConformingMembers(m)
    ensures EndsNumber(m.member.value.after + BehindValue(m, rest))
  {
    hide Gap, SepOk;
    var after := m.member.value.after;
    match m
    case LastMember(_) => EndsBehindGap(after, "}" + rest);
    case MoreMembers(_, sep, more) => SeparatorEndsNumber(after, sep, RenderMembers(more) + ("}" + rest));
    case Dangling(_, sep, gap) => SeparatorEndsNumber(after, sep, gap + ("}" + rest));
  }

  lemma {:induction false} RefusesMembersText(m: Members, rest: string, scan: string -> Option<real>)
    requires ConformingMembers(m) && !ReadableMembers(m, scan)
    ensures RefusesMembers(RenderMembers(m) + ("}" + rest), scan)
    decreases m, 0
  {
    hide Reads, Refuses, RefusesMembers, RenderMembers, Gap, SepOk;
    var x := m.member;
    var value, behind := Around(x.value, Render(x.value.syntax)), BehindValue(m, rest);
    MembersInPieces(m, rest);
    BehindEndsNumber(m, rest);
    if !AllPaired(x.name) {
      RefusesName(x, x.between + (":" + (value + behind)), scan);
    } else if !Readable(x.value.syntax, scan) {
      RefusesPadded(x.value, behind, scan);
      RefusesThisMember(x, value + behind, scan);
    } else {
      ReadsPadded(x.value, behind, scan);
      RefusesLater(m, value + behind, rest, scan);
    }
  }

  lemma {:induction false} RefusesLater(m: Members, s: string, rest: string, scan: string -> Option<real>)
    requires ConformingMembers(m) && !ReadableMembers(m, scan)
    requires AllPaired(m.member.name) && Readable(m.member.value.syntax, scan)
    requires Reads(s, Meaning(m.member.value.syntax, scan), m.member.value.after + BehindValue(m, rest), scan)
    ensures RefusesMembers(m.member.before + (InQuotes(m.member.name) + (m.member.between + (":" + s))), scan)
    decreases m, -1
  {
    hide Reads, RefusesMembers, RenderMembers, Gap, SepOk, Bounds, Separates;
    var x, v := m.member, Meaning(m.member.value.syntax, scan);
    if m.MoreMembers? {
      var t := RenderMembers(m.more) + ("}" + rest);
      RefusesMembersText(m.more, rest, scan);
      MembersBound(m.more, "}" + rest);
      GapSeparates(x.value.after, m.sep, t, scan);
      RefusesLaterMember(x, s, v, x.value.after + (m.sep + t), t, scan);
    } else {
      var t := m.gap + ("}" + rest);
      GapBounds(m.gap, '}', rest);
      GapSeparates(x.value.after, m.sep, t, scan);
      RefusesDangling(x, s, v, x.value.after + (m.sep + t), m.gap, rest, scan);
    }
  }

  // ---- Documents ------------------------------------------------------------------------------------------------

  /**
    A text of the grammar behind a gap is accepted if and only if it is
    readable, and then with its meaning and no error. What follows it never
    matters, except that it must not continue a number.
    */
  lemma TextBehindIsIgnored(front: string, s: Syntax, behind: string, root: Value, scan: string -> Option<real>)
    requires Gap(front) && Conforming(s) && (s.Numeral? ==> EndsNumber(behind))
    ensures Parse(front + (Render(s) + behind), root, scan).ok <==> Readable(s, scan)
    ensures Readable(s, scan) ==>
              var r := Parse(front + (Render(s) + behind), root, scan);
              r.value == Meaning(s, scan) && r.errors == [] && r.rest == NextToken(behind).rest
  {
    hide ReadValue, Render, Meaning, Readable, Conforming, Gap;
    var text := Render(s) + behind;
    if Readable(s, scan) {
      ReadsText(s, behind, scan);
      ReadsBehindGap(front, text, Meaning(s, scan), behind, scan);
      assert ReadValue(front + text, root, scan) == Read(true, Meaning(s, scan), behind, []);
    } else {
      RefusesText(s, behind, scan);
      RefusesBehindGap(front, text, scan);
      assert !ReadValue(front + text, root, scan).ok;
    }
  }

  /** A whole document: a text of the grammar with blanks and comments around it. */
  lemma DocumentIff(p: Padded, root: Value, scan: string -> Option<real>)
    requires PaddingOk(p) && Conforming(p.syntax)
    ensures Parse(Around(p, Render(p.syntax)), root, scan).ok <==> Readable(p.syntax, scan)
    ensures Readable(p.syntax, scan) ==>
              Parse(Around(p, Render(p.syntax)), root, scan) == Read(true, Meaning(p.syntax, scan), "", [])
  {
    hide ReadValue, Render, Meaning, Readable, Conforming, Gap, NextToken;
    EndsBehindGap(p.after, "");
    TextBehindIsIgnored(p.before, p.syntax, p.after, root, scan);
    assert Around(p, Render(p.syntax)) == p.before + (Render(p.syntax) + p.after);
    GapInFront(p.after, "");
    NoToken();
    assert p.after + "" == p.after;
  }

  lemma NoToken()
    ensures NextToken("").rest == ""
  {
  }

  lemma DocumentIsRead(p: Padded, root: Value, scan: string -> Option<real>)
    requires PaddingOk(p) && Readable(p.syntax, scan)
    ensures Parse(Around(p, Render(p.syntax)), root, scan) == Read(true, Meaning(p.syntax, scan), "", [])
  {
    TextConforms(p.syntax, scan);
    DocumentIff(p, root, scan);
  }

  /** Texts of the grammar that are refused: a string that is half a surrogate pair. */
  lemma LoneSurrogateIsRefused(hex: string, root: Value, scan: string -> Option<real>)
    requires FourHex(hex) && IsHighSurrogate(HexNumber(hex).value)
    ensures Conforming(Quoted([Unicode(hex)]))
    ensures !Parse("\"\\u" + hex + "\"", root, scan).ok
  {
    hide Parse, HexNumber;
    var s := [Unicode(hex)];
    assert s[1..] == [] && AllSpelled(s) == "\\u" + hex;
    assert InQuotes(s) == "\"\\u" + hex + "\"";
    var p := Padded("", Quoted(s), "");
    assert Around(p, InQuotes(s)) == InQuotes(s);
    DocumentIff(p, root, scan);
  }

  lemma HexAppend(s: string, c: char, n: nat, d: nat)
    requires HexNumber(s) == Some(n) && HexValue(c) == Some(d)
    ensures HexNumber(s + [c]) == Some(16 * n + d)
  {
    assert (s + [c])[..|s|] == s;
  }

  lemma SurrogateDigits(hex: string)
    requires hex == "D800"
    ensures HexNumber(hex) == Some(0xD800)
  {
    hide HexNumber;
    HexOfNothing();
    HexAppend("", 'D', 0, 13);
    HexAppend("" + ['D'], '8', 0xD, 8);
    HexAppend("" + ['D'] + ['8'], '0', 0xD8, 0);
    HexAppend("" + ['D'] + ['8'] + ['0'], '0', 0xD80, 0);
    assert "" + ['D'] + ['8'] + ['0'] + ['0'] == hex;
  }

  /** One of them. */
  lemma LoneSurrogateWitness(root: Value, scan: string -> Option<real>)
    ensures !Parse("\"\\uD800\"", root, scan).ok
  {
    hide Parse, HexNumber;
    var hex := "D800";
    SurrogateDigits(hex);
    LoneSurrogateIsRefused(hex, root, scan);
    assert "\"\\u" + hex + "\"" == "\"\\uD800\"";
  }

  lemma HexOfNothing()
    ensures HexNumber("") == Some(0)
  {
  }

  // ---- A comma too many --------------------------------------------------------------------------------------------

  function LastName(m: Members): seq<Spelling> {
    if m.MoreMembers? then LastName(m.more) else m.member.name
  }

  lemma {:induction false} LastNameOk(m: Members, scan: string -> Option<real>)
    requires ReadableMembers(m, scan)
    ensures SpellingsOk(LastName(m)) && AllPaired(LastName(m))
  {
    if m.MoreMembers? { LastNameOk(m.more, scan); }
  }

  /** The members with a comma behind the last one. */
  function WithComma(m: Members, gap: string): Members
    requires !EndsDangling(m)
  {
    match m
    case LastMember(x) => Dangling(x, ",", gap)
    case MoreMembers(x, sep, more) => MoreMembers(x, sep, WithComma(more, gap))
  }

  predicate EndsDangling(m: Members) {
    m.Dangling? || (m.MoreMembers? && EndsDangling(m.more))
  }

  lemma {:induction false} CommaBehindMembers(m: Members, gap: string, e: Entries, scan: string -> Option<real>)
    requires ReadableMembers(m, scan) && !EndsDangling(m) && Gap(gap)
    requires SpellingsOk(LastName(m)) && AllPaired(LastName(m))
    ensures RenderMembers(WithComma(m, gap)) == RenderMembers(m) + ("," + gap)
    ensures ConformingMembers(WithComma(m, gap))
    ensures ReadableMembers(WithComma(m, gap), scan) <==> StringMeans(LastName(m)) == ""
    ensures ReadableMembers(WithComma(m, gap), scan) ==>
              AddMembers(WithComma(m, gap), e, scan) == AddMembers(m, e, scan)
    decreases m
  {
    hide Gap, SepOk, StringMeans, Render, AllPaired;
    var x := m.member;
    var first := Named(x, Around(x.value, Render(x.value.syntax)));
    TextConforms(x.value.syntax, scan);
    if m.LastMember? {
      assert first + "," + gap == first + ("," + gap);
      assert SepOk(x.value.after, ",") by { CommaIsOk(x.value.after); }
    } else {
      CommaBehindMembers(m.more, gap, Put(e, MemberKey(x), Meaning(x.value.syntax, scan)), scan);
      assert first + m.sep + (RenderMembers(m.more) + ("," + gap)) == first + m.sep + RenderMembers(m.more) + ("," + gap);
    }
  }

  lemma CommaIsOk(after: string)
    ensures SepOk(after, ",")
  {
  }

  /**
    An object with a comma behind its last member is accepted, with that
    object's meaning, if and only if the last member's name is empty.
    */
  lemma TrailingCommaIff(m: Members, gap: string, behind: string, root: Value, scan: string -> Option<real>)
    requires ReadableMembers(m, scan) && !EndsDangling(m) && Gap(gap)
    ensures SpellingsOk(LastName(m)) && AllPaired(LastName(m))
    ensures var r := Parse("{" + (RenderMembers(m) + ("," + (gap + ("}" + behind)))), root, scan);
            && (r.ok <==> StringMeans(LastName(m)) == "")
            && (r.ok ==> r.value == Meaning(Object(m), scan) && r.errors == [])
  {
    hide Parse, StringMeans, RenderMembers, Gap, AllPaired, ReadableMembers, AddMembers;
    LastNameOk(m, scan);
    CommaBehindMembers(m, gap, Empty, scan);
    var x := Object(WithComma(m, gap));
    NoGap();
    TextBehindIsIgnored("", x, behind, root, scan);
    CommaInPieces(RenderMembers(m), gap, behind);
  }

  lemma NoGap()
    ensures Gap("")
  {
  }

  lemma CommaInPieces(m: string, gap: string, behind: string)
    ensures "" + ("{" + (m + ("," + gap)) + "}" + behind) == "{" + (m + ("," + (gap + ("}" + behind))))
  {
  }

  /** Such documents: a nameless member, whatever its value, and a comma. */
  lemma TrailingCommaIsAccepted(p: Padded, root: Value, scan: string -> Option<real>)
    requires PaddingOk(p) && Readable(p.syntax, scan)
    ensures Parse("{\"\":" + Around(p, Render(p.syntax)) + ",}", root, scan).ok
  {
    hide Parse, Render, Readable;
    var m, value := LastMember(Member("", [], "", p)), Around(p, Render(p.syntax));
    NamelessMember(p);
    TrailingCommaIff(m, "", "", root, scan);
    assert "{" + ("\"\":" + value + ("," + ("" + ("}" + "")))) == "{\"\":" + value + ",}";
  }

  lemma NamelessMember(p: Padded)
    ensures RenderMembers(LastMember(Member("", [], "", p))) == "\"\":" + Around(p, Render(p.syntax))
  {
    assert InQuotes([]) == "\"\"";
    assert "" + "\"\"" + "" + ":" == "\"\":";
  }
}
