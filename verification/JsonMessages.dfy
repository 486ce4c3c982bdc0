/**
  What is reported of a document that is refused: one error, with the message
  for what is missing and the place of the token found instead, wherever in an
  array or an object the reader has got to.
  */
module JsonMessages {
  import opened JsonValue
  import opened JsonLexer
  import opened JsonReading
  import opened JsonSyntax
  import opened JsonConformance
  import opened JsonAcceptance
  import opened Text
  import opened Wrappers

  // ---- Behind the items of an array -----------------------------------------------------------------------

  function CountItems(i: Items): nat {
    if i.LastItem? then 1 else 1 + CountItems(i.more)
  }

  /** Behind items and a comma the reader goes on with what follows, as at the start, whatever it is. */
  lemma {:induction false} BehindItems(i: Items, t: string, index: nat, items: Entries, scan: string -> Option<real>)
    requires ReadableItems(i, scan)
    ensures ReadItems(RenderItems(i) + ("," + t), index, items, scan)
         == ReadItems(t, index + CountItems(i), AddItems(i, index, items, scan), scan)
    decreases i
  {
    hide Reads, ReadItems, Gap, Meaning, NextToken, Readable;
    var p, v := i.item, Meaning(i.item.syntax, scan);
    var first := Around(p, Render(p.syntax));
    var next := if i.LastItem? then t else RenderItems(i.more) + ("," + t);
    EndsBehindGap(p.after, "," + next);
    ReadsPadded(p, "," + next, scan);
    GapMark(p.after, ',', next, Separator);
    ItemThenMore(first + ("," + next), index, items, v, p.after + ("," + next), next, scan);
    if i.Item? {
      Regroup(first, ",", RenderItems(i.more), "," + t);
      BehindItems(i.more, t, index + 1, Put(items, Index(index), v), scan);
    }
  }

  /** The items read so far, with a comma behind each. */
  function FrontItems(front: Option<Items>): string {
    if front.None? then "" else RenderItems(front.value) + ","
  }

  ghost predicate FrontItemsOk(front: Option<Items>, scan: string -> Option<real>) {
    front.Some? ==> ReadableItems(front.value, scan)
  }

  ghost predicate OpensWithBracket(t: string) {
    SkipBlanks(t) != "" && SkipBlanks(t)[0] == ']'
  }

  lemma ArrayOpens(s: string, was: Value, scan: string -> Option<real>)
    ensures !OpensWithBracket(s) ==> ReadValue("[" + s, was, scan) == ReadItems(s, 0, Empty, scan)
  {
    hide ReadItems, SkipBlanks;
    MarkToken('[', s, ArrayBegin);
    SkippedIsSame(s, 0, Empty, scan);
  }

  /** An array is read up to the text `t` at the start of an item. */
  lemma AtItem(front: Option<Items>, t: string, was: Value, scan: string -> Option<real>) returns (index: nat, items: Entries)
    requires FrontItemsOk(front, scan) && (front.None? ==> !OpensWithBracket(t))
    ensures ReadValue("[" + (FrontItems(front) + t), was, scan) == ReadItems(t, index, items, scan)
  {
    hide ReadItems, RenderItems, ReadValue, SkipBlanks, AddItems;
    var s := FrontItems(front) + t;
    ArrayOpens(s, was, scan);
    if front.None? {
      index, items := 0, Empty;
      assert s == t;
    } else {
      var i := front.value;
      index, items := CountItems(i), AddItems(i, 0, Empty, scan);
      assert s == RenderItems(i) + ("," + t);
      ItemsConform(i, scan);
      FirstItemStarts(i, "," + t);
      BehindItems(i, t, 0, Empty, scan);
    }
  }

  lemma ItemRefused(t: string, index: nat, items: Entries, scan: string -> Option<real>)
    requires !ReadValue(t, Null, scan).ok
    ensures ReadItems(t, index, items, scan).errors == ReadValue(t, Null, scan).errors
  {
    hide ReadValue;
  }

  /** What is wrong with an item is wrong with the array. */
  lemma WrongItem(front: Option<Items>, t: string, root: Value, scan: string -> Option<real>)
    requires FrontItemsOk(front, scan) && (front.None? ==> !OpensWithBracket(t)) && !ReadValue(t, Null, scan).ok
    ensures Parse("[" + (FrontItems(front) + t), root, scan).errors == ReadValue(t, Null, scan).errors
  {
    hide ReadValue, FrontItems, OpensWithBracket;
    var index, items := AtItem(front, t, root, scan);
    ItemRefused(t, index, items, scan);
  }

  lemma ItemEnds(p: Padded, tail: string, index: nat, items: Entries, scan: string -> Option<real>)
    requires PaddingOk(p) && Readable(p.syntax, scan) && EndsNumber(p.after + tail)
    requires NextToken(tail).kind != ArrayEnd && NextToken(tail).kind != Separator
    ensures ReadItems(Around(p, Render(p.syntax)) + tail, index, items, scan).errors
         == [Error(MissingSeparator, |NextToken(tail).rest|)]
  {
    hide Reads, Gap, NextToken, Meaning, Readable, Render, ReadItems;
    ReadsPadded(p, tail, scan);
    GapInFront(p.after, tail);
    ItemThenOther(Around(p, Render(p.syntax)) + tail, index, items, Meaning(p.syntax, scan), p.after + tail, scan);
  }

  lemma ItemThenOther(s: string, index: nat, items: Entries, v: Value, u: string, scan: string -> Option<real>)
    requires Reads(s, v, u, scan) && NextToken(u).kind != ArrayEnd && NextToken(u).kind != Separator
    ensures ReadItems(s, index, items, scan).errors == [Error(MissingSeparator, |NextToken(u).rest|)]
  {
    hide ReadValue, NextToken;
    assert ReadValue(s, Null, scan) == Read(true, v, u, []);
  }

  /** Behind an item, a token that is neither a comma nor a closing bracket is where one of them is missed. */
  lemma NoSeparator(front: Option<Items>, p: Padded, tail: string, root: Value, scan: string -> Option<real>)
    requires FrontItemsOk(front, scan) && PaddingOk(p) && Readable(p.syntax, scan) && EndsNumber(p.after + tail)
    requires NextToken(tail).kind != ArrayEnd && NextToken(tail).kind != Separator
    ensures Parse("[" + (FrontItems(front) + (Around(p, Render(p.syntax)) + tail)), root, scan).errors
         == [Error(MissingSeparator, |NextToken(tail).rest|)]
  {
    hide ReadValue, FrontItems, Gap, Readable, ReadItems, NextToken;
    var t := Around(p, Render(p.syntax)) + tail;
    TextConforms(p.syntax, scan);
    FirstItemStarts(LastItem(p), tail);
    var index, items := AtItem(front, t, root, scan);
    ItemEnds(p, tail, index, items, scan);
  }

  // ---- Behind the members of an object ----------------------------------------------------------------------

  lemma CommaSeparates(after: string, t: string, scan: string -> Option<real>)
    requires Gap(after)
    ensures Separates(after + ("," + t), t, scan)
  {
    hide NextToken, ReadMembers, IsComment, ReadToken;
    if Blank(after) {
      PaddedMark(after, ',', t, Separator);
    } else {
      var b, c, more := FirstComment(after);
      assert after + ("," + t) == b + (c + (more + ("," + t)));
      GapMark(more, ',', t, Separator);
      forall name, members
        ensures AfterMember(after + ("," + t), name, members, scan) == ReadMembers(t, name, members, scan)
      {
        BehindComment(b, c, more + ("," + t), name, members, scan);
      }
    }
  }

  /** A readable member and a separator: the reader goes on with what follows. */
  lemma BehindMember(m: Member, sep: string, t: string, before: string, members: Entries, scan: string -> Option<real>)
    requires NameOk(m) && AllPaired(m.name) && PaddingOk(m.value) && Readable(m.value.syntax, scan)
    requires EndsNumber(m.value.after + (sep + t)) && Separates(m.value.after + (sep + t), t, scan)
    ensures ReadMembers(Named(m, Around(m.value, Render(m.value.syntax))) + (sep + t), before, members, scan)
         == ReadMembers(t, StringMeans(m.name), Put(members, MemberKey(m), Meaning(m.value.syntax, scan)), scan)
  {
    hide Reads, ReadMembers, ReadMember, Separates, Gap, Meaning, Readable, Render, InQuotes, StringMeans;
    var value := Around(m.value, Render(m.value.syntax));
    ReadsPadded(m.value, sep + t, scan);
    RegroupNamed(m.before, InQuotes(m.name), m.between, ":", value, sep + t);
    NameRead(m, value + (sep + t), before, members, scan);
    MemberThenMore(value + (sep + t), StringMeans(m.name), members, Meaning(m.value.syntax, scan),
                   m.value.after + (sep + t), t, scan);
  }

  /** Behind members and a comma the reader goes on with what follows, whatever it is. */
  lemma {:induction false} BehindMembers(m: Members, t: string, before: string, members: Entries, scan: string -> Option<real>)
    requires ReadableMembers(m, scan) && !EndsDangling(m)
    ensures SpellingsOk(LastName(m)) && AllPaired(LastName(m))
    ensures ReadMembers(RenderMembers(m) + ("," + t), before, members, scan)
         == ReadMembers(t, StringMeans(LastName(m)), AddMembers(m, members, scan), scan)
    decreases m
  {
    hide ReadMembers, Separates, Gap, SepOk, Meaning, Readable, Render, StringMeans, Bounds;
    LastNameOk(m, scan);
    var x := m.member;
    var first := Named(x, Around(x.value, Render(x.value.syntax)));
    if m.LastMember? {
      EndsBehindGap(x.value.after, "," + t);
      CommaSeparates(x.value.after, t, scan);
      BehindMember(x, ",", t, before, members, scan);
    } else {
      var next := RenderMembers(m.more) + ("," + t);
      SeparatorEndsNumber(x.value.after, m.sep, next);
      MembersBound(m.more, "," + t);
      GapSeparates(x.value.after, m.sep, next, scan);
      BehindMember(x, m.sep, next, before, members, scan);
      Regroup(first, m.sep, RenderMembers(m.more), "," + t);
      BehindMembers(m.more, t, StringMeans(x.name), Put(members, MemberKey(x), Meaning(x.value.syntax, scan)), scan);
    }
  }

  /** The members read so far, with a comma behind the last. */
  function FrontMembers(front: Option<Members>): string {
    if front.None? then "" else RenderMembers(front.value) + ","
  }

  ghost predicate FrontMembersOk(front: Option<Members>, scan: string -> Option<real>) {
    front.Some? ==> ReadableMembers(front.value, scan) && !EndsDangling(front.value)
  }

  /** The name of the last of them. */
  ghost function NameBefore(front: Option<Members>, scan: string -> Option<real>): string
    requires FrontMembersOk(front, scan)
  {
    if front.None? then "" else
      LastNameOk(front.value, scan);
      StringMeans(LastName(front.value))
  }

  ghost function MembersBefore(front: Option<Members>, scan: string -> Option<real>): Entries
    requires FrontMembersOk(front, scan)
  {
    if front.None? then Empty else AddMembers(front.value, Empty, scan)
  }

  lemma ObjectOpens(s: string, was: Value, scan: string -> Option<real>)
    ensures ReadValue("{" + s, was, scan) == ReadMembers(s, "", Empty, scan)
  {
    hide ReadMembers;
    MarkToken('{', s, ObjectBegin);
  }

  /** An object is read up to the text `t` at the start of a member. */
  lemma AtMember(front: Option<Members>, t: string, was: Value, scan: string -> Option<real>)
    requires FrontMembersOk(front, scan)
    ensures ReadValue("{" + (FrontMembers(front) + t), was, scan)
         == ReadMembers(t, NameBefore(front, scan), MembersBefore(front, scan), scan)
  {
    hide ReadMembers, RenderMembers, StringMeans, AddMembers, ReadValue, ReadableMembers, AllPaired, SpellingsOk;
    var s := FrontMembers(front) + t;
    ObjectOpens(s, was, scan);
    if front.None? {
      assert s == t;
    } else {
      assert s == RenderMembers(front.value) + ("," + t);
      BehindMembers(front.value, t, "", Empty, scan);
    }
  }

  lemma NameMissed(t: string, before: string, members: Entries, scan: string -> Option<real>)
    requires NextToken(t).kind != StringKind && (NextToken(t).kind == ObjectEnd ==> before != "")
    ensures ReadMembers(t, before, members, scan).errors == [Error(MissingName, |NextToken(t).rest|)]
  {
    hide NextToken, Recover;
  }

  /**
    Where a member may start, a token that is no string is where a name is
    missed, unless it closes the object behind no name.
    */
  lemma NoName(front: Option<Members>, t: string, root: Value, scan: string -> Option<real>)
    requires FrontMembersOk(front, scan) && NextToken(t).kind != StringKind
    requires NextToken(t).kind == ObjectEnd ==> NameBefore(front, scan) != ""
    ensures Parse("{" + (FrontMembers(front) + t), root, scan).errors == [Error(MissingName, |NextToken(t).rest|)]
  {
    hide ReadMembers, FrontMembers, NameBefore, MembersBefore, NextToken, ReadValue;
    AtMember(front, t, root, scan);
    NameMissed(t, NameBefore(front, scan), MembersBefore(front, scan), scan);
  }

  lemma ColonMissed(gap: string, name: seq<Spelling>, tail: string, before: string, members: Entries,
                    scan: string -> Option<real>)
    requires Gap(gap) && SpellingsOk(name) && AllPaired(name) && ReadToken(tail).kind != Colon
    ensures ReadMembers(gap + (InQuotes(name) + tail), before, members, scan).errors
         == [Error(MissingColon, |ReadToken(tail).rest|)]
  {
    hide ReadToken, Gap, Recover, ReadMember;
    QuotedToken(name, tail);
    GapInFront(gap, InQuotes(name) + tail);
  }

  /** Behind a name, a token that is no colon is where one is missed; a comment is no exception. */
  lemma NoColon(front: Option<Members>, gap: string, name: seq<Spelling>, tail: string, root: Value,
                scan: string -> Option<real>)
    requires FrontMembersOk(front, scan) && Gap(gap) && SpellingsOk(name) && AllPaired(name)
    requires ReadToken(tail).kind != Colon
    ensures Parse("{" + (FrontMembers(front) + (gap + (InQuotes(name) + tail))), root, scan).errors
         == [Error(MissingColon, |ReadToken(tail).rest|)]
  {
    hide ReadMembers, FrontMembers, NameBefore, MembersBefore, ReadToken, ReadValue, Gap, InQuotes;
    AtMember(front, gap + (InQuotes(name) + tail), root, scan);
    ColonMissed(gap, name, tail, NameBefore(front, scan), MembersBefore(front, scan), scan);
  }

  lemma ValueRefused(s: string, name: string, members: Entries, scan: string -> Option<real>)
    requires !ReadValue(s, Get(members, Name(CString(name))), scan).ok
    ensures ReadMember(s, name, members, scan).errors == ReadValue(s, Get(members, Name(CString(name))), scan).errors
  {
    hide ReadValue;
  }

  /** What is wrong with the value of a member is wrong with the object. */
  lemma WrongMember(front: Option<Members>, m: Member, s: string, root: Value, scan: string -> Option<real>)
    requires FrontMembersOk(front, scan) && NameOk(m) && AllPaired(m.name)
    requires !ReadValue(s, Get(MembersBefore(front, scan), MemberKey(m)), scan).ok
    ensures Parse("{" + (FrontMembers(front) + (m.before + (InQuotes(m.name) + (m.between + (":" + s))))), root, scan).errors
         == ReadValue(s, Get(MembersBefore(front, scan), MemberKey(m)), scan).errors
  {
    hide ReadMembers, ReadMember, FrontMembers, NameBefore, MembersBefore, ReadValue, Gap, InQuotes, StringMeans;
    var members := MembersBefore(front, scan);
    AtMember(front, m.before + (InQuotes(m.name) + (m.between + (":" + s))), root, scan);
    NameRead(m, s, NameBefore(front, scan), members, scan);
    ValueRefused(s, StringMeans(m.name), members, scan);
  }

  lemma MemberThenOther(s: string, name: string, members: Entries, v: Value, u: string, scan: string -> Option<real>)
    requires Reads(s, v, u, scan) && ReadToken(u).kind !in {ObjectEnd, Separator, Comment}
    ensures ReadMember(s, name, members, scan).errors == [Error(MissingComma, |ReadToken(u).rest|)]
  {
    hide ReadValue, ReadToken;
    assert ReadValue(s, Get(members, Name(CString(name))), scan) == Read(true, v, u, []);
  }

  /** Behind a member, a token that is no comma, closing brace or comment is where a comma or a brace is missed. */
  lemma NoComma(front: Option<Members>, m: Member, tail: string, root: Value, scan: string -> Option<real>)
    requires FrontMembersOk(front, scan) && NameOk(m) && AllPaired(m.name)
    requires PaddingOk(m.value) && Readable(m.value.syntax, scan) && Blank(m.value.after)
    requires EndsNumber(m.value.after + tail) && ReadToken(tail).kind !in {ObjectEnd, Separator, Comment}
    ensures Parse("{" + (FrontMembers(front) + (Named(m, Around(m.value, Render(m.value.syntax))) + tail)), root, scan).errors
         == [Error(MissingComma, |ReadToken(tail).rest|)]
  {
    hide Reads, ReadMembers, ReadMember, FrontMembers, NameBefore, MembersBefore, ReadValue, Gap, InQuotes, StringMeans,
      ReadToken, Meaning, Readable, Render, Blank;
    var value, members := Around(m.value, Render(m.value.syntax)), MembersBefore(front, scan);
    ReadsPadded(m.value, tail, scan);
    BlankInFront(m.value.after, tail);
    RegroupNamed(m.before, InQuotes(m.name), m.between, ":", value, tail);
    AtMember(front, Named(m, value) + tail, root, scan);
    NameRead(m, value + tail, NameBefore(front, scan), members, scan);
    MemberThenOther(value + tail, StringMeans(m.name), members, Meaning(m.value.syntax, scan), m.value.after + tail, scan);
  }

  // ---- Where a value is wanted --------------------------------------------------------------------------------

  /** A token that starts no value is where one is missed. */
  lemma NoValue(gap: string, s: string, root: Value, scan: string -> Option<real>)
    requires Gap(gap)
    requires NextToken(s).kind !in {ObjectBegin, ArrayBegin, StringKind, NumberKind, TrueKind, FalseKind, NullKind}
    ensures Parse(gap + s, root, scan).errors == [Error(ValueExpected, |NextToken(s).rest|)]
  {
    hide NextToken, Gap;
    GapInFront(gap, s);
  }

  /** A number that cannot be read is reported as such. */
  lemma NoNumber(gap: string, text: string, tail: string, root: Value, scan: string -> Option<real>)
    requires Gap(gap) && NumberText(text) && !DecodeNumber(text, scan).Number? && EndsNumber(tail)
    ensures Parse(gap + (text + tail), root, scan).errors == [Error(NotANumber, |tail|)]
  {
    hide NextToken, Gap, DecodeNumber, ReadToken;
    NumberToken(text, tail);
    GapInFront(gap, text + tail);
    NumberIsNext(text, tail);
  }

  lemma NumberIsNext(text: string, tail: string)
    requires ReadToken(text + tail) == Token(NumberKind, text, tail)
    ensures NextToken(text + tail) == Token(NumberKind, text, tail)
  {
  }
}
