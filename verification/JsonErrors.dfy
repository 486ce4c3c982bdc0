/** Every error the reader records is located at a token of the document. */
module JsonErrors {
  import opened JsonValue
  import opened JsonLexer
  import opened JsonReading
  import opened Text
  import opened Wrappers

  ghost predicate Suffix(u: string, s: string) {
    |u| <= |s| && u == s[|s| - |u|..]
  }

  lemma SuffixTransitive(u: string, t: string, s: string)
    requires Suffix(u, t) && Suffix(t, s)
    ensures Suffix(u, s)
  {
  }

  lemma Whole(s: string)
    ensures Suffix(s, s)
  {
  }

  // ---- The scanner only drops a prefix ------------------------------------------------------------------

  lemma {:induction false} BlanksArePrefix(s: string)
    ensures Suffix(SkipBlanks(s), s)
  {
    if s != "" { BlanksArePrefix(s[1..]); }
  }

  lemma {:induction false} NumberIsPrefix(s: string)
    ensures Suffix(AfterNumber(s), s)
  {
    if s != "" { NumberIsPrefix(s[1..]); }
  }

  lemma {:induction false} StringIsPrefix(s: string)
    ensures Suffix(AfterString(s).rest, s)
  {
    if s != "" && s[0] == '\\' && |s| > 1 {
      StringIsPrefix(s[2..]);
    } else if s != "" {
      StringIsPrefix(s[1..]);
    }
  }

  lemma {:induction false} BlockIsPrefix(s: string)
    ensures Suffix(AfterBlock(s).rest, s)
  {
    if s != "" { BlockIsPrefix(s[1..]); }
  }

  lemma {:induction false} LineIsPrefix(s: string)
    ensures Suffix(AfterLine(s), s)
  {
    if s != "" { LineIsPrefix(s[1..]); }
  }

  lemma CommentIsPrefix(s: string)
    ensures Suffix(AfterComment(s).rest, s)
  {
    if s != "" {
      BlockIsPrefix(s[1..]);
      LineIsPrefix(s[1..]);
    }
  }

  lemma WordIsPrefix(s: string, word: string)
    ensures Suffix(AfterWord(s, word).rest, s)
  {
  }

  lemma ClassifiedIsPrefix(c: char, s: string)
    ensures Suffix(Classify(c, s).1, s)
  {
    hide AfterString, AfterComment, AfterNumber, AfterWord;
    WordIsPrefix(s, "rue");
    WordIsPrefix(s, "alse");
    WordIsPrefix(s, "ull");
    StringIsPrefix(s);
    CommentIsPrefix(s);
    NumberIsPrefix(s);
  }

  lemma TokenIsPrefix(s: string)
    ensures Suffix(ReadToken(s).rest, s)
  {
    hide Classify;
    var u := SkipBlanks(s);
    BlanksArePrefix(s);
    if u != "" {
      ClassifiedIsPrefix(u[0], u[1..]);
      SuffixTransitive(u[1..], u, s);
      SuffixTransitive(ReadToken(s).rest, u[1..], s);
    }
  }

  // ---- Positions between tokens ---------------------------------------------------------------

  /** What is left of the document behind its first `n` tokens. */
  function AfterTokens(s: string, n: nat): string
    decreases n
  {
    if n == 0 then s else AfterTokens(ReadToken(s).rest, n - 1)
  }

  lemma {:induction false} AfterMoreTokens(s: string, n: nat, m: nat)
    ensures AfterTokens(AfterTokens(s, n), m) == AfterTokens(s, n + m)
    decreases n
  {
    hide ReadToken;
    if n > 0 { AfterMoreTokens(ReadToken(s).rest, n - 1, m); }
  }

  lemma {:induction false} TokensArePrefix(s: string, n: nat)
    ensures Suffix(AfterTokens(s, n), s)
    decreases n
  {
    hide ReadToken, Suffix;
    if n == 0 {
      Whole(s);
    } else {
      TokenIsPrefix(s);
      TokensArePrefix(ReadToken(s).rest, n - 1);
      SuffixTransitive(AfterTokens(s, n), ReadToken(s).rest, s);
    }
  }

  /** `u` is what is left behind some token of `s`, counted from the front. */
  ghost predicate Behind(u: string, s: string) {
    exists n: nat :: n > 0 && u == AfterTokens(s, n)
  }

  lemma BehindToken(s: string)
    ensures Behind(ReadToken(s).rest, s)
  {
    assert AfterTokens(ReadToken(s).rest, 0) == ReadToken(s).rest;
    assert AfterTokens(s, 1) == ReadToken(s).rest;
  }

  lemma BehindTransitive(u: string, t: string, s: string)
    requires Behind(u, t) && Behind(t, s)
    ensures Behind(u, s)
  {
    hide AfterTokens;
    var n: nat :| n > 0 && u == AfterTokens(t, n);
    var m: nat :| m > 0 && t == AfterTokens(s, m);
    AfterMoreTokens(s, m, n);
    assert u == AfterTokens(s, m + n);
  }

  /** Blanks in front make no difference. */
  lemma BehindBlanks(u: string, s: string)
    requires Behind(u, SkipBlanks(s))
    ensures Behind(u, s)
  {
    var t := SkipBlanks(s);
    var n: nat :| n > 0 && u == AfterTokens(t, n);
    assert SkipBlanks(t) == t;
    assert ReadToken(t) == ReadToken(s);
    assert AfterTokens(s, n) == AfterTokens(t, n);
  }

  /** Behind the comments there is one token of the document. */
  lemma {:induction false} BehindNext(s: string)
    ensures Behind(NextToken(s).rest, s)
    decreases |s|
  {
    hide ReadToken, Behind;
    var t := ReadToken(s);
    BehindToken(s);
    if t.kind == Comment {
      BehindNext(t.rest);
      BehindTransitive(NextToken(t.rest).rest, t.rest, s);
    }
  }

  lemma {:induction false} BehindRecovery(s: string, until: Kind)
    ensures Behind(Recover(s, until), s)
    decreases |s|
  {
    hide ReadToken, Behind;
    var t := ReadToken(s);
    BehindToken(s);
    if t.kind != until && t.kind != EndOfStream {
      BehindRecovery(t.rest, until);
      BehindTransitive(Recover(t.rest, until), t.rest, s);
    }
  }

  // ---- Every error points to a token ------------------------------------------------------------------------

  /** The error is at the end of a token, of those the document consists of when it is read from its start. */
  ghost predicate AtToken(e: Error, s: string) {
    exists u :: Behind(u, s) && e.left == |u|
  }

  /** So it is inside the document. */
  lemma TokenIsInside(e: Error, s: string)
    requires AtToken(e, s)
    ensures e.left <= |s|
  {
    hide AfterTokens;
    var u :| Behind(u, s) && e.left == |u|;
    var n: nat :| n > 0 && u == AfterTokens(s, n);
    TokensArePrefix(s, n);
  }

  ghost predicate Located(r: Read, s: string) {
    Behind(r.rest, s) && forall i | 0 <= i < |r.errors| :: AtToken(r.errors[i], s)
  }

  lemma LocatedBefore(r: Read, t: string, s: string)
    requires Located(r, t) && Behind(t, s)
    ensures Located(r, s)
  {
    hide Behind;
    BehindTransitive(r.rest, t, s);
    forall i | 0 <= i < |r.errors| ensures AtToken(r.errors[i], s) {
      var u :| Behind(u, t) && r.errors[i].left == |u|;
      BehindTransitive(u, t, s);
    }
  }

  lemma LocatedBehindBlanks(r: Read, s: string)
    requires Located(r, SkipBlanks(s))
    ensures Located(r, s)
  {
    hide Behind;
    BehindBlanks(r.rest, s);
    forall i | 0 <= i < |r.errors| ensures AtToken(r.errors[i], s) {
      var u :| Behind(u, SkipBlanks(s)) && r.errors[i].left == |u|;
      BehindBlanks(u, s);
    }
  }

  /** A failure at a token of `s`, recovered from behind it. */
  lemma FailIsLocated(value: Value, token: Token, until: Kind, message: Message, s: string)
    requires Behind(token.rest, s)
    ensures Located(Fail(value, token.rest, message, token), s)
    ensures Located(Fail(value, Recover(token.rest, until), message, token), s)
  {
    hide Behind, Recover;
    var t := token.rest;
    BehindRecovery(t, until);
    BehindTransitive(Recover(t, until), t, s);
    assert AtToken(Error(message, |t|), s);
  }

  lemma RecoveredIsLocated(r: Read, value: Value, until: Kind, s: string)
    requires Located(r, s)
    ensures Located(Read(false, value, Recover(r.rest, until), r.errors), s)
  {
    hide Behind;
    BehindRecovery(r.rest, until);
    BehindTransitive(Recover(r.rest, until), r.rest, s);
  }

  lemma ScalarIsLocated(s: string, was: Value, scan: string -> Option<real>)
    ensures Located(ReadScalar(NextToken(s), was, scan), s)
  {
    hide NextToken, ReadToken, Recover, Behind;
    var t := NextToken(s);
    BehindNext(s);
    var r := ReadScalar(t, was, scan);
    if !r.ok {
      FailIsLocated(was, t, EndOfStream, r.errors[0].message, s);
    }
  }

  /**
    Whatever the document, reading ends behind one of its tokens, and so does
    every error recorded, when the document is cut into tokens from its start.
    */
  lemma {:induction false} ErrorsAreAtTokens(s: string, was: Value, scan: string -> Option<real>)
    ensures Located(ReadValue(s, was, scan), s)
    decreases |s|, 1
  {
    hide Located, Behind, NextToken, ReadMembers, ReadArray, ReadScalar;
    var t := NextToken(s);
    BehindNext(s);
    if t.kind == ObjectBegin {
      MemberErrors(t.rest, "", Empty, scan);
      LocatedBefore(ReadMembers(t.rest, "", Empty, scan), t.rest, s);
    } else if t.kind == ArrayBegin {
      ArrayErrors(t.rest, scan);
      LocatedBefore(ReadArray(t.rest, scan), t.rest, s);
    } else {
      ScalarIsLocated(s, was, scan);
    }
  }

  lemma {:induction false} ArrayErrors(s: string, scan: string -> Option<real>)
    ensures Located(ReadArray(s, scan), s)
    decreases |s|, 5
  {
    hide ReadItems, Behind;
    var u := SkipBlanks(s);
    if u != "" && u[0] == ']' {
      assert ReadToken(s).rest == u[1..];
      BehindToken(s);
    } else {
      ItemErrors(u, 0, Empty, scan);
      LocatedBehindBlanks(ReadItems(u, 0, Empty, scan), s);
    }
  }

  lemma {:induction false} ItemErrors(s: string, index: nat, items: Entries, scan: string -> Option<real>)
    ensures Located(ReadItems(s, index, items, scan), s)
    decreases |s|, 4
  {
    hide Located, Behind, ReadValue, AfterItem;
    var item := ReadValue(s, Null, scan);
    var items' := Put(items, Index(index), item.value);
    ErrorsAreAtTokens(s, Null, scan);
    RestOfLocated(item, s);
    if item.ok {
      NextItemErrors(item.rest, index, items', scan);
      LocatedBefore(AfterItem(item.rest, index, items', scan), item.rest, s);
    } else {
      RecoveredIsLocated(item, Arr(items'), ArrayEnd, s);
    }
  }

  lemma RestOfLocated(r: Read, s: string)
    requires Located(r, s)
    ensures Behind(r.rest, s)
  {
  }

  lemma {:induction false} NextItemErrors(s: string, index: nat, items: Entries, scan: string -> Option<real>)
    ensures Located(AfterItem(s, index, items, scan), s)
    decreases |s|, 3
  {
    hide NextToken, ReadItems, Behind;
    var t := NextToken(s);
    BehindNext(s);
    if t.kind == Separator {
      ItemErrors(t.rest, index + 1, items, scan);
      LocatedBefore(ReadItems(t.rest, index + 1, items, scan), t.rest, s);
    } else if t.kind != ArrayEnd {
      FailIsLocated(Arr(items), t, ArrayEnd, MissingSeparator, s);
    }
  }

  lemma {:induction false} MemberErrors(s: string, before: string, members: Entries, scan: string -> Option<real>)
    ensures Located(ReadMembers(s, before, members, scan), s)
    decreases |s|, 2
  {
    hide NextToken, ReadToken, ReadColon, DecodeString, Recover, Behind;
    var t := NextToken(s);
    BehindNext(s);
    FailIsLocated(Obj(members), t, ObjectEnd, MissingName, s);
    if t.kind == StringKind {
      var d := DecodeString(Unquoted(t.text));
      if d.Good? {
        ColonErrors(t.rest, d.text, members, scan);
        LocatedBefore(ReadColon(t.rest, d.text, members, scan), t.rest, s);
      } else {
        FailIsLocated(Obj(members), t, ObjectEnd, d.message, s);
      }
    }
  }

  lemma {:induction false} ColonErrors(s: string, name: string, members: Entries, scan: string -> Option<real>)
    ensures Located(ReadColon(s, name, members, scan), s)
    decreases |s|, 3
  {
    hide ReadToken, ReadMember, Recover, Behind;
    var colon := ReadToken(s);
    BehindToken(s);
    if colon.kind == Colon {
      NamedErrors(colon.rest, name, members, scan);
      LocatedBefore(ReadMember(colon.rest, name, members, scan), colon.rest, s);
    } else {
      FailIsLocated(Obj(members), colon, ObjectEnd, MissingColon, s);
    }
  }

  lemma {:induction false} NamedErrors(s: string, name: string, members: Entries, scan: string -> Option<real>)
    ensures Located(ReadMember(s, name, members, scan), s)
    decreases |s|, 4
  {
    hide Located, Behind, ReadValue, AfterMember;
    var key := Name(CString(name));
    var member := ReadValue(s, Get(members, key), scan);
    var members' := Put(members, key, member.value);
    ErrorsAreAtTokens(s, Get(members, key), scan);
    RestOfLocated(member, s);
    if member.ok {
      EndErrors(member.rest, name, members', scan);
      LocatedBefore(AfterMember(member.rest, name, members', scan), member.rest, s);
    } else {
      RecoveredIsLocated(member, Obj(members'), ObjectEnd, s);
    }
  }

  lemma {:induction false} EndErrors(s: string, name: string, members: Entries, scan: string -> Option<real>)
    ensures Located(AfterMember(s, name, members, scan), s)
    decreases |s|, 3
  {
    hide ReadToken, NextToken, ReadMembers, Recover, Behind;
    var t := ReadToken(s);
    BehindToken(s);
    if t.kind == Comment {
      var comma := NextToken(t.rest);
      BehindNext(t.rest);
      BehindTransitive(comma.rest, t.rest, s);
      if comma.kind != ObjectEnd {
        MemberErrors(comma.rest, name, members, scan);
        LocatedBefore(ReadMembers(comma.rest, name, members, scan), comma.rest, s);
      }
    } else if t.kind == Separator {
      MemberErrors(t.rest, name, members, scan);
      LocatedBefore(ReadMembers(t.rest, name, members, scan), t.rest, s);
    } else if t.kind != ObjectEnd {
      FailIsLocated(Obj(members), t, ObjectEnd, MissingComma, s);
    }
  }
}
