/**
  `Json::Reader` as a function: from the text at the reading position and the
  value the position belongs to, to the new value, the text that is left and
  the errors. `scan` stands for the C library's reading of a double.
  */
module JsonReading {
  import opened JsonValue
  import opened JsonLexer
  import opened Text
  import opened Wrappers

  /** `left`: how many bytes of the document follow the faulty token's end. */
  datatype Error = Error(message: Message, left: nat)

  datatype Read = Read(ok: bool, value: Value, rest: string, errors: seq<Error>)

  function Fail(value: Value, rest: string, message: Message, token: Token): (r: Read)
    ensures !r.ok && |r.errors| == 1
  {
    Read(false, value, rest, [Error(message, |token.rest|)])
  }

  /** `recoverFromError`: skips to the end of the enclosing container or of the document. */
  function Recover(s: string, until: Kind): (r: string)
    ensures |r| <= |s|
    decreases |s|
  {
    var t := ReadToken(s);
    if t.kind == until || t.kind == EndOfStream then t.rest else Recover(t.rest, until)
  }

  /** `readValue`; it succeeds exactly when it reports nothing, and never reports more than one error. */
  function ReadValue(s: string, was: Value, scan: string -> Option<real>): (r: Read)
    ensures |r.rest| <= |s| && (r.ok <==> r.errors == []) && |r.errors| <= 1
    decreases |s|, 1
  {
    var t := NextToken(s);
    if t.kind == ObjectBegin then ReadMembers(t.rest, "", Empty, scan)
    else if t.kind == ArrayBegin then ReadArray(t.rest, scan)
    else ReadScalar(t, was, scan)
  }

  /** The cases of `readValue` that need no further token. */
  function ReadScalar(t: Token, was: Value, scan: string -> Option<real>): (r: Read)
    requires t.kind == StringKind ==> |t.text| >= 2
    requires t.kind == NumberKind ==> NumberText(t.text)
    ensures r.rest == t.rest && (r.ok <==> r.errors == []) && |r.errors| <= 1
  {
    match t.kind
    case NumberKind =>
      (match DecodeNumber(t.text, scan)
       case Number(v) => Read(true, v, t.rest, [])
       case NoNumber => Fail(was, t.rest, NotANumber, t))
    case StringKind =>
      (match DecodeString(Unquoted(t.text))
       case Good(text) => Read(true, Str(CString(text)), t.rest, [])
       case Wrong(message) => Fail(was, t.rest, message, t))
    case TrueKind => Read(true, Bool(true), t.rest, [])
    case FalseKind => Read(true, Bool(false), t.rest, [])
    case NullKind => Read(true, Null, t.rest, [])
    case _ => Fail(was, t.rest, ValueExpected, t)
  }

  /** `readArray`, behind the bracket. */
  function ReadArray(s: string, scan: string -> Option<real>): (r: Read)
    ensures |r.rest| <= |s| && (r.ok <==> r.errors == []) && |r.errors| <= 1
    decreases |s|, 5
  {
    var u := SkipBlanks(s);
    if u != "" && u[0] == ']' then Read(true, Arr(Empty), u[1..], [])
    else ReadItems(u, 0, Empty, scan)
  }

  /** The items from number `index` on. */
  function ReadItems(s: string, index: nat, items: Entries, scan: string -> Option<real>): (r: Read)
    ensures |r.rest| <= |s| && (r.ok <==> r.errors == []) && |r.errors| <= 1
    decreases |s|, 4
  {
    var item := ReadValue(s, Null, scan);
    var items' := Put(items, Index(index), item.value);
    if item.ok then AfterItem(item.rest, index, items', scan)
    else Read(false, Arr(items'), Recover(item.rest, ArrayEnd), item.errors)
  }

  /** What follows item number `index`. */
  function AfterItem(s: string, index: nat, items: Entries, scan: string -> Option<real>): (r: Read)
    ensures |r.rest| <= |s| && (r.ok <==> r.errors == []) && |r.errors| <= 1
    decreases |s|, 3
  {
    var t := NextToken(s);
    if t.kind == ArrayEnd then Read(true, Arr(items), t.rest, [])
    else if t.kind == Separator then ReadItems(t.rest, index + 1, items, scan)
    else Fail(Arr(items), Recover(t.rest, ArrayEnd), MissingSeparator, t)
  }

  /** The loop of `readObject`, with the name of the member before. */
  function ReadMembers(s: string, before: string, members: Entries, scan: string -> Option<real>): (r: Read)
    ensures |r.rest| <= |s| && (r.ok <==> r.errors == []) && |r.errors| <= 1
    decreases |s|, 2
  {
    var t := NextToken(s);
    if t.kind == ObjectEnd && before == "" then Read(true, Obj(members), t.rest, [])
    else if t.kind != StringKind then Fail(Obj(members), Recover(t.rest, ObjectEnd), MissingName, t)
    else
      match DecodeString(Unquoted(t.text))
      case Wrong(message) => Fail(Obj(members), Recover(t.rest, ObjectEnd), message, t)
      case Good(name) => ReadColon(t.rest, name, members, scan)
  }

  /** What follows the name of a member. */
  function ReadColon(s: string, name: string, members: Entries, scan: string -> Option<real>): (r: Read)
    ensures |r.rest| <= |s| && (r.ok <==> r.errors == []) && |r.errors| <= 1
    decreases |s|, 3
  {
    var colon := ReadToken(s);
    if colon.kind != Colon then Fail(Obj(members), Recover(colon.rest, ObjectEnd), MissingColon, colon)
    else ReadMember(colon.rest, name, members, scan)
  }

  /** The value of one member. */
  function ReadMember(s: string, name: string, members: Entries, scan: string -> Option<real>): (r: Read)
    ensures |r.rest| <= |s| && (r.ok <==> r.errors == []) && |r.errors| <= 1
    decreases |s|, 4
  {
    var key := Name(CString(name));
    var member := ReadValue(s, Get(members, key), scan);
    var members' := Put(members, key, member.value);
    if member.ok then AfterMember(member.rest, name, members', scan)
    else Read(false, Obj(members'), Recover(member.rest, ObjectEnd), member.errors)
  }

  /** What follows the member called `name`. Behind a comment any token will do as a separator. */
  function AfterMember(s: string, name: string, members: Entries, scan: string -> Option<real>): (r: Read)
    ensures |r.rest| <= |s| && (r.ok <==> r.errors == []) && |r.errors| <= 1
    decreases |s|, 3
  {
    var t := ReadToken(s);
    if t.kind != ObjectEnd && t.kind != Separator && t.kind != Comment
    then Fail(Obj(members), Recover(t.rest, ObjectEnd), MissingComma, t)
    else
      var comma := if t.kind == Comment then NextToken(t.rest) else t;
      if comma.kind == ObjectEnd then Read(true, Obj(members), comma.rest, [])
      else ReadMembers(comma.rest, name, members, scan)
  }

  /** `parse`: reads one value and the token behind it, whatever that is. */
  function Parse(document: string, root: Value, scan: string -> Option<real>): Read {
    var r := ReadValue(document, root, scan);
    r.(rest := NextToken(r.rest).rest)
  }
}
