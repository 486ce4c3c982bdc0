/**
  `Json::Reader` as it works: a cursor moving over the document, a stack of the
  values being read and a list of errors, proved against JsonReading.
  */
module JsonReader {
  import opened JsonValue
  import opened JsonLexer
  import opened JsonReading
  import opened JsonDecoder
  import opened Text
  import opened Wrappers

  /** A token by its place in the document. */
  datatype Place = Place(kind: Kind, start: nat, end: nat)

  /** Whether a loop over members or items is over, and how. */
  datatype Step = Finished(ok: bool) | Go(name: string)

  /** What the reader has built: the values around the innermost one, that one, what is left, the errors. */
  datatype State = State(outer: seq<Value>, top: Value, rest: string, errors: seq<Error>)
  {
    /** The state a result of the reading functions leads to. */
    function Then(r: Read): State {
      State(outer, r.value, r.rest, errors + r.errors)
    }
  }

  lemma DropOne(s: string, i: nat)
    requires i < |s|
    ensures s[i..] != "" && s[i..][0] == s[i] && s[i..][1..] == s[i + 1..]
  {
  }

  lemma DropMore(s: string, i: nat, j: nat)
    requires i + j <= |s|
    ensures s[i..][j..] == s[i + j..] && s[i..][..j] == s[i..i + j]
  {
  }

  /** How reading goes on behind an item. */
  lemma ItemCases(s: string, index: nat, items: Entries, scan: string -> Option<real>)
    ensures var item, goal := JsonReading.ReadValue(s, Null, scan), ReadItems(s, index, items, scan);
            var items' := Put(items, Index(index), item.value);
            if item.ok then goal == AfterItem(item.rest, index, items', scan)
            else goal == Read(false, Arr(items'), Recover(item.rest, ArrayEnd), item.errors)
  {
  }

  /** How reading goes on behind the value of a member. */
  lemma MemberCases(s: string, name: string, members: Entries, scan: string -> Option<real>)
    ensures var key := Name(CString(name));
            var member := JsonReading.ReadValue(s, Get(members, key), scan);
            var members' := Put(members, key, member.value);
            var goal := ReadMember(s, name, members, scan);
            if member.ok then goal == AfterMember(member.rest, name, members', scan)
            else goal == Read(false, Obj(members'), Recover(member.rest, ObjectEnd), member.errors)
  {
  }

  class Reader {
    const scan: string -> Option<real>
    var document: string
    var current: nat
    /** The values being read, from the root inwards. */
    var nodes: seq<Value>
    var errors: seq<Error>

    constructor (scan: string -> Option<real>)
      ensures this.scan == scan && document == "" && current == 0 && nodes == [] && errors == []
    {
      this.scan := scan;
      document, current, nodes, errors := "", 0, [], [];
    }

    ghost predicate Valid()
      reads this`document, this`current
    {
      current <= |document|
    }

    /** What is left to be read. */
    ghost function Rest(): string
      requires Valid()
      reads this`document, this`current
    {
      document[current..]
    }

    // ---- Scanning ----------------------------------------------------------------------------------------

    /** At the end it answers NUL and stays. */
    method GetNextChar() returns (c: char)
      requires Valid()
      modifies this`current
      ensures Valid()
      ensures if old(current) == |document| then c == '\0' && current == old(current)
              else c == document[old(current)] && current == old(current) + 1
    {
      if current == |document| { return '\0'; }
      c := document[current];
      current := current + 1;
    }

    method SkipSpaces()
      requires Valid()
      modifies this`current
      ensures Valid() && old(current) <= current && Rest() == SkipBlanks(old(Rest()))
    {
      while current != |document|
        invariant Valid() && old(current) <= current && SkipBlanks(old(Rest())) == SkipBlanks(Rest())
        decreases |document| - current
      {
        DropOne(document, current);
        var c := document[current];
        if c == ' ' || c == '\t' || c == '\r' || c == '\n' {
          current := current + 1;
        } else {
          break;
        }
      }
    }

    /** Compares from the last character on; the cursor moves only over the whole word. */
    method Match(pattern: string) returns (ok: bool)
      requires Valid()
      modifies this`current
      ensures Valid() && old(current) <= current && Stop(ok, Rest()) == AfterWord(old(Rest()), pattern)
    {
      if |document| - current < |pattern| { return false; }
      var index := |pattern|;
      while index != 0
        invariant 0 <= index <= |pattern| && current == old(current)
        invariant forall i | index <= i < |pattern| :: Rest()[i] == pattern[i]
      {
        index := index - 1;
        if document[current + index] != pattern[index] {
          assert Rest()[index] != pattern[index];
          return false;
        }
      }
      assert pattern <= Rest();
      DropMore(document, current, |pattern|);
      current := current + |pattern|;
      ok := true;
    }

    method ReadCStyleComment() returns (ok: bool)
      requires Valid()
      modifies this`current
      ensures Valid() && old(current) <= current && Stop(ok, Rest()) == AfterBlock(old(Rest()))
    {
      while current != |document|
        invariant Valid() && old(current) <= current && AfterBlock(old(Rest())) == AfterBlock(Rest())
        decreases |document| - current
      {
        DropOne(document, current);
        var c := GetNextChar();
        if c == '*' && current != |document| && document[current] == '/' {
          DropOne(document, current);
          break;
        }
      }
      var slash := GetNextChar();
      ok := slash == '/';
    }

    method ReadCppStyleComment()
      requires Valid()
      modifies this`current
      ensures Valid() && old(current) <= current && Rest() == AfterLine(old(Rest()))
    {
      while current != |document|
        invariant Valid() && old(current) <= current && AfterLine(old(Rest())) == AfterLine(Rest())
        decreases |document| - current
      {
        DropOne(document, current);
        var c := GetNextChar();
        if c == '\r' || c == '\n' { return; }
      }
    }

    method ReadComment() returns (ok: bool)
      requires Valid()
      modifies this`current
      ensures Valid() && old(current) <= current && Stop(ok, Rest()) == AfterComment(old(Rest()))
    {
      if current < |document| { DropOne(document, current); }
      var c := GetNextChar();
      ok := false;
      if c == '*' {
        ok := ReadCStyleComment();
      } else if c == '/' {
        ReadCppStyleComment();
        ok := true;
      }
    }

    method ReadNumber()
      requires Valid()
      modifies this`current
      ensures Valid() && old(current) <= current && Rest() == AfterNumber(old(Rest()))
    {
      while current != |document|
        invariant Valid() && old(current) <= current && AfterNumber(old(Rest())) == AfterNumber(Rest())
        decreases |document| - current
      {
        DropOne(document, current);
        if !NumberChar(document[current]) { break; }
        current := current + 1;
      }
    }

    method ReadString() returns (ok: bool)
      requires Valid()
      modifies this`current
      ensures Valid() && old(current) <= current && Stop(ok, Rest()) == AfterString(old(Rest()))
    {
      var c := '\0';
      while current != |document|
        invariant Valid() && old(current) <= current && AfterString(old(Rest())) == AfterString(Rest()) && c != '"'
        decreases |document| - current
      {
        DropTwo(document, current);
        c := GetNextChar();
        if c == '\\' {
          var skipped := GetNextChar();
        } else if c == '"' {
          break;
        }
      }
      ok := c == '"';
    }

    /** The kind of the token whose first character `c` has just been read. */
    method ReadKind(c: char) returns (kind: Kind)
      requires Valid()
      modifies this`current
      ensures Valid() && old(current) <= current && (kind, Rest()) == Classify(c, old(Rest()))
    {
      var ok := true;
      kind := ErrorKind;
      if c == '{' { kind := ObjectBegin; }
      else if c == '}' { kind := ObjectEnd; }
      else if c == '[' { kind := ArrayBegin; }
      else if c == ']' { kind := ArrayEnd; }
      else if c == '"' { kind := StringKind; ok := ReadString(); }
      else if c == '/' { kind := Comment; ok := ReadComment(); }
      else if c == '-' || ('0' <= c <= '9') { kind := NumberKind; ReadNumber(); }
      else if c == 't' { kind := TrueKind; ok := Match("rue"); }
      else if c == 'f' { kind := FalseKind; ok := Match("alse"); }
      else if c == 'n' { kind := NullKind; ok := Match("ull"); }
      else if c == ',' { kind := Separator; }
      else if c == ':' { kind := Colon; }
      else if c == '\0' { kind := EndOfStream; }
      else { ok := false; }
      if !ok { kind := ErrorKind; }
    }

    /** The token at a place. */
    ghost function TokenAt(p: Place): Token
      requires p.start <= p.end <= |document|
      reads this`document
    {
      Token(p.kind, document[p.start..p.end], document[p.end..])
    }

    method ReadToken() returns (token: Place)
      requires Valid()
      modifies this`current
      ensures Valid() && old(current) <= token.start <= token.end == current
      ensures TokenAt(token) == JsonLexer.ReadToken(old(Rest()))
    {
      SkipSpaces();
      var start := current;
      ghost var u := Rest();
      if current < |document| { DropOne(document, current); }
      var c := GetNextChar();
      if start == |document| { return Place(EndOfStream, start, current); }
      var kind := ReadKind(c);
      DropMore(document, start, current - start);
      token := Place(kind, start, current);
    }

    method SkipCommentTokens() returns (token: Place)
      requires Valid()
      modifies this`current
      ensures Valid() && old(current) <= token.start <= token.end == current
      ensures TokenAt(token) == NextToken(old(Rest()))
    {
      token := ReadToken();
      while token.kind == Comment
        invariant Valid() && old(current) <= token.start <= token.end == current
        invariant NextToken(old(Rest())) == if token.kind == Comment then NextToken(Rest()) else TokenAt(token)
        decreases |document| - current, token.kind == Comment
      {
        token := ReadToken();
      }
    }

    // ---- Errors ------------------------------------------------------------------------------------------

    method AddError(message: Message, token: Place) returns (ok: bool)
      requires token.end <= |document|
      modifies this`errors
      ensures !ok && errors == old(errors) + [Error(message, |document[token.end..]|)]
    {
      errors := errors + [Error(message, |document| - token.end)];
      ok := false;
    }

    method RecoverFromError(until: Kind) returns (ok: bool)
      requires Valid()
      modifies this`current, this`errors
      ensures Valid() && old(current) <= current && !ok && errors == old(errors) && Rest() == Recover(old(Rest()), until)
    {
      var errorCount := |errors|;
      var skip := ReadToken();
      while skip.kind != until && skip.kind != EndOfStream
        invariant Valid() && old(current) <= current && errors == old(errors) && skip.start <= skip.end == current
        invariant Recover(old(Rest()), until) ==
                  if skip.kind == until || skip.kind == EndOfStream then Rest() else Recover(Rest(), until)
        decreases |document| - current, skip.kind != EndOfStream
      {
        skip := ReadToken();
      }
      errors := errors[..errorCount];
      ok := false;
    }

    method AddErrorAndRecover(message: Message, token: Place, until: Kind) returns (ok: bool)
      requires Valid() && token.end <= |document|
      modifies this`current, this`errors
      ensures Valid() && old(current) <= current && !ok
      ensures errors == old(errors) + [Error(message, |document[token.end..]|)] && Rest() == Recover(old(Rest()), until)
    {
      ok := AddError(message, token);
      ok := RecoverFromError(until);
    }

    // ---- Values ------------------------------------------------------------------------------------------

    ghost predicate Reading()
      reads this
    {
      Valid() && nodes != []
    }

    ghost function Now(): State
      requires Reading()
      reads this
    {
      State(nodes[..|nodes| - 1], nodes[|nodes| - 1], Rest(), errors)
    }

    method SetCurrentValue(v: Value)
      requires Reading()
      modifies this`nodes
      ensures Reading() && Now() == old(Now()).(top := v)
    {
      nodes := nodes[..|nodes| - 1] + [v];
    }

    method DecodeNumberAt(token: Place) returns (ok: bool)
      requires Reading() && token.start <= token.end == current
      requires NumberText(document[token.start..token.end])
      modifies this`nodes, this`errors
      ensures Reading()
      ensures match DecodeNumber(document[token.start..token.end], scan)
              case Number(v) => ok && Now() == old(Now()).(top := v)
              case NoNumber => !ok && Now() == old(Now().(errors := errors + [Error(NotANumber, |Rest()|)]))
    {
      var decoded := DecodeNumberToken(document[token.start..token.end], scan);
      if decoded.NoNumber? {
        ok := AddError(NotANumber, token);
      } else {
        SetCurrentValue(decoded.value);
        ok := true;
      }
    }

    method DecodeStringAt(token: Place) returns (ok: bool)
      requires Reading() && token.start + 2 <= token.end == current
      modifies this`nodes, this`errors
      ensures Reading()
      ensures match DecodeString(Unquoted(document[token.start..token.end]))
              case Good(text) => ok && Now() == old(Now()).(top := Str(CString(text)))
              case Wrong(message) => !ok && Now() == old(Now().(errors := errors + [Error(message, |Rest()|)]))
    {
      var decoded := DecodeStringToken(Unquoted(document[token.start..token.end]));
      if decoded.Wrong? {
        ok := AddError(decoded.message, token);
      } else {
        SetCurrentValue(Str(CString(decoded.text)));
        ok := true;
      }
    }

    /** The cases of `readValue` that need no further token. */
    method ReadScalar(token: Place) returns (ok: bool)
      requires Reading() && token.start <= token.end == current
      requires token.kind != ObjectBegin && token.kind != ArrayBegin
      requires token.kind == StringKind ==> token.start + 2 <= token.end
      requires token.kind == NumberKind ==> NumberText(document[token.start..token.end])
      modifies this`nodes, this`errors
      ensures Reading()
      ensures var r := JsonReading.ReadScalar(TokenAt(token), old(Now()).top, scan);
              ok == r.ok && Now() == old(Now()).Then(r)
    {
      ok := true;
      if token.kind == NumberKind {
        ok := DecodeNumberAt(token);
      } else if token.kind == StringKind {
        ok := DecodeStringAt(token);
      } else if token.kind == TrueKind {
        SetCurrentValue(Bool(true));
      } else if token.kind == FalseKind {
        SetCurrentValue(Bool(false));
      } else if token.kind == NullKind {
        SetCurrentValue(Null);
      } else {
        ok := AddError(ValueExpected, token);
      }
    }

    method ReadValue() returns (ok: bool)
      requires Reading()
      modifies this`current, this`nodes, this`errors
      ensures Reading() && old(current) <= current
      ensures var r := JsonReading.ReadValue(old(Rest()), old(Now()).top, scan);
              ok == r.ok && Now() == old(Now()).Then(r)
      decreases |document| - current, 1
    {
      hide ReadMembers, JsonReading.ReadArray, JsonReading.ReadScalar;
      var token := SkipCommentTokens();
      if token.kind == ObjectBegin {
        ok := ReadObject();
      } else if token.kind == ArrayBegin {
        ok := ReadArray();
      } else {
        ok := ReadScalar(token);
      }
    }

    /** Reads a value on top of the stack and takes it off again. */
    method ReadChild(was: Value) returns (ok: bool, child: Value)
      requires Reading()
      modifies this`current, this`nodes, this`errors
      ensures Reading() && old(current) <= current && (ok ==> errors == old(errors))
      ensures var r := JsonReading.ReadValue(old(Rest()), was, scan);
              ok == r.ok && child == r.value && Now() == old(Now()).Then(r.(value := old(Now()).top))
      decreases |document| - current, 2, 0
    {
      hide JsonReading.ReadValue;
      nodes := nodes + [was];
      ok := ReadValue();
      child := nodes[|nodes| - 1];
      nodes := nodes[..|nodes| - 1];
      assert old(errors) + [] == old(errors);
    }

    // ---- Arrays ------------------------------------------------------------------------------------------

    method ReadArray() returns (ok: bool)
      requires Reading()
      modifies this`current, this`nodes, this`errors
      ensures Reading() && old(current) <= current
      ensures var r := JsonReading.ReadArray(old(Rest()), scan); ok == r.ok && Now() == old(Now()).Then(r)
      decreases |document| - current, 5
    {
      hide ReadItems;
      SetCurrentValue(Arr(Empty));
      SkipSpaces();
      if current != |document| && document[current] == ']' {
        DropOne(document, current);
        var endArray := ReadToken();
        return true;
      }
      ok := ReadItemList();
    }

    /** The loop over the items. */
    method ReadItemList() returns (ok: bool)
      requires Reading() && nodes[|nodes| - 1] == Arr(Empty)
      modifies this`current, this`nodes, this`errors
      ensures Reading() && old(current) <= current
      ensures var r := ReadItems(old(Rest()), 0, Empty, scan); ok == r.ok && Now() == old(Now()).Then(r)
      decreases |document| - current, 4
    {
      hide ReadItems;
      var index := 0;
      ghost var start, goal := Now(), ReadItems(Rest(), 0, Empty, scan);
      while true
        invariant Reading() && old(current) <= current && nodes[|nodes| - 1].Arr?
        invariant Now().(top := start.top, rest := start.rest) == start
        invariant ReadItems(Rest(), index, Now().top.entries, scan) == goal
        decreases |document| - current
      {
        var step := ReadItem(index);
        if step.Finished? { return step.ok; }
        index := index + 1;
      }
    }

    /** One item and the token behind it. */
    method ReadItem(index: nat) returns (step: Step)
      requires Reading() && nodes[|nodes| - 1].Arr?
      modifies this`current, this`nodes, this`errors
      ensures Reading() && old(current) <= current && nodes[|nodes| - 1].Arr?
      ensures var goal := ReadItems(old(Rest()), index, old(Now()).top.entries, scan);
              match step
              case Finished(ok) => ok == goal.ok && Now() == old(Now()).Then(goal)
              case Go(_) => old(current) < current && Now() == old(Now()).(top := Now().top, rest := Rest()) &&
                            ReadItems(Rest(), index + 1, Now().top.entries, scan) == goal
      decreases |document| - current, 3
    {
      hide AfterItem, JsonReading.ReadValue, Recover;
      ItemCases(Rest(), index, nodes[|nodes| - 1].entries, scan);
      var ok := ReadItemValue(index);
      assert nodes[|nodes| - 1].Arr?;
      if ok {
        step := ReadItemEnd(index);
      } else {
        ok := RecoverFromError(ArrayEnd);
        step := Finished(ok);
      }
    }

    /** The value of item number `index`. */
    method ReadItemValue(index: nat) returns (ok: bool)
      requires Reading() && nodes[|nodes| - 1].Arr?
      modifies this`current, this`nodes, this`errors
      ensures Reading() && old(current) <= current && (ok ==> errors == old(errors))
      ensures var r := JsonReading.ReadValue(old(Rest()), Null, scan);
              var items := old(Now()).top.entries;
              ok == r.ok && Now() == old(Now()).Then(r.(value := Arr(Put(items, Index(index), r.value))))
      decreases |document| - current, 2, 1
    {
      hide JsonReading.ReadValue;
      var items := nodes[|nodes| - 1].entries;
      var item;
      ok, item := ReadChild(Null);
      SetCurrentValue(Arr(Put(items, Index(index), item)));
    }

    /** What follows item number `index`. */
    method ReadItemEnd(index: nat) returns (step: Step)
      requires Reading() && nodes[|nodes| - 1].Arr?
      modifies this`current, this`errors
      ensures Reading() && old(current) <= current
      ensures var goal := AfterItem(old(Rest()), index, Now().top.entries, scan);
              match step
              case Finished(ok) => ok == goal.ok && Now() == old(Now()).Then(goal)
              case Go(_) => old(current) < current && Now() == old(Now()).(rest := Rest()) &&
                            ReadItems(Rest(), index + 1, Now().top.entries, scan) == goal
    {
      hide ReadItems, Recover;
      var token := SkipCommentTokens();
      if token.kind != Separator && token.kind != ArrayEnd {
        var ok := AddErrorAndRecover(MissingSeparator, token, ArrayEnd);
        return Finished(ok);
      }
      step := if token.kind == ArrayEnd then Finished(true) else Go("");
    }

    // ---- Objects -----------------------------------------------------------------------------------------

    method ReadObject() returns (ok: bool)
      requires Reading()
      modifies this`current, this`nodes, this`errors
      ensures Reading() && old(current) <= current
      ensures var r := ReadMembers(old(Rest()), "", Empty, scan); ok == r.ok && Now() == old(Now()).Then(r)
      decreases |document| - current, 5
    {
      hide ReadMembers;
      SetCurrentValue(Obj(Empty));
      var name := "";
      ghost var start, goal := Now(), ReadMembers(Rest(), "", Empty, scan);
      while true
        invariant Reading() && old(current) <= current && nodes[|nodes| - 1].Obj?
        invariant Now().(top := start.top, rest := start.rest) == start
        invariant ReadMembers(Rest(), name, Now().top.entries, scan) == goal
        decreases |document| - current
      {
        var step := ReadMemberAfter(name);
        if step.Finished? { return step.ok; }
        name := step.name;
      }
    }

    /** One member and the token behind it. */
    method ReadMemberAfter(before: string) returns (step: Step)
      requires Reading() && nodes[|nodes| - 1].Obj?
      modifies this`current, this`nodes, this`errors
      ensures Reading() && old(current) <= current && nodes[|nodes| - 1].Obj?
      ensures var goal := ReadMembers(old(Rest()), before, old(Now()).top.entries, scan);
              match step
              case Finished(ok) => ok == goal.ok && Now() == old(Now()).Then(goal)
              case Go(name) => old(current) < current && Now() == old(Now()).(top := Now().top, rest := Rest()) &&
                               ReadMembers(Rest(), name, Now().top.entries, scan) == goal
      decreases |document| - current, 4
    {
      hide ReadMembers, ReadMember;
      step := ReadName(before);
      if step.Go? { step := ReadNamed(step.name); }
    }

    /** The name of a member and the colon. */
    method ReadName(before: string) returns (step: Step)
      requires Reading() && nodes[|nodes| - 1].Obj?
      modifies this`current, this`errors
      ensures Reading() && old(current) <= current
      ensures var goal := ReadMembers(old(Rest()), before, Now().top.entries, scan);
              match step
              case Finished(ok) => ok == goal.ok && Now() == old(Now()).Then(goal)
              case Go(name) => old(current) < current && Now() == old(Now()).(rest := Rest()) &&
                               ReadMember(Rest(), name, Now().top.entries, scan) == goal
    {
      hide JsonReading.ReadColon, Recover;
      var tokenName := SkipCommentTokens();
      if tokenName.kind == ObjectEnd && before == "" { return Finished(true); }
      if tokenName.kind != StringKind {
        var ok := AddErrorAndRecover(MissingName, tokenName, ObjectEnd);
        return Finished(ok);
      }
      var decoded := DecodeStringToken(Unquoted(document[tokenName.start..tokenName.end]));
      if decoded.Wrong? {
        var ok := AddErrorAndRecover(decoded.message, tokenName, ObjectEnd);
        return Finished(ok);
      }
      step := ReadColon(decoded.text);
    }

    method ReadColon(name: string) returns (step: Step)
      requires Reading() && nodes[|nodes| - 1].Obj?
      modifies this`current, this`errors
      ensures Reading() && old(current) <= current
      ensures var goal := JsonReading.ReadColon(old(Rest()), name, Now().top.entries, scan);
              match step
              case Finished(ok) => ok == goal.ok && Now() == old(Now()).Then(goal)
              case Go(n) => n == name && old(current) < current && Now() == old(Now()).(rest := Rest()) &&
                            ReadMember(Rest(), name, Now().top.entries, scan) == goal
    {
      hide ReadMember, Recover;
      var colon := ReadToken();
      if colon.kind != Colon {
        var ok := AddErrorAndRecover(MissingColon, colon, ObjectEnd);
        return Finished(ok);
      }
      step := Go(name);
    }

    /** The value of a member and the token behind it. */
    method ReadNamed(name: string) returns (step: Step)
      requires Reading() && nodes[|nodes| - 1].Obj?
      modifies this`current, this`nodes, this`errors
      ensures Reading() && old(current) <= current && nodes[|nodes| - 1].Obj?
      ensures var goal := ReadMember(old(Rest()), name, old(Now()).top.entries, scan);
              match step
              case Finished(ok) => ok == goal.ok && Now() == old(Now()).Then(goal)
              case Go(n) => n == name && Now() == old(Now()).(top := Now().top, rest := Rest()) &&
                            ReadMembers(Rest(), name, Now().top.entries, scan) == goal
      decreases |document| - current, 3
    {
      hide AfterMember, JsonReading.ReadValue, Recover;
      MemberCases(Rest(), name, nodes[|nodes| - 1].entries, scan);
      var ok := ReadMemberValue(Name(CString(name)));
      assert nodes[|nodes| - 1].Obj?;
      if ok {
        step := ReadMemberEnd(name);
      } else {
        ok := RecoverFromError(ObjectEnd);
        step := Finished(ok);
      }
    }

    method ReadMemberValue(key: Key) returns (ok: bool)
      requires Reading() && nodes[|nodes| - 1].Obj?
      modifies this`current, this`nodes, this`errors
      ensures Reading() && old(current) <= current && (ok ==> errors == old(errors))
      ensures var members := old(Now()).top.entries;
              var r := JsonReading.ReadValue(old(Rest()), Get(members, key), scan);
              ok == r.ok && Now() == old(Now()).Then(r.(value := Obj(Put(members, key, r.value))))
      decreases |document| - current, 2, 1
    {
      hide JsonReading.ReadValue;
      var members := nodes[|nodes| - 1].entries;
      var member;
      ok, member := ReadChild(Get(members, key));
      SetCurrentValue(Obj(Put(members, key, member)));
    }

    /** What follows the member called `name`. */
    method ReadMemberEnd(name: string) returns (step: Step)
      requires Reading() && nodes[|nodes| - 1].Obj?
      modifies this`current, this`errors
      ensures Reading() && old(current) <= current
      ensures var goal := AfterMember(old(Rest()), name, Now().top.entries, scan);
              match step
              case Finished(ok) => ok == goal.ok && Now() == old(Now()).Then(goal)
              case Go(n) => n == name && Now() == old(Now()).(rest := Rest()) &&
                            ReadMembers(Rest(), name, Now().top.entries, scan) == goal
    {
      hide ReadMembers, Recover;
      var comma := ReadToken();
      if comma.kind != ObjectEnd && comma.kind != Separator && comma.kind != Comment {
        var ok := AddErrorAndRecover(MissingComma, comma, ObjectEnd);
        return Finished(ok);
      }
      if comma.kind == Comment { comma := SkipCommentTokens(); }
      step := if comma.kind == ObjectEnd then Finished(true) else Go(name);
    }

    /**
      `parse`. For every document it ends with the cursor inside it, exactly
      the root on the stack, and a verdict that is true if and only if no error
      was recorded.
      */
    method Parse(text: string, root: Value) returns (ok: bool, result: Value)
      modifies this
      ensures Valid() && document == text && nodes == [result]
      ensures Read(ok, result, Rest(), errors) == JsonReading.Parse(text, root, scan)
      ensures ok <==> errors == []
    {
      document, current, errors, nodes := text, 0, [], [root];
      assert text[0..] == text;
      ok := ReadValue();
      var token := SkipCommentTokens();
      result := nodes[0];
    }
  }
}
