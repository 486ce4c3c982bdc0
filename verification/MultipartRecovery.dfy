/**
  What the multipart parser makes of a body rendered the way browsers do:
  every part comes back with its name, kind and exact content, for every way
  of cutting the body into calls.
  */
module MultipartRecovery {
  import opened Search
  import opened Text
  import opened Multipart
  import opened MultipartHeaders

  /** Everything after the boundary that precedes the first remaining part. */
  function Tail(b: string, parts: seq<Part>): string {
    if parts == [] then "--\r\n"
    else HeaderText(parts[0]) + HEADERS_END + (parts[0].content + "\r\n" + b + Tail(b, parts[1..]))
  }

  function Body(b: string, parts: seq<Part>): string {
    b + Tail(b, parts)
  }

  /** The fields a list of parts denotes; a later part replaces an earlier one of the same name. */
  function FieldsOf(before: map<string, Field>, parts: seq<Part>): map<string, Field>
    decreases |parts|
  {
    if parts == [] then before
    else FieldsOf(before[parts[0].name := FieldOf(parts[0])], parts[1..])
  }

  function LastName(before: string, parts: seq<Part>): string
    decreases |parts|
  {
    if parts == [] then before else LastName(parts[0].name, parts[1..])
  }

  /** The delimiter does not occur before the one that ends the part. */
  ghost predicate SafeContent(b: string, content: string) {
    First(content + "\r\n" + b, b, |content| + 2)
  }

  ghost predicate Safe(b: string, p: Part) {
    SafeHeader(p) && SafeContent(b, p.content)
  }

  // ---- Whole bodies --------------------------------------------------------------------------

  /** From the headers of a part to the headers of the next: one field added, everything else as before. */
  lemma HeadersOfPart(b: string, s: State, p: Part, rest: string)
    requires SafeHeader(p) && s.status.ProcessingHeaders? && s.failure.NoFailure?
    requires s.buffer == HeaderText(p) + HEADERS_END + rest
    ensures TakeTurn(b, s) == Turn(
      State(ProcessingContentOfTheField, s.fields[p.name := FieldOf(p).(content := "")], p.name, rest, NoFailure), true)
  {
    HeadersEndIsFound(p, rest);
    HeaderIsWhole(p);
    SafeHeaderParses(s, p);
    var h := HeaderText(p);
    assert s.buffer[..|h|] == h && s.buffer[|h| + 4..] == rest;
  }

  lemma ContentOfPart(b: string, s: State, content: string, rest: string)
    requires SafeContent(b, content) && s.status.ProcessingContentOfTheField? && s.name in s.fields
    requires s.buffer == content + "\r\n" + b + rest && s.fields[s.name].content == ""
    ensures TakeTurn(b, s) == Turn(
      s.(status := LookingForStartingBoundary,
         fields := s.fields[s.name := s.fields[s.name].(content := content)],
         buffer := "\r\n" + b + rest), true)
  {
    hide IndexOf;
    FirstUnique(content + "\r\n" + b, b, |content| + 2);
    FoundStays(content + "\r\n" + b, b, rest);
    assert s.buffer[..|content|] == content && s.buffer[|content|..] == "\r\n" + b + rest;
    assert "" + content == content;
    var f := s.fields[s.name];
    assert content == "" ==> f.(content := content) == f && s.fields[s.name := f] == s.fields;
    assert SendToField(s, |content|) ==
           s.(fields := s.fields[s.name := f.(content := content)], buffer := "\r\n" + b + rest);
  }

  // ---- Contents with the delimiter in them ---------------------------------------------------

  /** How much of a content is kept: up to two bytes in front of the first delimiter. */
  function KeptLength(b: string, content: string): nat {
    var p := IndexOf(content + "\r\n" + b, b);
    if p < 2 then 0 else p - 2
  }

  lemma DelimiterIsFound(b: string, content: string, rest: string)
    ensures var p := IndexOf(content + "\r\n" + b, b);
            0 <= p <= |content| + 2 && IndexOf(content + "\r\n" + b + rest, b) == p
    ensures SafeContent(b, content) <==> IndexOf(content + "\r\n" + b, b) == |content| + 2
  {
    var t := content + "\r\n" + b;
    assert t[|content| + 2..] == b;
    assert At(t, b, |content| + 2);
    FoundStays(t, b, rest);
  }

  /** What a content turn makes of any content, wherever the delimiter stands in it. */
  lemma ContentIs(b: string, s: State, content: string, rest: string)
    requires |b| > 0 && s.status.ProcessingContentOfTheField? && s.name in s.fields
    requires s.buffer == content + "\r\n" + b + rest && s.fields[s.name].content == ""
    ensures KeptLength(b, content) <= |content| && s.name in TakeTurn(b, s).state.fields
    ensures TakeTurn(b, s).state.fields[s.name].content == content[..KeptLength(b, content)]
  {
    hide IndexOf;
    var n := KeptLength(b, content);
    DelimiterIsFound(b, content, rest);
    assert s.buffer[..n] == content[..n];
    assert "" + content[..n] == content[..n];
  }

  /** It is kept whole if and only if the delimiter does not start before its end, or it is empty. */
  lemma ContentIff(b: string, s: State, content: string, rest: string)
    requires |b| > 0 && s.status.ProcessingContentOfTheField? && s.name in s.fields
    requires s.buffer == content + "\r\n" + b + rest && s.fields[s.name].content == ""
    ensures s.name in TakeTurn(b, s).state.fields
    ensures TakeTurn(b, s).state.fields[s.name].content == content <==> SafeContent(b, content) || content == ""
  {
    hide TakeTurn, SafeContent, IndexOf;
    ContentIs(b, s, content, rest);
    DelimiterIsFound(b, content, rest);
    assert content[..|content|] == content;
    assert content[..KeptLength(b, content)] == content ==> KeptLength(b, content) == |content|;
  }

  /** A content with the delimiter anywhere in it, also in mid-line, loses data. */
  lemma DelimiterInContent(b: string, s: State, content: string, k: nat, rest: string)
    requires |b| > 0 && s.status.ProcessingContentOfTheField? && s.name in s.fields && At(content, b, k)
    requires s.buffer == content + "\r\n" + b + rest && s.fields[s.name].content == ""
    ensures s.name in TakeTurn(b, s).state.fields && TakeTurn(b, s).state.fields[s.name].content != content
  {
    hide TakeTurn;
    ContentIff(b, s, content, rest);
    AtExtended(content, b, "\r\n" + b);
    assert content + ("\r\n" + b) == content + "\r\n" + b;
    assert At(content + "\r\n" + b, b, k);
  }

  // ---- Whole lists of parts ------------------------------------------------------------------

  lemma BoundaryOfPart(b: string, s: State, content: string, rest: string)
    requires SafeContent(b, content) && s.status.LookingForStartingBoundary?
    requires s.buffer == "\r\n" + b + rest
    ensures TakeTurn(b, s) == Turn(s.(status := ProcessingHeaders, buffer := rest), true)
  {
    var t := content + "\r\n" + b;
    FirstUnique(t, b, |content| + 2);
    FoundAfterDrop(t, b, |content|);
    assert t[|content|..] == "\r\n" + b;
    FoundStays("\r\n" + b, b, rest);
    assert s.buffer[2 + |b|..] == rest;
  }

  lemma TurnThenDrain(b: string, s: State, t: State)
    requires |b| > 0 && Ok(s) && TakeTurn(b, s) == Turn(t, true)
    ensures Ok(t) && Drain(b, s) == Drain(b, t)
  {
    TurnProgress(b, s);
  }

  lemma PartIsTaken(b: string, s: State, p: Part, rest: string)
    requires |b| > 0 && Safe(b, p) && s.status.ProcessingHeaders? && s.failure.NoFailure?
    requires s.buffer == HeaderText(p) + HEADERS_END + (p.content + "\r\n" + b + rest)
    ensures Drain(b, s) == Drain(b, State(ProcessingHeaders, s.fields[p.name := FieldOf(p)], p.name, rest, NoFailure))
  {
    var body := p.content + "\r\n" + b + rest;
    var begun, done := s.fields[p.name := FieldOf(p).(content := "")], s.fields[p.name := FieldOf(p)];
    assert begun[p.name := FieldOf(p)] == done;
    var s1 := State(ProcessingContentOfTheField, begun, p.name, body, NoFailure);
    var s2 := State(LookingForStartingBoundary, done, p.name, "\r\n" + b + rest, NoFailure);
    HeadersOfPart(b, s, p, body);
    TurnThenDrain(b, s, s1);
    ContentOfPart(b, s1, p.content, rest);
    TurnThenDrain(b, s1, s2);
    BoundaryOfPart(b, s2, p.content, rest);
    TurnThenDrain(b, s2, State(ProcessingHeaders, done, p.name, rest, NoFailure));
  }

  lemma {:induction false} PartsAreTaken(b: string, fields: map<string, Field>, name: string, parts: seq<Part>)
    requires |b| > 0 && forall i | 0 <= i < |parts| :: Safe(b, parts[i])
    ensures Drain(b, State(ProcessingHeaders, fields, name, Tail(b, parts), NoFailure))
         == State(ProcessingHeaders, FieldsOf(fields, parts), LastName(name, parts), "--\r\n", NoFailure)
    decreases |parts|
  {
    if parts == [] {
      forall j ensures !At("--\r\n", HEADERS_END, j) { AtChar("--\r\n", HEADERS_END, j, 0); }
      AbsentMeansNone("--\r\n", HEADERS_END);
    } else {
      var p := parts[0];
      PartIsTaken(b, State(ProcessingHeaders, fields, name, Tail(b, parts), NoFailure), p, Tail(b, parts[1..]));
      PartsAreTaken(b, fields[p.name := FieldOf(p)], p.name, parts[1..]);
    }
  }

  lemma BodyIsTaken(b: string, parts: seq<Part>)
    requires |b| > 0 && forall i | 0 <= i < |parts| :: Safe(b, parts[i])
    ensures Drain(b, START.With(Body(b, parts)))
         == State(ProcessingHeaders, FieldsOf(map[], parts), LastName("", parts), "--\r\n", NoFailure)
  {
    var s := START.With(Body(b, parts));
    assert s.buffer == b + Tail(b, parts);
    assert At(b, b, 0);
    FirstUnique(b, b, 0);
    FoundStays(b, b, Tail(b, parts));
    assert s.buffer[|b|..] == Tail(b, parts);
    PartsAreTaken(b, map[], "", parts);
  }

  /**
    Multipart recovery: a rendered body of any length, cut into calls in any
    way that does not hit the size limit, yields exactly the fields of its
    parts with their exact contents.
    */
  lemma RenderedBodyIsRecovered(b: string, max: nat, parts: seq<Part>, chunks: seq<string>)
    requires |b| > 0 && forall i | 0 <= i < |parts| :: Safe(b, parts[i])
    requires Concat(chunks) == Body(b, parts)
    ensures Ok(START)
    ensures !HitsLimit(b, max, START, chunks) ==>
              AcceptAll(b, max, START, chunks)
              == State(ProcessingHeaders, FieldsOf(map[], parts), LastName("", parts), "--\r\n", NoFailure)
    ensures |Body(b, parts)| <= max ==> !HitsLimit(b, max, START, chunks)
  {
    StartIsSettled(b);
    ChunkingIndependence(b, max, START, chunks);
    if |Body(b, parts)| <= max { ShortBodyFits(b, max, START, chunks); }
    BodyIsTaken(b, parts);
  }

  /** With distinct names, every part is found under its name. */
  lemma {:induction false} DistinctPartsAreAllThere(before: map<string, Field>, parts: seq<Part>, k: nat)
    requires k < |parts| && forall i, j | 0 <= i < j < |parts| :: parts[i].name != parts[j].name
    ensures parts[k].name in FieldsOf(before, parts) && FieldsOf(before, parts)[parts[k].name] == FieldOf(parts[k])
    decreases |parts|
  {
    var next := before[parts[0].name := FieldOf(parts[0])];
    if k > 0 {
      DistinctPartsAreAllThere(next, parts[1..], k - 1);
    } else {
      OtherNamesStay(next, parts[1..], parts[0].name);
    }
  }

  lemma {:induction false} OtherNamesStay(before: map<string, Field>, parts: seq<Part>, name: string)
    requires name in before && forall i | 0 <= i < |parts| :: parts[i].name != name
    ensures name in FieldsOf(before, parts) && FieldsOf(before, parts)[name] == before[name]
    decreases |parts|
  {
    if parts != [] {
      OtherNamesStay(before[parts[0].name := FieldOf(parts[0])], parts[1..], name);
    }
  }
}
