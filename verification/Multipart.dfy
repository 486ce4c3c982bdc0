/**
  `MPFD::Parser`: the streaming parser for `multipart/form-data` bodies
  (section 4.1 of RFC 7578, section 5.1.1 of RFC 2046). Received bytes collect
  in a buffer from which a three-state machine takes what it can. A thrown
  exception is an error recorded in the state; the caller abandons the parser.
  Uploaded files are kept in memory.
  */
module Multipart {
  import opened Search
  import opened Text

  datatype Status = LookingForStartingBoundary | ProcessingHeaders | ProcessingContentOfTheField

  datatype Error = NoFormData | NoName | NoClosingNameQuote | NoClosingFilenameQuote | TooLong

  datatype Failure = NoFailure | Failure(error: Error)

  datatype Field = Field(isFile: bool, fileName: string, mimeType: string, content: string)

  datatype State = State(
    status: Status,
    fields: map<string, Field>,
    name: string,
    buffer: string,
    failure: Failure)
  {
    function With(more: string): State {
      this.(buffer := buffer + more)
    }
  }

  const HEADERS_END: string := "\r\n\r\n"
  const FORM_DATA: string := "Content-Disposition: form-data;"
  const NAME: string := "name=\""
  const FILENAME: string := "filename=\""
  const CONTENT_TYPE: string := "Content-Type: "
  const QUOTE: string := "\""

  // ---- Headers --------------------------------------------------------------------

  /** `find(p, k)` */
  function FindFrom(s: string, p: string, k: nat): (r: int)
    ensures r >= 0 ==> k <= r <= |s| - |p|
  {
    if k > |s| then -1
    else
      var r := IndexOf(s[k..], p);
      if r < 0 then -1 else r + k
  }

  predicate EndsMimeType(c: char) {
    c == ' ' || c == '\n' || c == '\r'
  }

  function MimeTypeEnd(s: string, i: nat): (r: nat)
    requires i <= |s|
    ensures i <= r <= |s|
    decreases |s| - i
  {
    if i == |s| || EndsMimeType(s[i]) then i else MimeTypeEnd(s, i + 1)
  }

  /** What `SetFileContentType` is given; nothing when there is no media type. */
  function MimeType(headers: string): string {
    var p := IndexOf(headers, CONTENT_TYPE);
    if p < 0 then ""
    else
      var from := p + |CONTENT_TYPE|;
      var end := MimeTypeEnd(headers, from);
      if from < end < |headers| then headers[from..end - 1] else headers[from..]
  }

  lemma {:induction false} MimeTypeEndsAt(h: string, i: nat, n: nat)
    requires i + n <= |h| && forall k | i <= k < i + n :: !EndsMimeType(h[k])
    requires i + n < |h| ==> EndsMimeType(h[i + n])
    ensures MimeTypeEnd(h, i) == i + n
    decreases n
  {
    if n > 0 { MimeTypeEndsAt(h, i + 1, n - 1); }
  }

  /** What is kept of the text behind the keyword. */
  function KeptOf(u: string): string {
    var n := MimeTypeEnd(u, 0);
    if 0 < n < |u| then u[..n - 1] else u
  }

  lemma {:induction false} MimeTypeEndShifts(h: string, from: nat, i: nat)
    requires from + i <= |h|
    ensures from + MimeTypeEnd(h[from..], i) == MimeTypeEnd(h, from + i)
    decreases |h| - i
  {
    if from + i < |h| && !EndsMimeType(h[from + i]) { MimeTypeEndShifts(h, from, i + 1); }
  }

  /** The media type is looked for behind the first keyword of the headers, wherever that is. */
  lemma MimeTypeBehind(h: string)
    ensures MimeType(h) ==
            if IndexOf(h, CONTENT_TYPE) < 0 then "" else KeptOf(h[IndexOf(h, CONTENT_TYPE) + |CONTENT_TYPE|..])
  {
    var i := IndexOf(h, CONTENT_TYPE);
    if i >= 0 {
      var from := i + |CONTENT_TYPE|;
      MimeTypeEndShifts(h, from, 0);
      var end := MimeTypeEnd(h, from);
      if from < end < |h| { assert h[from..end - 1] == h[from..][..end - from - 1]; }
    }
  }

  /** A text without the characters that end a media type, and what starts with one of them or is empty. */
  ghost predicate Word(t: string, post: string) {
    && (forall k | 0 <= k < |t| :: !EndsMimeType(t[k]))
    && (post == "" || EndsMimeType(post[0]))
  }

  /** All of a word when nothing follows; else its last character goes, and of an empty word what follows is kept. */
  lemma KeptOfWord(t: string, post: string)
    requires Word(t, post)
    ensures KeptOf(t + post) == if post == "" then t else if t == "" then post else t[..|t| - 1]
  {
    var u := t + post;
    forall k | 0 <= k < |t| ensures !EndsMimeType(u[k]) { assert u[k] == t[k]; }
    if post != "" { assert u[|t|] == post[0]; }
    MimeTypeEndsAt(u, 0, |t|);
    if post == "" {
      assert u == t;
    } else if t == "" {
      assert u == post;
    } else {
      assert u[..|t| - 1] == t[..|t| - 1];
    }
  }

  /**
    What is kept of the media type `t` in any headers: if no keyword stands in
    front of its own, it is kept whole if and only if nothing follows it;
    otherwise what stands behind the first keyword is taken for it.
    */
  lemma MimeTypeIs(pre: string, t: string, post: string)
    requires Word(t, post)
    ensures var h := pre + CONTENT_TYPE + t + post;
            var i := IndexOf(h, CONTENT_TYPE);
            && 0 <= i <= |pre|
            && (i < |pre| ==> MimeType(h) == KeptOf(h[i + |CONTENT_TYPE|..]))
            && (i == |pre| ==> MimeType(h) == if post == "" then t else if t == "" then post else t[..|t| - 1])
            && (i == |pre| ==> (MimeType(h) == t <==> post == ""))
  {
    var h, from := pre + CONTENT_TYPE + t + post, |pre| + |CONTENT_TYPE|;
    assert h[|pre|..from] == CONTENT_TYPE;
    assert At(h, CONTENT_TYPE, |pre|);
    assert h[from..] == t + post;
    MimeTypeBehind(h);
    KeptOfWord(t, post);
  }

  function Fail(s: State, e: Error): State {
    s.(failure := Failure(e))
  }

  function OpenField(s: State, name: string, field: Field): State {
    s.(name := name, fields := s.fields[name := field])
  }

  /** `_ParseHeaders`: opens the field the headers announce. */
  function ParseHeaders(s: State, headers: string): State {
    if IndexOf(headers, FORM_DATA) < 0 then Fail(s, NoFormData)
    else
      var from := IndexOf(headers, NAME);
      if from < 0 then Fail(s, NoName)
      else
        var end := FindFrom(headers, QUOTE, from + |NAME|);
        if end < 0 then Fail(s, NoClosingNameQuote)
        else OpenNamed(s, headers, headers[from + |NAME|..end])
  }

  function OpenNamed(s: State, headers: string, name: string): State {
    var from := IndexOf(headers, FILENAME);
    if from < 0 then OpenField(s, name, Field(false, "", "", ""))
    else
      var end := FindFrom(headers, QUOTE, from + |FILENAME|);
      if end < 0 then Fail(OpenField(s, name, Field(true, "", "", "")), NoClosingFilenameQuote)
      else OpenField(s, name, Field(true, headers[from + |FILENAME|..end], MimeType(headers), ""))
  }

  // ---- The state machine ----------------------------------------------------------------

  ghost predicate Ok(s: State) {
    s.status.ProcessingContentOfTheField? ==> s.name in s.fields
  }

  /** `Field::AcceptSomeData` for the current field, and the truncation that follows it. */
  function SendToField(s: State, n: int): State
    requires Ok(s) && s.status.ProcessingContentOfTheField? && n <= |s.buffer|
  {
    if n > 0 then
      var f := s.fields[s.name];
      s.(fields := s.fields[s.name := f.(content := f.content + s.buffer[..n])], buffer := s.buffer[n..])
    else s
  }

  datatype Turn = Turn(state: State, again: bool)

  function LookTurn(b: string, s: State): Turn {
    var n := IndexOf(s.buffer, b);
    if n >= 0 then Turn(s.(status := ProcessingHeaders, buffer := s.buffer[n + |b|..]), true)
    else Turn(s, false)
  }

  function HeadersTurn(s: State): Turn {
    var i := IndexOf(s.buffer, HEADERS_END);
    if i < 0 then Turn(s, false)
    else
      var t := ParseHeaders(s, CString(s.buffer[..i]));
      if t.failure.Failure? then Turn(t, false)
      else Turn(t.(status := ProcessingContentOfTheField, buffer := s.buffer[i + 4..]), true)
  }

  function ContentTurn(b: string, s: State): Turn
    requires Ok(s) && s.status.ProcessingContentOfTheField?
  {
    var p := IndexOf(s.buffer, b);
    if p >= 0 then Turn(SendToField(s, p - 2).(status := LookingForStartingBoundary), true)
    else Turn(SendToField(s, |s.buffer| - (|b| + 2)), false)
  }

  /** One turn of the loop in `_ProcessData`. */
  function TakeTurn(b: string, s: State): (t: Turn)
    requires Ok(s)
    ensures Ok(t.state)
  {
    match s.status
    case LookingForStartingBoundary => LookTurn(b, s)
    case ProcessingHeaders => HeadersTurn(s)
    case ProcessingContentOfTheField => ContentTurn(b, s)
  }

  function Rank(s: State): nat {
    if s.status.ProcessingContentOfTheField? then 1 else 0
  }

  /** A turn that asks for another one consumes bytes or returns to looking for a boundary. */
  lemma TurnProgress(b: string, s: State)
    requires Ok(s) && |b| > 0
    ensures |TakeTurn(b, s).state.buffer| <= |s.buffer|
    ensures TakeTurn(b, s).again ==>
              || |TakeTurn(b, s).state.buffer| < |s.buffer|
              || (|TakeTurn(b, s).state.buffer| == |s.buffer| && Rank(TakeTurn(b, s).state) < Rank(s))
  {
  }

  /** `_ProcessData` */
  function Drain(b: string, s: State): (r: State)
    requires Ok(s) && |b| > 0
    ensures Ok(r)
    decreases |s.buffer|, Rank(s)
  {
    var t := TakeTurn(b, s);
    TurnProgress(b, s);
    if t.again then Drain(b, t.state) else t.state
  }

  /** `AcceptSomeData` */
  function Accept(b: string, max: nat, s: State, data: string): (r: State)
    requires Ok(s) && |b| > 0
    ensures Ok(r)
  {
    if s.failure.Failure? then s
    else if |s.buffer| + |data| > max then Fail(s.With(data), TooLong)
    else Drain(b, s.With(data))
  }

  function AcceptAll(b: string, max: nat, s: State, chunks: seq<string>): (r: State)
    requires Ok(s) && |b| > 0
    ensures Ok(r)
    decreases |chunks|
  {
    if chunks == [] then s else AcceptAll(b, max, Accept(b, max, s, chunks[0]), chunks[1..])
  }

  const START: State := State(LookingForStartingBoundary, map[], "", "", NoFailure)

  // ---- Chunking independence ---------------------------------------------------------------

  lemma LookTurnExtends(b: string, s: State, more: string)
    requires LookTurn(b, s).again
    ensures LookTurn(b, s.With(more)) == Turn(LookTurn(b, s).state.With(more), true)
  {
    FoundStays(s.buffer, b, more);
    var n := IndexOf(s.buffer, b) + |b|;
    assert (s.buffer + more)[n..] == s.buffer[n..] + more;
  }

  lemma ParseHeadersKeepsRest(s: State, headers: string, more: string)
    ensures ParseHeaders(s.With(more), headers) == ParseHeaders(s, headers).With(more)
    ensures ParseHeaders(s, headers).buffer == s.buffer
  {
  }

  lemma HeadersFoundStay(buffer: string, more: string)
    requires IndexOf(buffer, HEADERS_END) >= 0
    ensures var i := IndexOf(buffer, HEADERS_END);
            && IndexOf(buffer + more, HEADERS_END) == i && i + 4 <= |buffer|
            && (buffer + more)[..i] == buffer[..i]
            && (buffer + more)[i + 4..] == buffer[i + 4..] + more
  {
    FoundStays(buffer, HEADERS_END, more);
  }

  lemma HeadersTurnExtends(s: State, more: string)
    requires HeadersTurn(s).again || (HeadersTurn(s).state.failure.Failure? && s.failure.NoFailure?)
    ensures HeadersTurn(s.With(more)) == Turn(HeadersTurn(s).state.With(more), HeadersTurn(s).again)
  {
    HeadersFoundStay(s.buffer, more);
    var i := IndexOf(s.buffer, HEADERS_END);
    ParseHeadersKeepsRest(s, CString(s.buffer[..i]), more);
  }

  lemma SendExtends(s: State, n: int, more: string)
    requires Ok(s) && s.status.ProcessingContentOfTheField? && n <= |s.buffer|
    ensures SendToField(s.With(more), n) == SendToField(s, n).With(more)
  {
    if n > 0 {
      assert (s.buffer + more)[..n] == s.buffer[..n];
      assert (s.buffer + more)[n..] == s.buffer[n..] + more;
    }
  }

  lemma ContentTurnExtends(b: string, s: State, more: string)
    requires Ok(s) && s.status.ProcessingContentOfTheField? && ContentTurn(b, s).again
    ensures ContentTurn(b, s.With(more)) == Turn(ContentTurn(b, s).state.With(more), true)
  {
    FoundStays(s.buffer, b, more);
    SendExtends(s, IndexOf(s.buffer, b) - 2, more);
  }

  /** Sending `n` bytes and then `m` more is sending `n + m` bytes. */
  lemma SendTwice(s: State, n: nat, m: int)
    requires Ok(s) && s.status.ProcessingContentOfTheField? && 0 < n && 0 <= m && n + m <= |s.buffer|
    ensures SendToField(SendToField(s, n), m) == SendToField(s, n + m)
  {
    var u := SendToField(s, n);
    assert u.buffer == s.buffer[n..];
    if m > 0 {
      var c := s.fields[s.name].content;
      assert (c + s.buffer[..n]) + u.buffer[..m] == c + s.buffer[..n + m];
      assert u.buffer[m..] == s.buffer[n + m..];
      assert s.fields[s.name := u.fields[s.name]][s.name := SendToField(u, m).fields[s.name]]
          == s.fields[s.name := SendToField(u, m).fields[s.name]];
    }
  }

  lemma EarlySendThenBoundary(b: string, s: State, n: nat)
    requires Ok(s) && s.status.ProcessingContentOfTheField? && 0 < n && n + 2 <= IndexOf(s.buffer, b)
    ensures ContentTurn(b, SendToField(s, n)) == ContentTurn(b, s)
  {
    var p := IndexOf(s.buffer, b);
    var late := SendToField(s, n);
    assert late.buffer == s.buffer[n..];
    FoundAfterDrop(s.buffer, b, n);
    SendTwice(s, n, p - 2 - n);
  }

  lemma EarlySendThenNothing(b: string, s: State, n: nat)
    requires Ok(s) && s.status.ProcessingContentOfTheField? && 0 < n <= |s.buffer| - (|b| + 2)
    requires IndexOf(s.buffer, b) < 0
    ensures ContentTurn(b, SendToField(s, n)) == ContentTurn(b, s)
  {
    var late := SendToField(s, n);
    assert late.buffer == s.buffer[n..];
    AbsentAfterDrop(s.buffer, b, n);
    SendTwice(s, n, |late.buffer| - (|b| + 2));
  }

  /**
    Content handed over early, before the boundary was in sight, changes nothing:
    enough bytes are held back for a boundary that arrives in pieces.
    */
  lemma EarlySendIsHarmless(b: string, s: State, more: string)
    requires Ok(s) && s.status.ProcessingContentOfTheField? && |b| > 0 && !ContentTurn(b, s).again
    ensures ContentTurn(b, s.With(more)) == ContentTurn(b, ContentTurn(b, s).state.With(more))
  {
    var n := |s.buffer| - (|b| + 2);
    if n > 0 {
      SendExtends(s, n, more);
      if IndexOf(s.buffer + more, b) >= 0 {
        FoundLater(s.buffer, b, more);
        EarlySendThenBoundary(b, s.With(more), n);
      } else {
        EarlySendThenNothing(b, s.With(more), n);
      }
    }
  }

  /** Draining, then receiving more and draining again, is draining everything at once. */
  lemma {:induction false} DrainExtends(b: string, s: State, more: string)
    requires Ok(s) && |b| > 0 && s.failure.NoFailure?
    ensures var d := Drain(b, s);
            Drain(b, s.With(more)) == if d.failure.Failure? then d.With(more) else Drain(b, d.With(more))
    decreases |s.buffer|, Rank(s)
  {
    var t := TakeTurn(b, s);
    TurnProgress(b, s);
    match s.status {
      case LookingForStartingBoundary =>
        if t.again { LookTurnExtends(b, s, more); DrainExtends(b, t.state, more); }
      case ProcessingHeaders =>
        if t.again { HeadersTurnExtends(s, more); DrainExtends(b, t.state, more); }
        else if t.state.failure.Failure? { HeadersTurnExtends(s, more); }
      case ProcessingContentOfTheField =>
        if t.again { ContentTurnExtends(b, s, more); DrainExtends(b, t.state, more); }
        else { EarlySendIsHarmless(b, s, more); }
    }
  }

  lemma {:induction false} DrainShrinks(b: string, s: State)
    requires Ok(s) && |b| > 0
    ensures |Drain(b, s).buffer| <= |s.buffer|
    decreases |s.buffer|, Rank(s)
  {
    TurnProgress(b, s);
    var t := TakeTurn(b, s);
    if t.again { DrainShrinks(b, t.state); }
  }

  /** What a caller can tell after the parser has failed or is waiting: a failed parser's buffer is dead. */
  function Outcome(s: State): State {
    if s.failure.Failure? then s.(buffer := "") else s
  }

  /** Nothing in the buffer can be processed without more input. */
  ghost predicate Settled(b: string, s: State)
    requires Ok(s) && |b| > 0
  {
    s.failure.NoFailure? && Drain(b, s) == s
  }

  lemma WithNothing(s: State)
    ensures s.With("") == s
  {
    assert s.buffer + "" == s.buffer;
  }

  lemma DrainSettles(b: string, s: State)
    requires Ok(s) && |b| > 0 && s.failure.NoFailure? && Drain(b, s).failure.NoFailure?
    ensures Settled(b, Drain(b, s))
  {
    DrainExtends(b, s, "");
    WithNothing(s);
    WithNothing(Drain(b, s));
  }

  lemma {:induction false} FailedStays(b: string, max: nat, s: State, chunks: seq<string>)
    requires Ok(s) && |b| > 0 && s.failure.Failure?
    ensures AcceptAll(b, max, s, chunks) == s
    decreases |chunks|
  {
    if chunks != [] { FailedStays(b, max, s, chunks[1..]); }
  }

  /** A call within the limit, and then more bytes, is processing everything at once. */
  lemma TwoCalls(b: string, max: nat, s: State, x: string, more: string)
    requires Ok(s) && |b| > 0 && s.failure.NoFailure? && |s.buffer| + |x| <= max
    ensures var d := Accept(b, max, s, x);
            && |d.buffer| <= |s.buffer| + |x|
            && Drain(b, s.With(x + more)) == (if d.failure.Failure? then d.With(more) else Drain(b, d.With(more)))
            && (d.failure.NoFailure? ==> Settled(b, d))
  {
    assert s.With(x).With(more) == s.With(x + more) by {
      assert (s.buffer + x) + more == s.buffer + (x + more);
    }
    DrainShrinks(b, s.With(x));
    DrainExtends(b, s.With(x), more);
    if Drain(b, s.With(x)).failure.NoFailure? { DrainSettles(b, s.With(x)); }
  }

  /** Some call finds more bytes collected than the limit allows. */
  ghost predicate HitsLimit(b: string, max: nat, s: State, chunks: seq<string>)
    requires Ok(s) && |b| > 0
  {
    AcceptAll(b, max, s, chunks).failure == Failure(TooLong)
  }

  /**
    Chunking independence. However a body of any length is cut into calls,
    unless one of them hits the size limit, the parser ends with the same
    fields, state and leftover buffer, or with the same failure, as from the
    whole body at once.
    */
  lemma {:induction false} ChunkingIndependence(b: string, max: nat, s: State, chunks: seq<string>)
    requires Ok(s) && |b| > 0 && Settled(b, s)
    ensures !HitsLimit(b, max, s, chunks) ==>
              Outcome(AcceptAll(b, max, s, chunks)) == Outcome(Drain(b, s.With(Concat(chunks))))
    decreases |chunks|
  {
    if chunks == [] {
      WithNothing(s);
    } else {
      var d := Accept(b, max, s, chunks[0]);
      if d.failure.Failure? { FailedStays(b, max, d, chunks[1..]); }
      if |s.buffer| + |chunks[0]| <= max {
        TwoCalls(b, max, s, chunks[0], Concat(chunks[1..]));
        if d.failure.NoFailure? { ChunkingIndependence(b, max, d, chunks[1..]); }
      }
    }
  }

  /** A body that fits the limit as a whole never hits it, however it is cut. */
  lemma {:induction false} ShortBodyFits(b: string, max: nat, s: State, chunks: seq<string>)
    requires Ok(s) && |b| > 0 && s.failure.NoFailure? && |s.buffer| + |Concat(chunks)| <= max
    ensures !HitsLimit(b, max, s, chunks)
    decreases |chunks|
  {
    if chunks != [] {
      var d := Accept(b, max, s, chunks[0]);
      DrainShrinks(b, s.With(chunks[0]));
      if d.failure.Failure? {
        FailedStays(b, max, d, chunks[1..]);
        DrainNeverTooLong(b, s.With(chunks[0]));
      } else {
        ShortBodyFits(b, max, d, chunks[1..]);
      }
    }
  }

  lemma {:induction false} DrainNeverTooLong(b: string, s: State)
    requires Ok(s) && |b| > 0 && s.failure != Failure(TooLong)
    ensures Drain(b, s).failure != Failure(TooLong)
    decreases |s.buffer|, Rank(s)
  {
    TurnProgress(b, s);
    var t := TakeTurn(b, s);
    if t.again { DrainNeverTooLong(b, t.state); }
  }

  // ---- The size limit ----------------------------------------------------------------------------

  /** Whatever is received, a parser that has not failed holds no more bytes than the limit allows. */
  lemma {:induction false} BufferWithinLimit(b: string, max: nat, s: State, chunks: seq<string>)
    requires Ok(s) && |b| > 0 && |s.buffer| <= max
    ensures AcceptAll(b, max, s, chunks).failure.NoFailure? ==> |AcceptAll(b, max, s, chunks).buffer| <= max
    decreases |chunks|
  {
    if chunks != [] {
      var d := Accept(b, max, s, chunks[0]);
      if d.failure.Failure? {
        FailedStays(b, max, d, chunks[1..]);
      } else {
        DrainShrinks(b, s.With(chunks[0]));
        BufferWithinLimit(b, max, d, chunks[1..]);
      }
    }
  }

  /** What is left of the first `i` pieces, processed without a limit, and the next piece are more than `max` bytes. */
  ghost predicate Overruns(b: string, max: nat, s: State, chunks: seq<string>, i: nat)
    requires Ok(s) && |b| > 0 && i < |chunks|
  {
    var left := Drain(b, s.With(Concat(chunks[..i])));
    left.failure.NoFailure? && |left.buffer| + |chunks[i]| > max
  }

  lemma OverrunsAtOnce(b: string, max: nat, s: State, chunks: seq<string>)
    requires Ok(s) && |b| > 0 && Settled(b, s) && chunks != []
    ensures Overruns(b, max, s, chunks, 0) <==> |s.buffer| + |chunks[0]| > max
  {
    hide Drain;
    assert chunks[..0] == [];
    WithNothing(s);
  }

  lemma OverrunsLater(b: string, max: nat, s: State, chunks: seq<string>, i: nat)
    requires Ok(s) && |b| > 0 && Settled(b, s) && 0 < i < |chunks| && |s.buffer| + |chunks[0]| <= max
    ensures var d := Accept(b, max, s, chunks[0]);
            && (d.failure.Failure? ==> !Overruns(b, max, s, chunks, i))
            && (d.failure.NoFailure? ==> (Overruns(b, max, s, chunks, i) <==> Overruns(b, max, d, chunks[1..], i - 1)))
  {
    hide Drain, Accept;
    var more := chunks[1..][..i - 1];
    assert chunks[..i] == [chunks[0]] + more;
    ConcatCons(chunks[0], more);
    TwoCalls(b, max, s, chunks[0], Concat(more));
  }

  ghost predicate SomeOverruns(b: string, max: nat, s: State, chunks: seq<string>)
    requires Ok(s) && |b| > 0
  {
    exists i: nat | i < |chunks| :: Overruns(b, max, s, chunks, i)
  }

  lemma OverrunsShift(b: string, max: nat, s: State, chunks: seq<string>)
    requires Ok(s) && |b| > 0 && Settled(b, s) && chunks != [] && |s.buffer| + |chunks[0]| <= max
    ensures var d := Accept(b, max, s, chunks[0]);
            && (d.failure.Failure? ==> !SomeOverruns(b, max, s, chunks))
            && (d.failure.NoFailure? ==> (SomeOverruns(b, max, s, chunks) <==> SomeOverruns(b, max, d, chunks[1..])))
  {
    hide Drain, Accept, Overruns;
    var d := Accept(b, max, s, chunks[0]);
    OverrunsAtOnce(b, max, s, chunks);
    if SomeOverruns(b, max, s, chunks) {
      var i: nat :| i < |chunks| && Overruns(b, max, s, chunks, i);
      OverrunsLater(b, max, s, chunks, i);
    }
    if d.failure.NoFailure? && SomeOverruns(b, max, d, chunks[1..]) {
      var i: nat :| i < |chunks[1..]| && Overruns(b, max, d, chunks[1..], i);
      OverrunsLater(b, max, s, chunks, i + 1);
    }
  }

  /**
    The limit is reported if and only if some piece and the bytes left of those
    in front of it, none of which is in error, are together more than it allows.
    */
  lemma {:induction false} LimitIff(b: string, max: nat, s: State, chunks: seq<string>)
    requires Ok(s) && |b| > 0 && Settled(b, s)
    ensures HitsLimit(b, max, s, chunks) <==> SomeOverruns(b, max, s, chunks)
    decreases |chunks|
  {
    hide Overruns, Drain, TakeTurn;
    if chunks != [] {
      var d := Accept(b, max, s, chunks[0]);
      OverrunsAtOnce(b, max, s, chunks);
      if |s.buffer| + |chunks[0]| > max {
        FailedStays(b, max, d, chunks[1..]);
      } else {
        OverrunsShift(b, max, s, chunks);
        TwoCalls(b, max, s, chunks[0], "");
        if d.failure.Failure? {
          DrainNeverTooLong(b, s.With(chunks[0]));
          FailedStays(b, max, d, chunks[1..]);
        } else {
          LimitIff(b, max, d, chunks[1..]);
        }
      }
    }
  }

  /** One call with more than the limit allows is refused. */
  lemma LongPieceIsRefused(b: string, max: nat, data: string)
    requires |b| > 0 && |data| > max
    ensures Ok(START) && AcceptAll(b, max, START, [data]).failure == Failure(TooLong)
  {
    StartIsSettled(b);
    OverrunsAtOnce(b, max, START, [data]);
    LimitIff(b, max, START, [data]);
  }

  lemma StartIsSettled(b: string)
    requires |b| > 0
    ensures Ok(START) && Settled(b, START)
  {
    assert Absent("", b);
    AbsentMeansNone("", b);
  }
}
