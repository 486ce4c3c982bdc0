/**
  Which parts the multipart parser opens a field for under their own name: it
  hands on the headers only up to a blank line and, of those, only up to a NUL.
  */
module MultipartNames {
  import opened Search
  import opened Text
  import opened Multipart
  import opened MultipartHeaders

  // ---- What the parser sees of the headers ---------------------------------------------------

  /** The headers end at the first blank line, and the copy made of them at the first NUL. */
  function Seen(s: string): string {
    var i := IndexOf(s, HEADERS_END);
    CString(if i < 0 then s else s[..i])
  }

  lemma {:induction false} CStringPast(a: string, x: string)
    requires '\0' !in a
    ensures CString(a + x) == a + CString(x)
    decreases |a|
  {
    if a == "" {
      assert a + x == x;
    } else {
      assert (a + x)[1..] == a[1..] + x;
      CStringPast(a[1..], x);
      assert a == [a[0]] + a[1..];
    }
  }

  lemma {:induction false} CStringIsPrefix(a: string)
    ensures CString(a) <= a && ('\0' in a ==> CString(a) < a)
    decreases |a|
  {
    if a != "" && a[0] != '\0' {
      CStringIsPrefix(a[1..]);
      assert a == [a[0]] + a[1..];
    }
  }

  lemma {:induction false} CStringStops(a: string, x: string)
    requires '\0' in a
    ensures CString(a + x) == CString(a)
    decreases |a|
  {
    if a[0] != '\0' {
      assert (a + x)[1..] == a[1..] + x;
      CStringStops(a[1..], x);
    }
  }

  /** A clean text and the character behind it are seen, and the parser looks on. */
  lemma SeenPast(a: string, c: char, rest: string)
    requires Clean(a) && c !in HEADERS_END && c != '\0'
    ensures Seen(a + [c] + rest) == a + [c] + Seen(rest)
  {
    var s, i := a + [c] + rest, IndexOf(rest, HEADERS_END);
    FindBeyond(a, c, rest, HEADERS_END);
    if i >= 0 {
      assert s[..|a| + 1 + i] == (a + [c]) + rest[..i];
      CStringPast(a + [c], rest[..i]);
    } else {
      CStringPast(a + [c], rest);
    }
  }

  /** Of a text that is not clean less than all is seen. */
  lemma SeenStops(a: string, c: char, rest: string)
    requires !Clean(a) && c !in HEADERS_END
    ensures Seen(a + [c] + rest) < a
  {
    var s, k := a + [c] + rest, IndexOf(a, HEADERS_END);
    assert s == a + ([c] + rest);
    if k >= 0 {
      FoundStays(a, HEADERS_END, [c] + rest);
      assert s[..k] == a[..k];
      CStringIsPrefix(a[..k]);
    } else {
      FindBeyond(a, c, rest, HEADERS_END);
      var i := IndexOf(s, HEADERS_END);
      var t := if i < 0 then s else s[..i];
      assert t == a + t[|a|..];
      CStringStops(a, t[|a|..]);
      CStringIsPrefix(a);
    }
  }

  lemma SeenInTurn(s: State, h: string, rest: string)
    requires s.buffer == h + HEADERS_END + rest
    ensures var t := ParseHeaders(s, Seen(s.buffer));
            && (t.failure.Failure? ==> HeadersTurn(s) == Turn(t, false))
            && (t.failure.NoFailure? ==>
                  && HeadersTurn(s).again && HeadersTurn(s).state.failure.NoFailure?
                  && HeadersTurn(s).state.name == t.name && HeadersTurn(s).state.fields == t.fields)
  {
    assert s.buffer[|h|..|h| + 4] == HEADERS_END;
    assert At(s.buffer, HEADERS_END, |h|);
  }

  // ---- The name -------------------------------------------------------------------------------

  lemma FirstMark(u: string) returns (n: string, v: string)
    requires MARK in u
    ensures u == n + [MARK] + v && MARK !in n
  {
    var k :| 0 <= k < |u| && u[k] == MARK && MARK !in u[..k] by { LeastMark(u); }
    n, v := u[..k], u[k + 1..];
  }

  lemma {:induction false} LeastMark(u: string)
    requires MARK in u
    ensures exists k | 0 <= k < |u| :: u[k] == MARK && MARK !in u[..k]
    decreases |u|
  {
    var m := |u| - 1;
    if MARK in u[..m] {
      LeastMark(u[..m]);
      var k :| 0 <= k < m && u[..m][k] == MARK && MARK !in u[..m][..k];
      assert u[..m][..k] == u[..k];
    } else {
      assert u[m] == MARK;
    }
  }

  lemma FirstIsEarlier(n: string, v: string, q: nat)
    requires MARK !in n && q < |n + [MARK] + v|
    ensures (n + [MARK] + v)[q] == MARK ==> |n| <= q
  {
    assert q < |n| ==> (n + [MARK] + v)[q] == n[q];
  }

  lemma NoMarkAhead(h: string, k: nat)
    requires k <= |h| && MARK !in h[k..]
    ensures FindFrom(h, QUOTE, k) < 0
  {
    Keywords();
    NoFirstChar(h[k..], QUOTE);
    AbsentMeansNone(h[k..], QUOTE);
  }

  /** Without a closing quote the headers are refused. */
  lemma NameIsOpen(s: State, u: string)
    requires MARK !in u
    ensures ParseHeaders(s, LEAD + [MARK] + u) == Fail(s, NoClosingNameQuote)
  {
    hide IndexOf;
    var h := LEAD + [MARK] + u;
    Keywords();
    FormDataIsFound(u);
    assert h[|LEAD| + 1..] == u;
    NoMarkAhead(h, |LEAD| + 1);
  }

  /** With one, the field is called what stands in front of it. */
  lemma NameIsClosed(s: State, name: string, extra: string)
    requires MARK !in name
    ensures ParseHeaders(s, Announce(name, extra)) == OpenNamed(s, Announce(name, extra), name)
    ensures ParseHeaders(s, Announce(name, extra)).name == name
  {
    hide IndexOf, FindFrom, MimeType;
    Keywords();
    NameIsFound(name, extra);
  }

  /** If less than the name is seen, or the name has a quote in it, no field of that name is opened. */
  lemma OtherName(s: State, u: string, name: string)
    requires u < name || (MARK in name && name <= u)
    ensures var t := ParseHeaders(s, LEAD + [MARK] + u); t.failure.Failure? || t.name != name
  {
    hide ParseHeaders, OpenNamed;
    if MARK !in u {
      NameIsOpen(s, u);
    } else {
      var n, v := FirstMark(u);
      NameIsClosed(s, n, v);
      if MARK in name && name <= u {
        var q :| 0 <= q < |name| && name[q] == MARK;
        FirstIsEarlier(n, v, q);
      }
    }
  }

  lemma NameIsSeen(name: string, more: string)
    ensures Clean(name) ==> Seen(Announce(name, more)) == Announce(name, Seen(more))
    ensures !Clean(name) ==> exists u :: Seen(Announce(name, more)) == LEAD + [MARK] + u && u < name
  {
    hide Seen, Clean;
    LeadChars();
    Keywords();
    LeadIsClean();
    SeenPast(LEAD, MARK, name + [MARK] + more);
    if Clean(name) {
      SeenPast(name, MARK, more);
    } else {
      SeenStops(name, MARK, more);
    }
  }

  lemma LeadIsClean()
    ensures Clean(LEAD) && Clean(FILE_LEAD)
  {
    LeadChars();
    LeadHasNoBlankLine();
    FileLeadFacts();
  }

  lemma RestOfBuffer(p: Part, rest: string)
    ensures HeaderText(p) + HEADERS_END + rest == Announce(p.name, Extra(p) + (HEADERS_END + rest))
  {
    HeaderInPieces(LEAD, MARK, p.name, Extra(p), HEADERS_END, rest);
  }

  lemma NothingSeen(rest: string)
    ensures Seen(HEADERS_END + rest) == "" && Seen("" + (HEADERS_END + rest)) == ""
  {
    StartsWithIt(HEADERS_END, rest);
    assert "" + (HEADERS_END + rest) == HEADERS_END + rest;
  }

  /** Whatever the part: if its name is not plain, no field of that name is opened. */
  lemma NameIsRefused(s: State, p: Part, rest: string)
    requires s.buffer == HeaderText(p) + HEADERS_END + rest && !Plain(p.name)
    ensures !(HeadersTurn(s).again && HeadersTurn(s).state.name == p.name)
  {
    hide Seen, ParseHeaders, HeadersTurn, HeaderText, Announce, Clean, IndexOf;
    var more := Extra(p) + (HEADERS_END + rest);
    RestOfBuffer(p, rest);
    NameIsSeen(p.name, more);
    if Clean(p.name) {
      var u := p.name + [MARK] + Seen(more);
      AnnounceParts(p.name, Seen(more));
      OtherName(s, u, p.name);
    } else {
      var u :| Seen(Announce(p.name, more)) == LEAD + [MARK] + u && u < p.name;
      OtherName(s, u, p.name);
    }
    SeenInTurn(s, HeaderText(p), rest);
  }

  lemma AnnounceParts(name: string, extra: string)
    ensures Announce(name, extra) == LEAD + [MARK] + (name + [MARK] + extra)
  {
  }

  ghost predicate OpensText(t: Turn, name: string) {
    t.again && t.state.name == name && name in t.state.fields && !t.state.fields[name].isFile
  }

  /**
    Whatever the name of a text part, the parser opens a text field of that
    name if and only if there is no quote, NUL or blank line in it and it does
    not end in `filename=`.
    */
  lemma TextFieldIff(s: State, name: string, content: string, rest: string)
    requires s.failure.NoFailure? && s.buffer == HeaderText(TextPart(name, content)) + HEADERS_END + rest
    ensures OpensText(HeadersTurn(s), name) <==> Plain(name) && !EndsWith(name, "filename=")
  {
    hide Seen, ParseHeaders, HeadersTurn, HeaderText, Announce, EndsWith, IndexOf;
    var p := TextPart(name, content);
    if Plain(name) {
      TextIsSeen(p, rest);
      TextHeaderParses(s, name, content);
      SeenInTurn(s, HeaderText(p), rest);
    } else {
      NameIsRefused(s, p, rest);
    }
  }

  lemma TextIsSeen(p: Part, rest: string)
    requires p.TextPart? && Plain(p.name)
    ensures Seen(HeaderText(p) + HEADERS_END + rest) == HeaderText(p)
  {
    hide Seen, IndexOf;
    RestOfBuffer(p, rest);
    NameIsSeen(p.name, Extra(p) + (HEADERS_END + rest));
    NothingSeen(rest);
  }

  /** Of the names without a quote, which are refused and with which error. */
  lemma TextNameErrors(s: State, name: string, content: string, rest: string)
    requires MARK !in name && s.failure.NoFailure?
    requires s.buffer == HeaderText(TextPart(name, content)) + HEADERS_END + rest
    ensures !Clean(name) ==> HeadersTurn(s) == Turn(Fail(s, NoClosingNameQuote), false)
    ensures Clean(name) && EndsWith(name, "filename=") ==> HeadersTurn(s).state.failure == Failure(NoClosingFilenameQuote)
  {
    hide Seen, ParseHeaders, HeadersTurn, HeaderText, Announce, EndsWith, IndexOf, Clean;
    var p := TextPart(name, content);
    var more := Extra(p) + (HEADERS_END + rest);
    SeenInTurn(s, HeaderText(p), rest);
    if Clean(name) {
      TextIsSeen(p, rest);
      TextHeaderParses(s, name, content);
    } else {
      RestOfBuffer(p, rest);
      NameIsSeen(name, more);
      var u :| Seen(Announce(name, more)) == LEAD + [MARK] + u && u < name;
      assert forall i | 0 <= i < |u| :: u[i] == name[i];
      NameIsOpen(s, u);
    }
  }

  // ---- The file name ---------------------------------------------------------------------------

  /** Headers with a file name, and whatever is seen behind its opening quote. */
  function AnnounceFile(name: string, x: string): string {
    Announce(name, FILE_LEAD + [MARK] + x)
  }

  /** From a name that ends in `filename=`, the lead of the file name is taken for it. */
  lemma LeadIsTaken(s: State, name: string, x: string)
    requires MARK !in name && EndsWith(name, "filename=")
    ensures var t := ParseHeaders(s, AnnounceFile(name, x));
            t == OpenField(s, name, Field(true, FILE_LEAD, MimeType(AnnounceFile(name, x)), ""))
  {
    hide IndexOf, FindFrom, MimeType, ParseHeaders;
    var h := AnnounceFile(name, x);
    NameIsFound(name, FILE_LEAD + [MARK] + x);
    FilenameIsFound(name, FILE_LEAD + [MARK] + x);
    FileLeadFacts();
    assert h == (LEAD + [MARK] + name) + [MARK] + (FILE_LEAD + [MARK] + x);
    Quoted(LEAD + [MARK] + name, FILE_LEAD, x, h);
    FileHeaderSteps(s, h, |LEAD| - 5, name, |LEAD| + 1 + |name| - 9, FILE_LEAD);
  }

  lemma FileNameIsClosed(s: State, name: string, fileName: string, y: string)
    requires MARK !in name && MARK !in fileName && !EndsWith(name, "filename=")
    ensures var h := AnnounceFile(name, fileName + [MARK] + y);
            ParseHeaders(s, h) == OpenField(s, name, Field(true, fileName, MimeType(h), ""))
  {
    hide IndexOf, FindFrom, MimeType, ParseHeaders, EndsWith;
    var x := fileName + [MARK] + y;
    var h, lead := AnnounceFile(name, x), LEAD + [MARK] + name + [MARK] + FILE_LEAD;
    NameIsFound(name, FILE_LEAD + [MARK] + x);
    FilenameIsFound(name, FILE_LEAD + [MARK] + x);
    FileLeadIsFound(x);
    FileLeadFacts();
    assert h == lead + [MARK] + (fileName + [MARK] + y);
    Quoted(lead, fileName, y, h);
    FileHeaderSteps(s, h, |LEAD| - 5, name, |LEAD| + 1 + |name| + 3, fileName);
  }

  lemma FileNameIsOpen(s: State, name: string, x: string)
    requires MARK !in name && MARK !in x && !EndsWith(name, "filename=")
    ensures ParseHeaders(s, AnnounceFile(name, x)).failure == Failure(NoClosingFilenameQuote)
  {
    hide IndexOf, FindFrom, MimeType, EndsWith;
    var h := AnnounceFile(name, x);
    NameIsClosed(s, name, FILE_LEAD + [MARK] + x);
    FilenameIsFound(name, FILE_LEAD + [MARK] + x);
    FileLeadIsFound(x);
    FileLeadFacts();
    Keywords();
    assert h[|LEAD| + 1 + |name| + 13..] == x;
    NoMarkAhead(h, |LEAD| + 1 + |name| + 13);
  }

  ghost predicate OpensFile(t: State, name: string, fileName: string) {
    t.failure.NoFailure? && t.name == name && name in t.fields && t.fields[name].isFile && t.fields[name].fileName == fileName
  }

  /** If less than the file name is seen, or it has a quote in it, it is not the one found. */
  lemma OtherFileName(s: State, name: string, x: string, fileName: string)
    requires MARK !in name && !EndsWith(name, "filename=")
    requires x < fileName || (MARK in fileName && fileName <= x)
    ensures !OpensFile(ParseHeaders(s, AnnounceFile(name, x)), name, fileName)
  {
    hide ParseHeaders, AnnounceFile, MimeType, EndsWith;
    if MARK !in x {
      FileNameIsOpen(s, name, x);
    } else {
      var n, v := FirstMark(x);
      FileNameIsClosed(s, name, n, v);
      if MARK in fileName && fileName <= x {
        var q :| 0 <= q < |fileName| && fileName[q] == MARK;
        FirstIsEarlier(n, v, q);
      }
    }
  }

  /** What is seen of the headers of a file with a clean name. */
  lemma FileIsSeen(p: Part, rest: string) returns (x: string)
    requires p.FilePart? && Clean(p.name)
    ensures Seen(HeaderText(p) + HEADERS_END + rest) == AnnounceFile(p.name, x)
    ensures Clean(p.fileName) ==> exists y :: x == p.fileName + [MARK] + y
    ensures !Clean(p.fileName) ==> x < p.fileName
  {
    hide Seen, IndexOf, Clean;
    var end := HEADERS_END + rest;
    var m := MediaText(p.media) + end;
    RestOfBuffer(p, rest);
    NameIsSeen(p.name, Extra(p) + end);
    ExtraInPieces(FILE_LEAD, MARK, p.fileName, MediaText(p.media), end);
    LeadIsClean();
    Keywords();
    x := Seen(p.fileName + [MARK] + m);
    SeenPast(FILE_LEAD, MARK, p.fileName + [MARK] + m);
    if Clean(p.fileName) {
      SeenPast(p.fileName, MARK, m);
    } else {
      SeenStops(p.fileName, MARK, m);
    }
  }

  /**
    Whatever the names and the media type of a file part, the parser opens a
    file field of that name with that file name if and only if the name is
    plain and, unless it ends in `filename=`, the file name is plain too. With
    such an ending only the file name `; filename=` comes out right.
    */
  lemma FileFieldIff(s: State, p: Part, rest: string)
    requires p.FilePart? && s.failure.NoFailure? && s.buffer == HeaderText(p) + HEADERS_END + rest
    ensures HeadersTurn(s).again && OpensFile(HeadersTurn(s).state, p.name, p.fileName) <==>
            Plain(p.name) && if EndsWith(p.name, "filename=") then p.fileName == FILE_LEAD else Plain(p.fileName)
  {
    hide Seen, ParseHeaders, HeadersTurn, HeaderText, AnnounceFile, Clean, EndsWith, MimeType, IndexOf;
    if Plain(p.name) {
      var x := FileIsSeen(p, rest);
      SeenInTurn(s, HeaderText(p), rest);
      FileTurnIff(s, p, x);
    } else {
      NameIsRefused(s, p, rest);
    }
  }

  lemma FileTurnIff(s: State, p: Part, x: string)
    requires p.FilePart? && s.failure.NoFailure? && Plain(p.name)
    requires Clean(p.fileName) ==> exists y :: x == p.fileName + [MARK] + y
    requires !Clean(p.fileName) ==> x < p.fileName
    ensures OpensFile(ParseHeaders(s, AnnounceFile(p.name, x)), p.name, p.fileName) <==>
            if EndsWith(p.name, "filename=") then p.fileName == FILE_LEAD else Plain(p.fileName)
  {
    hide ParseHeaders, AnnounceFile, Clean, EndsWith, MimeType;
    if EndsWith(p.name, "filename=") {
      LeadIsTaken(s, p.name, x);
    } else if Plain(p.fileName) {
      var y :| x == p.fileName + [MARK] + y;
      FileNameIsClosed(s, p.name, p.fileName, y);
    } else {
      OtherFileName(s, p.name, x, p.fileName);
    }
  }
}
