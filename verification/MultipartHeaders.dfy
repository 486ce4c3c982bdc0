/**
  The headers of a part rendered the way browsers do, and what `_ParseHeaders`
  makes of them: the field it opens, with its file name and media type.
  */
module MultipartHeaders {
  import opened Search
  import opened Text
  import opened Multipart

  datatype Part =
    | TextPart(name: string, content: string)
    | FilePart(name: string, fileName: string, media: Media, content: string)

  /** The `Content-Type` line of a part, if it has one, with whatever stands behind the media type. */
  datatype Media = NoMedia | Media(mediaType: string, post: string)

  const MARK: char := '\"'

  /** Header text up to the quote that opens the name. */
  const LEAD: string := "\r\n" + FORM_DATA + " name="
  const FILE_LEAD: string := "; filename="

  function MediaText(m: Media): string {
    if m.NoMedia? then "" else "\r\n" + CONTENT_TYPE + m.mediaType + m.post
  }

  function Extra(p: Part): string {
    if p.TextPart? then "" else FILE_LEAD + [MARK] + (p.fileName + [MARK] + MediaText(p.media))
  }

  function HeaderText(p: Part): string {
    LEAD + [MARK] + (p.name + [MARK] + Extra(p))
  }

  /** The media type the part was sent with. */
  function SentType(m: Media): string {
    if m.NoMedia? then "" else m.mediaType
  }

  /** What is kept of a media type: all but the last character when something stands behind it. */
  function KeptType(m: Media): string {
    if m.NoMedia? then ""
    else if m.post == "" then m.mediaType
    else if m.mediaType == "" then m.post
    else m.mediaType[..|m.mediaType| - 1]
  }

  /** What is taken for the media type when the keyword stands in a quoted name and `r` follows it there. */
  function Misread(r: string, quote: string, behind: string): string {
    var n := MimeTypeEnd(r, 0);
    if n == |r| then r + quote
    else if n == 0 then r + behind
    else r[..n - 1]
  }

  /** The media type found: behind the keyword in the name, or in the file name, or where it belongs. */
  function FoundType(p: Part): string
    requires p.FilePart?
  {
    var i, j := IndexOf(p.name, CONTENT_TYPE), IndexOf(p.fileName, CONTENT_TYPE);
    if i >= 0 then Misread(p.name[i + |CONTENT_TYPE|..], [MARK], [MARK] + Extra(p))
    else if j >= 0 then
      Misread(p.fileName[j + |CONTENT_TYPE|..], if p.media.NoMedia? then [MARK] else "", [MARK] + MediaText(p.media))
    else KeptType(p.media)
  }

  /** From a name that ends in `filename=`, the lead of the real file name is taken for the file name. */
  function FoundFileName(p: Part): string
    requires p.FilePart?
  {
    if EndsWith(p.name, "filename=") then FILE_LEAD else p.fileName
  }

  function FieldOf(p: Part): Field {
    match p
    case TextPart(_, content) => Field(false, "", "", content)
    case FilePart(_, _, _, content) => Field(true, FoundFileName(p), FoundType(p), content)
  }

  predicate EndsWith(s: string, q: string) {
    |q| <= |s| && s[|s| - |q|..] == q
  }

  /** No NUL and no blank line inside. */
  ghost predicate Clean(s: string) {
    '\0' !in s && Absent(s, HEADERS_END)
  }

  /** No quote either. */
  ghost predicate Plain(s: string) {
    MARK !in s && Clean(s)
  }

  /** The media type is one word, ended by the headers' end or by a space or line break. */
  ghost predicate WordMedia(m: Media) {
    m.Media? ==> Word(m.mediaType, m.post)
  }

  ghost predicate SafeMedia(m: Media) {
    && WordMedia(m)
    && (m.Media? ==>
          && '\0' !in m.mediaType && '\0' !in m.post
          && First(m.post + HEADERS_END, HEADERS_END, |m.post|))
  }

  ghost predicate SafeHeader(p: Part) {
    && Plain(p.name)
    && (p.TextPart? ==> !EndsWith(p.name, "filename="))
    && (p.FilePart? ==> Plain(p.fileName) && SafeMedia(p.media))
  }

  // ---- Searching for a pattern that ends in a quote ----------------------------------------

  lemma AtMarked(a: string, m: char, rest: string, q: string, j: int)
    requires m !in a && m !in q && At(a + [m] + rest, q + [m], j)
    ensures (j + |q| == |a| && EndsWith(a, q)) || (j > |a| && At(rest, q + [m], j - |a| - 1))
  {
    var s, p := a + [m] + rest, q + [m];
    assert forall i | 0 <= i < |a| :: s[i] == a[i] != m;
    AtChar(s, p, j, |q|);
    if j + |q| == |a| {
      assert a[j..] == s[j..j + |p|][..|q|] == q;
    } else {
      if j <= |a| { AtChar(s, p, j, |a| - j); }
      assert s[|a| + 1..] == rest;
      Shift(s, p, |a| + 1);
    }
  }

  /** Up to the first quote only the text right before that quote can match. */
  lemma FindMarked(a: string, m: char, rest: string, q: string)
    requires m !in a && m !in q
    ensures IndexOf(a + [m] + rest, q + [m]) ==
            if EndsWith(a, q) then |a| - |q|
            else if IndexOf(rest, q + [m]) < 0 then -1
            else |a| + 1 + IndexOf(rest, q + [m])
  {
    var s, p := a + [m] + rest, q + [m];
    assert s[|a| + 1..] == rest;
    Shift(s, p, |a| + 1);
    var i, k := IndexOf(s, p), IndexOf(rest, p);
    if i >= 0 { AtMarked(a, m, rest, q, i); }
    if EndsWith(a, q) {
      assert s[|a| - |q|..|a| - |q| + |p|] == a[|a| - |q|..] + [m] == p;
      assert At(s, p, |a| - |q|);
    } else if k >= 0 {
      assert At(s, p, |a| + 1 + k) <==> At(rest, p, |a| + 1 + k - (|a| + 1));
    }
  }

  /** A pattern without the character `c` is found on one side of `c` or the other. */
  lemma FindBeyond(a: string, c: char, rest: string, p: string)
    requires c !in p && |p| > 0 && Absent(a, p)
    ensures IndexOf(a + [c] + rest, p) == if IndexOf(rest, p) < 0 then -1 else |a| + 1 + IndexOf(rest, p)
  {
    var s, i := a + [c] + rest, IndexOf(rest, p);
    assert s == a + ([c] + rest) && s[|a| + 1..] == rest;
    AtExtended(a, p, [c] + rest);
    Shift(s, p, |a| + 1);
    forall j | j <= |a| ensures !At(s, p, j) {
      assert !At(a, p, j);
      if 0 <= j && |a| < j + |p| { AtChar(s, p, j, |a| - j); }
    }
    forall j | j > |a| ensures At(s, p, j) <==> At(rest, p, j - (|a| + 1)) {
    }
    if i >= 0 {
      FirstUnique(s, p, |a| + 1 + i);
    } else {
      AbsentMeansNone(s, p);
    }
  }

  lemma NoFirstChar(s: string, p: string)
    requires |p| > 0 && p[0] !in s
    ensures Absent(s, p)
  {
    forall j ensures !At(s, p, j) { AtChar(s, p, j, 0); }
  }

  // ---- Header parsing ---------------------------------------------------------------------

  lemma LeadChars()
    ensures MARK !in LEAD && '\0' !in LEAD
  {
    assert MARK !in FORM_DATA && '\0' !in FORM_DATA;
  }

  lemma OneLineBreak(tail: string)
    requires '\r' !in tail
    ensures Absent("\r\n" + tail, HEADERS_END)
  {
    var s := "\r\n" + tail;
    forall j ensures !At(s, HEADERS_END, j) {
      AtChar(s, HEADERS_END, j, 2);
    }
  }

  lemma LeadHasNoBlankLine()
    ensures Absent(LEAD, HEADERS_END)
  {
    assert '\r' !in FORM_DATA;
    OneLineBreak(FORM_DATA + " name=");
    assert LEAD == "\r\n" + (FORM_DATA + " name=");
  }

  lemma LeadEnds()
    ensures EndsWith(LEAD, "name=") && !EndsWith(LEAD, "filename=")
  {
    assert LEAD[|LEAD| - 5..] == "name=";
    assert LEAD[|LEAD| - 6] == ' ';
    assert LEAD[|LEAD| - 9..][3] == LEAD[|LEAD| - 6];
  }

  lemma LeadHasFormData()
    ensures At(LEAD, FORM_DATA, 2)
  {
    assert LEAD[2..2 + |FORM_DATA|] == FORM_DATA;
  }

  lemma Keywords()
    ensures NAME == "name=" + [MARK] && FILENAME == "filename=" + [MARK] && QUOTE == "" + [MARK]
    ensures |NAME| == 6 && |FILENAME| == 10
    ensures MARK !in "name=" && MARK !in "filename=" && MARK !in "" && MARK !in HEADERS_END
  {
  }

  lemma FileLeadFacts()
    ensures MARK !in FILE_LEAD && '\0' !in FILE_LEAD && Absent(FILE_LEAD, HEADERS_END)
    ensures EndsWith(FILE_LEAD, "filename=") && |FILE_LEAD| == 11
  {
    assert '\r' !in FILE_LEAD;
    NoFirstChar(FILE_LEAD, HEADERS_END);
  }

  /** What stands between two quotes is found by looking for the second one. */
  lemma Quoted(lead: string, text: string, rest: string, h: string)
    requires MARK !in text && h == lead + [MARK] + (text + [MARK] + rest)
    ensures FindFrom(h, QUOTE, |lead| + 1) == |lead| + 1 + |text|
    ensures h[|lead| + 1..|lead| + 1 + |text|] == text
  {
    Keywords();
    assert h[|lead| + 1..] == text + [MARK] + rest;
    FindMarked(text, MARK, rest, "");
  }

  /** Headers that announce a name, and whatever follows it. */
  function Announce(name: string, extra: string): string {
    LEAD + [MARK] + (name + [MARK] + extra)
  }

  lemma HeaderAnnounces(p: Part)
    ensures HeaderText(p) == Announce(p.name, Extra(p))
  {
  }

  lemma FormDataIsFound(u: string)
    ensures IndexOf(LEAD + [MARK] + u, FORM_DATA) >= 0 && IndexOf(LEAD + [MARK] + u, NAME) == |LEAD| - 5
  {
    LeadHasFormData();
    LeadChars();
    LeadEnds();
    Keywords();
    AtExtended(LEAD, FORM_DATA, [MARK] + u);
    assert LEAD + [MARK] + u == LEAD + ([MARK] + u);
    assert At(LEAD + [MARK] + u, FORM_DATA, 2);
    FindMarked(LEAD, MARK, u, "name=");
  }

  /** The name is what stands between the first two quotes. */
  lemma NameIsFound(name: string, extra: string)
    requires MARK !in name
    ensures var h := Announce(name, extra);
            && IndexOf(h, FORM_DATA) >= 0 && IndexOf(h, NAME) == |LEAD| - 5
            && FindFrom(h, QUOTE, |LEAD| + 1) == |LEAD| + 1 + |name|
            && h[|LEAD| + 1..|LEAD| + 1 + |name|] == name
  {
    FormDataIsFound(name + [MARK] + extra);
    Quoted(LEAD, name, extra, Announce(name, extra));
  }

  /** The first `filename="` lies in the name when the name ends in `filename=`, and otherwise behind it. */
  lemma FilenameIsFound(name: string, extra: string)
    requires MARK !in name
    ensures IndexOf(Announce(name, extra), FILENAME) ==
            if EndsWith(name, "filename=") then |LEAD| + 1 + |name| - 9
            else if IndexOf(extra, FILENAME) < 0 then -1
            else |LEAD| + 1 + |name| + 1 + IndexOf(extra, FILENAME)
  {
    LeadChars();
    LeadEnds();
    Keywords();
    FindMarked(LEAD, MARK, name + [MARK] + extra, "filename=");
    FindMarked(name, MARK, extra, "filename=");
  }

  lemma NothingIsFound(p: string)
    requires |p| > 0
    ensures IndexOf("", p) == -1
  {
  }

  lemma FileLeadIsFound(x: string)
    ensures IndexOf(FILE_LEAD + [MARK] + x, FILENAME) == 2
  {
    FileLeadFacts();
    Keywords();
    FindMarked(FILE_LEAD, MARK, x, "filename=");
  }

  /**
    A quote-free name is accepted as a text field exactly when it does not end
    in `filename=`; if it does, its own closing quote is taken for the start of
    a file name and the headers are rejected.
    */
  lemma TextHeaderParses(s: State, name: string, content: string)
    requires MARK !in name
    ensures ParseHeaders(s, HeaderText(TextPart(name, content))) ==
            if EndsWith(name, "filename=")
            then Fail(OpenField(s, name, Field(true, "", "", "")), NoClosingFilenameQuote)
            else OpenField(s, name, Field(false, "", "", ""))
  {
    var h := Announce(name, "");
    NameIsFound(name, "");
    FilenameIsFound(name, "");
    NothingIsFound(FILENAME);
    NothingIsFound(QUOTE);
    assert |h| == |LEAD| + 1 + |name| + 1 && h[|h|..] == "";
  }

  lemma FileNameIsQuoted(p: Part)
    requires p.FilePart? && MARK !in p.fileName
    ensures var k := |LEAD| + 1 + |p.name| + 1 + 2 + 10;
            && FindFrom(HeaderText(p), QUOTE, k) == k + |p.fileName|
            && HeaderText(p)[k..k + |p.fileName|] == p.fileName
  {
    FileLeadFacts();
    var lead := LEAD + [MARK] + p.name + [MARK] + FILE_LEAD;
    assert HeaderText(p) == lead + [MARK] + (p.fileName + [MARK] + MediaText(p.media));
    Quoted(lead, p.fileName, MediaText(p.media), HeaderText(p));
  }

  lemma FileHeaderSteps(s: State, h: string, i: nat, name: string, k: nat, fileName: string)
    requires IndexOf(h, FORM_DATA) >= 0 && IndexOf(h, NAME) == i && IndexOf(h, FILENAME) == k
    requires FindFrom(h, QUOTE, i + 6) == i + 6 + |name| && h[i + 6..i + 6 + |name|] == name
    requires FindFrom(h, QUOTE, k + 10) == k + 10 + |fileName| && h[k + 10..k + 10 + |fileName|] == fileName
    ensures ParseHeaders(s, h) == OpenField(s, name, Field(true, fileName, MimeType(h), ""))
  {
    hide IndexOf, FindFrom, MimeType;
    Keywords();
  }

  /** A pattern is not found in front of its first possible character. */
  lemma FindBehind(a: string, rest: string, p: string)
    requires |p| > 0 && p[0] !in a
    ensures IndexOf(a + rest, p) == if IndexOf(rest, p) < 0 then -1 else |a| + IndexOf(rest, p)
  {
    var s, i := a + rest, IndexOf(rest, p);
    assert s[|a|..] == rest;
    Shift(s, p, |a|);
    forall j | j < |a| ensures !At(s, p, j) { AtChar(s, p, j, 0); }
    if i >= 0 {
      assert At(s, p, |a| + i) <==> At(rest, p, |a| + i - |a|);
      FirstUnique(s, p, |a| + i);
    } else {
      AbsentMeansNone(s, p);
    }
  }

  lemma MediaKeyword()
    ensures MARK !in CONTENT_TYPE && |CONTENT_TYPE| == 14 && CONTENT_TYPE[0] == 'C' && CONTENT_TYPE[8] == 'T'
    ensures Absent(LEAD, CONTENT_TYPE) && Absent(FILE_LEAD, CONTENT_TYPE)
  {
    assert 'T' !in LEAD;
    assert 'T' !in FILE_LEAD;
    forall j ensures !At(LEAD, CONTENT_TYPE, j) { AtChar(LEAD, CONTENT_TYPE, j, 8); }
    forall j ensures !At(FILE_LEAD, CONTENT_TYPE, j) { AtChar(FILE_LEAD, CONTENT_TYPE, j, 8); }
  }

  /** Where the media type of a file part is looked for. */
  lemma MediaIsFound(p: Part)
    requires p.FilePart? && KeywordFree(p)
    ensures IndexOf(HeaderText(p), CONTENT_TYPE) ==
            if p.media.NoMedia? then -1 else |HeaderText(p)| - |MediaText(p.media)| + 2
  {
    MediaKeyword();
    var m := MediaText(p.media);
    if p.media.NoMedia? {
      NothingIsFound(CONTENT_TYPE);
    } else {
      var tail := p.media.mediaType + p.media.post;
      assert m == "\r\n" + (CONTENT_TYPE + tail);
      StartsWithIt(CONTENT_TYPE, tail);
      FindBehind("\r\n", CONTENT_TYPE + tail, CONTENT_TYPE);
    }
    var f := p.fileName + [MARK] + m;
    FindBeyond(p.fileName, MARK, m, CONTENT_TYPE);
    FindBeyond(FILE_LEAD, MARK, f, CONTENT_TYPE);
    assert Extra(p) == FILE_LEAD + [MARK] + f;
    FindBeyond(p.name, MARK, Extra(p), CONTENT_TYPE);
    FindBeyond(LEAD, MARK, p.name + [MARK] + Extra(p), CONTENT_TYPE);
  }

  /** The keyword does not stand in the names. */
  ghost predicate KeywordFree(p: Part)
    requires p.FilePart?
  {
    Absent(p.name, CONTENT_TYPE) && Absent(p.fileName, CONTENT_TYPE)
  }

  /** A keyword at place `i` of `a` is followed by the rest of `a` and what stands behind it. */
  lemma KeywordIn(a: string, behind: string, i: int)
    requires IndexOf(a, CONTENT_TYPE) == i >= 0
    ensures IndexOf(a + behind, CONTENT_TYPE) == i
    ensures (a + behind)[i + |CONTENT_TYPE|..] == a[i + |CONTENT_TYPE|..] + behind
  {
    FoundStays(a, CONTENT_TYPE, behind);
  }

  lemma SameBehind(a: string, rest: string, i: nat)
    requires i <= |rest|
    ensures (a + rest)[|a| + i..] == rest[i..]
  {
  }

  lemma KeywordInName(p: Part, i: int)
    requires p.FilePart? && IndexOf(p.name, CONTENT_TYPE) == i >= 0
    ensures var k := IndexOf(HeaderText(p), CONTENT_TYPE);
            k >= 0 && HeaderText(p)[k + |CONTENT_TYPE|..] == p.name[i + |CONTENT_TYPE|..] + ([MARK] + Extra(p))
  {
    hide IndexOf;
    MediaKeyword();
    var rest := p.name + [MARK] + Extra(p);
    assert rest == p.name + ([MARK] + Extra(p));
    KeywordIn(p.name, [MARK] + Extra(p), i);
    FindBeyond(LEAD, MARK, rest, CONTENT_TYPE);
    SameBehind(LEAD + [MARK], rest, i + |CONTENT_TYPE|);
  }

  lemma KeywordInFileName(p: Part, i: int)
    requires p.FilePart? && Absent(p.name, CONTENT_TYPE) && IndexOf(p.fileName, CONTENT_TYPE) == i >= 0
    ensures var k := IndexOf(HeaderText(p), CONTENT_TYPE);
            && k >= 0
            && HeaderText(p)[k + |CONTENT_TYPE|..] == p.fileName[i + |CONTENT_TYPE|..] + ([MARK] + MediaText(p.media))
  {
    hide IndexOf;
    MediaKeyword();
    var m := MediaText(p.media);
    var f := p.fileName + [MARK] + m;
    assert f == p.fileName + ([MARK] + m);
    KeywordIn(p.fileName, [MARK] + m, i);
    FindBeyond(FILE_LEAD, MARK, f, CONTENT_TYPE);
    FindBeyond(p.name, MARK, Extra(p), CONTENT_TYPE);
    FindBeyond(LEAD, MARK, p.name + [MARK] + Extra(p), CONTENT_TYPE);
    SameBehind(LEAD + [MARK], p.name + [MARK] + Extra(p), |p.name| + 1 + |FILE_LEAD| + 1 + i + |CONTENT_TYPE|);
    SameBehind(p.name + [MARK], Extra(p), |FILE_LEAD| + 1 + i + |CONTENT_TYPE|);
    SameBehind(FILE_LEAD + [MARK], f, i + |CONTENT_TYPE|);
  }

  /** What is kept of text that starts with `r` and goes on with the word `w`. */
  lemma MisreadIs(r: string, w: string, tail: string)
    requires w != "" && Word(w, tail)
    ensures KeptOf(r + (w + tail)) == Misread(r, if tail == "" then w else w[..|w| - 1], w + tail)
  {
    var u, n := r + (w + tail), MimeTypeEnd(r, 0);
    WordEnds(r, 0);
    forall k | 0 <= k < n ensures !EndsMimeType(u[k]) { assert u[k] == r[k]; }
    if n < |r| {
      assert u[n] == r[n];
      MimeTypeEndsAt(u, 0, n);
      if n > 0 { assert u[..n - 1] == r[..n - 1]; }
    } else {
      forall k | 0 <= k < |r + w| ensures !EndsMimeType((r + w)[k]) {
        if k >= |r| { assert (r + w)[k] == w[k - |r|]; }
      }
      KeptOfWord(r + w, tail);
      assert u == (r + w) + tail;
      assert (r + w)[..|r + w| - 1] == r + w[..|w| - 1];
    }
  }

  lemma {:induction false} WordEnds(s: string, i: nat)
    requires i <= |s|
    ensures var n := MimeTypeEnd(s, i);
            (forall k | i <= k < n :: !EndsMimeType(s[k])) && (n < |s| ==> EndsMimeType(s[n]))
    decreases |s| - i
  {
    if i < |s| && !EndsMimeType(s[i]) { WordEnds(s, i + 1); }
  }

  /** The header text in front of the media type. */
  function BeforeMedia(p: Part): string
    requires p.FilePart?
  {
    LEAD + [MARK] + (p.name + [MARK] + (FILE_LEAD + [MARK] + (p.fileName + [MARK] + "\r\n")))
  }

  lemma HeaderAroundMedia(p: Part)
    requires p.FilePart? && p.media.Media?
    ensures HeaderText(p) == BeforeMedia(p) + CONTENT_TYPE + p.media.mediaType + p.media.post
    ensures |BeforeMedia(p)| == |HeaderText(p)| - |MediaText(p.media)| + 2
  {
    Split(LEAD + [MARK], p.name + [MARK], FILE_LEAD + [MARK], p.fileName + [MARK], "\r\n",
          CONTENT_TYPE, p.media.mediaType, p.media.post);
  }

  lemma Split(a: string, b: string, c: string, d: string, e: string, f: string, g: string, h: string)
    ensures a + (b + (c + (d + (e + f + g + h)))) == a + (b + (c + (d + e))) + f + g + h
  {
  }

  lemma LeadWord(x: string)
    ensures [MARK] + (FILE_LEAD + x) == "\";" + (" filename=" + x) && Word("\";", " filename=" + x)
  {
    var a: string := [MARK];
    assert FILE_LEAD == ";" + " filename=";
    assert a + (";" + " filename=" + x) == a + ";" + (" filename=" + x);
  }

  lemma NameMisread(p: Part, i: int)
    requires p.FilePart? && IndexOf(p.name, CONTENT_TYPE) == i >= 0
    ensures MimeType(HeaderText(p)) == FoundType(p)
  {
    hide MimeType, HeaderText, KeptOf, IndexOf, Misread;
    var r := p.name[i + |CONTENT_TYPE|..];
    var x := [MARK] + (p.fileName + [MARK] + MediaText(p.media));
    KeywordInName(p, i);
    MimeTypeBehind(HeaderText(p));
    assert Extra(p) == FILE_LEAD + x;
    LeadWord(x);
    MisreadIs(r, "\";", " filename=" + x);
    assert "\";"[..1] == [MARK];
  }

  lemma FileNameMisread(p: Part, i: int)
    requires p.FilePart? && Absent(p.name, CONTENT_TYPE) && IndexOf(p.fileName, CONTENT_TYPE) == i >= 0
    ensures MimeType(HeaderText(p)) == FoundType(p)
  {
    hide MimeType, HeaderText, KeptOf, Misread;
    var r, m := p.fileName[i + |CONTENT_TYPE|..], MediaText(p.media);
    KeywordInFileName(p, i);
    MimeTypeBehind(HeaderText(p));
    AbsentMeansNone(p.name, CONTENT_TYPE);
    assert p.media.Media? ==> m[0] == '\r';
    MisreadIs(r, [MARK], m);
  }

  /** What is taken for the media type of a file part, for all names. */
  lemma MediaTypeIsKept(p: Part)
    requires p.FilePart? && WordMedia(p.media)
    ensures MimeType(HeaderText(p)) == FoundType(p)
  {
    var i, j := IndexOf(p.name, CONTENT_TYPE), IndexOf(p.fileName, CONTENT_TYPE);
    if i >= 0 {
      NameMisread(p, i);
    } else if j >= 0 {
      FileNameMisread(p, j);
    } else {
      MediaIsFound(p);
      if p.media.Media? {
        HeaderAroundMedia(p);
        MimeTypeIs(BeforeMedia(p), p.media.mediaType, p.media.post);
      }
    }
  }

  /**
    The media type found is the one sent if and only if nothing follows it in
    the headers, where the keyword stands in neither name; where it does, if and
    only if what follows it there happens to be read as the type sent.
    */
  lemma MediaTypeIff(p: Part)
    requires p.FilePart? && WordMedia(p.media)
    ensures KeywordFree(p) ==>
              (MimeType(HeaderText(p)) == SentType(p.media) <==> p.media.NoMedia? || p.media.post == "")
    ensures !Absent(p.name, CONTENT_TYPE) ==>
              var r := p.name[IndexOf(p.name, CONTENT_TYPE) + |CONTENT_TYPE|..];
              (MimeType(HeaderText(p)) == SentType(p.media) <==> Misread(r, [MARK], [MARK] + Extra(p)) == SentType(p.media))
    ensures Absent(p.name, CONTENT_TYPE) && !Absent(p.fileName, CONTENT_TYPE) ==>
              var r := p.fileName[IndexOf(p.fileName, CONTENT_TYPE) + |CONTENT_TYPE|..];
              var quote := if p.media.NoMedia? then [MARK] else "";
              (MimeType(HeaderText(p)) == SentType(p.media) <==>
               Misread(r, quote, [MARK] + MediaText(p.media)) == SentType(p.media))
  {
    hide MimeType, HeaderText, Misread;
    MediaTypeIsKept(p);
    if KeywordFree(p) {
      AbsentMeansNone(p.name, CONTENT_TYPE);
      AbsentMeansNone(p.fileName, CONTENT_TYPE);
    }
  }

  /** When the field of a file part has all that was sent. */
  lemma FieldIsSentIff(p: Part)
    requires p.FilePart? && WordMedia(p.media) && KeywordFree(p)
    ensures FieldOf(p) == Field(true, p.fileName, SentType(p.media), p.content) <==>
            && (!EndsWith(p.name, "filename=") || p.fileName == FILE_LEAD)
            && (p.media.NoMedia? || p.media.post == "")
  {
    hide EndsWith, HeaderText, MimeType;
    MediaTypeIsKept(p);
    MediaTypeIff(p);
  }

  lemma BareWord(name: string, x: string)
    requires name == CONTENT_TYPE + x && x != "" && Word(x, "")
    ensures IndexOf(name, CONTENT_TYPE) == 0 && name[|CONTENT_TYPE|..] == x && MimeTypeEnd(x, 0) == |x|
  {
    StartsWithIt(CONTENT_TYPE, x);
    MimeTypeEndsAt(x, 0, |x|);
  }

  /** Where the name is the keyword and a word, that word and the quote behind it are taken for the type. */
  lemma KeywordIsName(p: Part, x: string)
    requires p.FilePart? && WordMedia(p.media) && p.name == CONTENT_TYPE + x && x != "" && Word(x, "")
    ensures MimeType(HeaderText(p)) == x + [MARK]
  {
    hide MimeType, HeaderText, IndexOf, MimeTypeEnd;
    BareWord(p.name, x);
    MediaTypeIsKept(p);
  }

  lemma NothingFollows()
    ensures First("" + HEADERS_END, HEADERS_END, |""|)
  {
    StartsWithIt(HEADERS_END, "");
    assert HEADERS_END + "" == "" + HEADERS_END;
  }

  lemma WordIsSafe(t: string)
    requires '\0' !in t && Word(t, "")
    ensures SafeMedia(Media(t, ""))
  {
    hide First;
    NothingFollows();
  }

  lemma KeywordIsPlain(x: char)
    requires x != MARK && x != '\0' && x != '\r'
    ensures Plain(CONTENT_TYPE + [x]) && Plain([x])
  {
    NoFirstChar(CONTENT_TYPE + [x], HEADERS_END);
    NoFirstChar([x], HEADERS_END);
  }

  /** Such a part, with a media type that nothing follows. */
  lemma KeywordWitness()
    ensures var p := FilePart(CONTENT_TYPE + "x", "x", Media("text/plain", ""), "");
            SafeHeader(p) && MimeType(HeaderText(p)) == "x\""
  {
    hide MimeType, HeaderText, Plain, EndsWith, SafeMedia;
    var media := Media("text/plain", "");
    KeywordIsPlain('x');
    WordIsSafe("text/plain");
    KeywordIsName(FilePart(CONTENT_TYPE + "x", "x", media, ""), "x");
    assert "x" + [MARK] == "x\"";
  }

  /** The same type, at the end of the headers and with another line behind it. */
  lemma MediaTypeWitness()
    ensures MimeType(CONTENT_TYPE + "text/plain") == "text/plain"
    ensures MimeType(CONTENT_TYPE + "text/plain" + "\r\nX: y") == "text/plai"
  {
    hide IndexOf, MimeType;
    var t, post := "text/plain", "\r\nX: y";
    StartsWithIt(CONTENT_TYPE, t);
    StartsWithIt(CONTENT_TYPE, t + post);
    assert "" + CONTENT_TYPE + t + "" == CONTENT_TYPE + t;
    assert "" + CONTENT_TYPE + t + post == CONTENT_TYPE + (t + post) == CONTENT_TYPE + t + post;
    MimeTypeIs("", t, "");
    MimeTypeIs("", t, post);
    assert t[..9] == "text/plai";
  }

  lemma LeadIsQuoted(p: Part)
    requires p.FilePart?
    ensures var k := |LEAD| + 1 + |p.name| + 1;
            FindFrom(HeaderText(p), QUOTE, k) == k + |FILE_LEAD| && HeaderText(p)[k..k + |FILE_LEAD|] == FILE_LEAD
  {
    FileLeadFacts();
    var lead, rest := LEAD + [MARK] + p.name, p.fileName + [MARK] + MediaText(p.media);
    assert HeaderText(p) == lead + [MARK] + (FILE_LEAD + [MARK] + rest);
    Quoted(lead, FILE_LEAD, rest, HeaderText(p));
  }

  /** Whatever the media type, a quote-free file header opens a file field. */
  lemma FileHeaderOpens(s: State, p: Part)
    requires p.FilePart? && MARK !in p.name && MARK !in p.fileName
    ensures ParseHeaders(s, HeaderText(p))
         == OpenField(s, p.name, Field(true, FoundFileName(p), MimeType(HeaderText(p)), ""))
  {
    hide HeaderText, MimeType, IndexOf, FindFrom, ParseHeaders, OpenField, EndsWith, Announce;
    var k := |LEAD| + 1 + |p.name|;
    HeaderAnnounces(p);
    NameIsFound(p.name, Extra(p));
    FilenameIsFound(p.name, Extra(p));
    FileLeadIsFound(p.fileName + [MARK] + MediaText(p.media));
    if EndsWith(p.name, "filename=") {
      LeadIsQuoted(p);
      FileHeaderSteps(s, HeaderText(p), |LEAD| - 5, p.name, k - 9, FILE_LEAD);
    } else {
      FileNameIsQuoted(p);
      FileHeaderSteps(s, HeaderText(p), |LEAD| - 5, p.name, k + 3, p.fileName);
    }
  }

  /** The file name is found if and only if the field name does not end in `filename=` (or the two look alike). */
  lemma FileNameIff(s: State, p: Part)
    requires p.FilePart? && MARK !in p.name && MARK !in p.fileName
    ensures p.name in ParseHeaders(s, HeaderText(p)).fields
    ensures ParseHeaders(s, HeaderText(p)).fields[p.name].fileName == p.fileName <==>
            !EndsWith(p.name, "filename=") || p.fileName == FILE_LEAD
  {
    hide HeaderText, MimeType, ParseHeaders;
    FileHeaderOpens(s, p);
  }

  /** The field opened has the file name and the media type found. */
  lemma FileHeaderParses(s: State, p: Part)
    requires p.FilePart? && MARK !in p.name && MARK !in p.fileName && WordMedia(p.media)
    ensures ParseHeaders(s, HeaderText(p)) == OpenField(s, p.name, FieldOf(p).(content := ""))
  {
    hide MimeType, HeaderText, ParseHeaders, FoundType;
    MediaTypeIsKept(p);
    FileHeaderOpens(s, p);
  }

  lemma SafeHeaderParses(s: State, p: Part)
    requires SafeHeader(p)
    ensures ParseHeaders(s, HeaderText(p)) == OpenField(s, p.name, FieldOf(p).(content := ""))
  {
    match p
    case TextPart(name, content) => TextHeaderParses(s, name, content);
    case FilePart(_, _, _, _) => FileHeaderParses(s, p);
  }

  lemma MediaIsWhole(m: Media)
    requires SafeMedia(m)
    ensures '\0' !in MediaText(m)
  {
    assert '\0' !in CONTENT_TYPE;
  }

  /** No NUL cuts the headers short. */
  lemma HeaderIsWhole(p: Part)
    requires SafeHeader(p)
    ensures CString(HeaderText(p)) == HeaderText(p)
  {
    LeadChars();
    FileLeadFacts();
    if p.FilePart? { MediaIsWhole(p.media); }
    assert '\0' !in HeaderText(p);
    NulFreeIsKept(HeaderText(p));
  }

  const TYPE_LEAD: string := "\r\nContent-Type:"

  lemma TypeLeadFacts()
    ensures CONTENT_TYPE == "Content-Type:" + [' '] && ' ' !in HEADERS_END && Absent(TYPE_LEAD, HEADERS_END)
  {
    OneLineBreak("Content-Type:");
    assert TYPE_LEAD == "\r\n" + "Content-Type:";
  }

  lemma MediaInPieces(m: Media, rest: string)
    requires m.Media?
    ensures MediaText(m) + rest == TYPE_LEAD + [' '] + (m.mediaType + (m.post + rest))
    ensures |MediaText(m)| == |TYPE_LEAD| + 1 + |m.mediaType| + |m.post|
  {
    TypeLeadFacts();
    Regroup(TYPE_LEAD, [' '], m.mediaType, m.post, rest);
    assert "\r\n" + CONTENT_TYPE == TYPE_LEAD + [' '];
  }

  lemma Regroup(a: string, b: string, c: string, d: string, e: string)
    ensures a + b + c + d + e == a + b + (c + (d + e))
  {
  }

  lemma BlankLineBehindPost(post: string, tail: string)
    requires First(post + HEADERS_END, HEADERS_END, |post|)
    ensures IndexOf(post + (HEADERS_END + tail), HEADERS_END) == |post|
  {
    FirstUnique(post + HEADERS_END, HEADERS_END, |post|);
    FoundStays(post + HEADERS_END, HEADERS_END, tail);
    assert (post + HEADERS_END) + tail == post + (HEADERS_END + tail);
  }

  lemma BlankLineBehindMedia(m: Media, tail: string)
    requires SafeMedia(m)
    ensures IndexOf(MediaText(m) + (HEADERS_END + tail), HEADERS_END) == |MediaText(m)|
  {
    var rest := HEADERS_END + tail;
    if m.NoMedia? {
      assert MediaText(m) + rest == rest;
      StartsWithIt(HEADERS_END, tail);
    } else {
      TypeLeadFacts();
      BlankLineBehindPost(m.post, tail);
      FindBehind(m.mediaType, m.post + rest, HEADERS_END);
      FindBeyond(TYPE_LEAD, ' ', m.mediaType + (m.post + rest), HEADERS_END);
      MediaInPieces(m, rest);
    }
  }

  lemma BlankLineBehindExtra(p: Part, tail: string)
    requires SafeHeader(p)
    ensures IndexOf(Extra(p) + (HEADERS_END + tail), HEADERS_END) == |Extra(p)|
  {
    var rest := HEADERS_END + tail;
    Keywords();
    FileLeadFacts();
    if p.FilePart? {
      var more := MediaText(p.media) + rest;
      BlankLineBehindMedia(p.media, tail);
      FindBeyond(p.fileName, MARK, more, HEADERS_END);
      FindBeyond(FILE_LEAD, MARK, p.fileName + [MARK] + more, HEADERS_END);
      ExtraInPieces(FILE_LEAD, MARK, p.fileName, MediaText(p.media), rest);
    } else {
      assert Extra(p) + rest == rest;
      StartsWithIt(HEADERS_END, tail);
    }
  }

  lemma ExtraInPieces(lead: string, m: char, name: string, media: string, rest: string)
    ensures (lead + [m] + (name + [m] + media)) + rest == lead + [m] + (name + [m] + (media + rest))
  {
  }

  /** The blank line after the headers is the first one. */
  lemma HeadersEndIsFound(p: Part, rest: string)
    requires SafeHeader(p)
    ensures IndexOf(HeaderText(p) + HEADERS_END + rest, HEADERS_END) == |HeaderText(p)|
  {
    var end := HEADERS_END + rest;
    BlankLineBehindExtra(p, rest);
    Keywords();
    LeadHasNoBlankLine();
    FindBeyond(p.name, MARK, Extra(p) + end, HEADERS_END);
    FindBeyond(LEAD, MARK, p.name + [MARK] + (Extra(p) + end), HEADERS_END);
    HeaderInPieces(LEAD, MARK, p.name, Extra(p), HEADERS_END, rest);
  }

  lemma StartsWithIt(p: string, rest: string)
    ensures IndexOf(p + rest, p) == 0
  {
    assert At(p + rest, p, 0);
    FirstUnique(p + rest, p, 0);
  }

  lemma HeaderInPieces(lead: string, m: char, name: string, extra: string, end: string, rest: string)
    ensures (lead + [m] + (name + [m] + extra)) + end + rest == lead + [m] + (name + [m] + (extra + (end + rest)))
  {
  }
}
