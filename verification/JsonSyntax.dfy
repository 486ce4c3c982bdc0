/**
  JSON texts by their grammar (sections 2 to 7 of RFC 8259): blanks wherever
  they may stand, and every way of spelling a string. `Render` gives the text of
  a syntax tree and `Meaning` the value it stands for. The trees allow more than
  the RFC does, as the reader does: control characters inside strings; as a
  number any run of digits, points, exponent letters and signs that starts with
  a digit or a minus sign; comments among most of the blanks; behind a comment
  any token in place of the comma between members; and a comma behind the last
  member.
  */
module JsonSyntax {
  import opened JsonValue
  import opened JsonLexer
  import opened Text
  import opened Wrappers

  /** One character of a string, as it is spelled. */
  datatype Spelling = Plain(c: char) | Short(letter: char) | Unicode(hex: string)

  datatype Syntax =
    | Word(word: Value)
    | Numeral(text: string)
    | Quoted(chars: seq<Spelling>)
    | EmptyArray(blank: string)
    | Array(items: Items)
    | EmptyObject(gap: string)
    | Object(members: Members)

  /** A value with the blanks around it. */
  datatype Padded = Padded(before: string, syntax: Syntax, after: string)

  datatype Items = LastItem(item: Padded) | Item(item: Padded, more: Items)

  datatype Member = Member(before: string, name: seq<Spelling>, between: string, value: Padded)

  /** `sep` is the text between two members; a dangling one stands in front of the closing brace. */
  datatype Members =
    | LastMember(member: Member)
    | MoreMembers(member: Member, sep: string, more: Members)
    | Dangling(member: Member, sep: string, gap: string)

  // ---- Which trees are texts --------------------------------------------------------------------------

  ghost predicate Blank(s: string) {
    forall i | 0 <= i < |s| :: s[i] in " \t\r\n"
  }

  /** `/* ... */` up to the first end mark. */
  predicate IsBlockComment(c: string) {
    && |c| >= 4 && c[..2] == "/*" && c[|c| - 2..] == "*/"
    && forall i | 2 <= i < |c| - 2 :: !(c[i] == '*' && c[i + 1] == '/')
  }

  /** `// ...` up to and with the first line end. */
  predicate IsLineComment(c: string) {
    && |c| >= 3 && c[..2] == "//" && c[|c| - 1] in "\r\n"
    && forall i | 2 <= i < |c| - 1 :: c[i] !in "\r\n"
  }

  predicate IsComment(c: string) {
    IsBlockComment(c) || IsLineComment(c)
  }

  /** Blanks and comments. */
  ghost predicate Gap(g: string)
    decreases |g|
  {
    || g == ""
    || (g[0] in " \t\r\n" && Gap(g[1..]))
    || exists n: nat | 0 < n <= |g| :: IsComment(g[..n]) && Gap(g[n..])
  }

  /** Inside the quotes of a string: no quote that is not behind a backslash, and no backslash at the end. */
  predicate Closed(body: string) {
    || body == ""
    || (if body[0] == '\\' then |body| >= 2 && Closed(body[2..]) else body[0] != '"' && Closed(body[1..]))
  }

  /** The tokens that are neither a comment nor a closing brace, and some texts that are no tokens. */
  ghost predicate SeparatorText(sep: string) {
    || (|sep| == 1 && sep[0] !in " \t\r\n}\"/-0123456789")
    || (|sep| == 2 && sep[0] == '/' && sep[1] != '*' && sep[1] != '/')
    || sep == "true" || sep == "false" || sep == "null"
    || NumberText(sep)
    || (|sep| >= 2 && sep[0] == '"' && sep[|sep| - 1] == '"' && Closed(sep[1..|sep| - 1]))
  }

  /** Anything may separate two members behind a comment, but only a comma otherwise. */
  ghost predicate SepOk(after: string, sep: string) {
    sep == "," || (!Blank(after) && SeparatorText(sep))
  }

  const SHORT: map<char, char> :=
    map['"' := '"', '\\' := '\\', '/' := '/', 'b' := 8 as char, 'f' := 12 as char, 'n' := '\n', 'r' := '\r', 't' := '\t']

  predicate FourHex(s: string) {
    |s| == 4 && HexNumber(s).Some?
  }

  predicate SpellingOk(c: Spelling) {
    match c
    case Plain(c) => c != '"' && c != '\\'
    case Short(letter) => letter in SHORT
    case Unicode(hex) => FourHex(hex)
  }

  ghost predicate SpellingsOk(s: seq<Spelling>) {
    forall i | 0 <= i < |s| :: SpellingOk(s[i])
  }

  predicate IsHigh(c: Spelling) {
    c.Unicode? && HexNumber(c.hex).Some? && IsHighSurrogate(HexNumber(c.hex).value)
  }

  /** Read from the left, every escaped high surrogate has another `\u` escape right behind it to be joined with. */
  predicate AllPaired(s: seq<Spelling>)
    decreases |s|
  {
    s == [] || if IsHigh(s[0]) then |s| > 1 && s[1].Unicode? && AllPaired(s[2..]) else AllPaired(s[1..])
  }

  /** The texts of the grammar. */
  ghost predicate Conforming(s: Syntax)
    decreases s, 0
  {
    match s
    case Word(word) => word.Null? || word.Bool?
    case Numeral(text) => NumberText(text)
    case Quoted(chars) => SpellingsOk(chars)
    case EmptyArray(blank) => Blank(blank)
    case Array(items) => ConformingItems(items)
    case EmptyObject(gap) => Gap(gap)
    case Object(members) => ConformingMembers(members)
  }

  ghost predicate ConformingItems(i: Items)
    decreases i, 0
  {
    PaddingOk(i.item) && Conforming(i.item.syntax) && (i.Item? ==> ConformingItems(i.more))
  }

  ghost predicate ConformingMembers(m: Members)
    decreases m, 0
  {
    && NameOk(m.member) && PaddingOk(m.member.value) && Conforming(m.member.value.syntax)
    && (m.MoreMembers? ==> SepOk(m.member.value.after, m.sep) && ConformingMembers(m.more))
    && (m.Dangling? ==> SepOk(m.member.value.after, m.sep) && Gap(m.gap))
  }

  /**
    Those with no lone high surrogate, with numbers that `scan` can read where
    they are no 64-bit integers, and with a comma behind the last member only
    if that has no name.
    */
  ghost predicate Readable(s: Syntax, scan: string -> Option<real>)
    decreases s, 0
  {
    match s
    case Word(word) => word.Null? || word.Bool?
    case Numeral(text) => NumberText(text) && DecodeNumber(text, scan).Number?
    case Quoted(chars) => SpellingsOk(chars) && AllPaired(chars)
    case EmptyArray(blank) => Blank(blank)
    case Array(items) => ReadableItems(items, scan)
    case EmptyObject(gap) => Gap(gap)
    case Object(members) => ReadableMembers(members, scan)
  }

  ghost predicate PaddingOk(p: Padded) {
    Gap(p.before) && Gap(p.after)
  }

  ghost predicate NameOk(m: Member) {
    Gap(m.before) && SpellingsOk(m.name) && Blank(m.between)
  }

  ghost predicate ReadableItems(i: Items, scan: string -> Option<real>)
    decreases i, 0
  {
    PaddingOk(i.item) && Readable(i.item.syntax, scan) && (i.Item? ==> ReadableItems(i.more, scan))
  }

  ghost predicate ReadableMembers(m: Members, scan: string -> Option<real>)
    decreases m, 0
  {
    && NameOk(m.member) && AllPaired(m.member.name) && PaddingOk(m.member.value) && Readable(m.member.value.syntax, scan)
    && (m.MoreMembers? ==> SepOk(m.member.value.after, m.sep) && ReadableMembers(m.more, scan))
    && (m.Dangling? ==> SepOk(m.member.value.after, m.sep) && Gap(m.gap) && StringMeans(m.member.name) == "")
  }

  // ---- Their text ------------------------------------------------------------------------------------------

  function Spelled(c: Spelling): string {
    match c
    case Plain(c) => [c]
    case Short(letter) => ['\\', letter]
    case Unicode(hex) => "\\u" + hex
  }

  function AllSpelled(s: seq<Spelling>): string {
    if s == [] then "" else Spelled(s[0]) + AllSpelled(s[1..])
  }

  function InQuotes(s: seq<Spelling>): string {
    "\"" + AllSpelled(s) + "\""
  }

  function WordText(v: Value): string {
    if v.Null? then "null" else if v == Bool(true) then "true" else "false"
  }

  function Render(s: Syntax): string
    decreases s, 0
  {
    match s
    case Word(word) => WordText(word)
    case Numeral(text) => text
    case Quoted(chars) => InQuotes(chars)
    case EmptyArray(blank) => "[" + blank + "]"
    case Array(items) => "[" + RenderItems(items) + "]"
    case EmptyObject(gap) => "{" + gap + "}"
    case Object(members) => "{" + RenderMembers(members) + "}"
  }

  function Around(p: Padded, text: string): string {
    p.before + text + p.after
  }

  function Named(m: Member, text: string): string {
    m.before + InQuotes(m.name) + m.between + ":" + text
  }

  function RenderItems(i: Items): string
    decreases i, 0
  {
    var first := Around(i.item, Render(i.item.syntax));
    if i.LastItem? then first else first + "," + RenderItems(i.more)
  }

  function RenderMembers(m: Members): string
    decreases m, 0
  {
    var first := Named(m.member, Around(m.member.value, Render(m.member.value.syntax)));
    match m
    case LastMember(_) => first
    case MoreMembers(_, sep, more) => first + sep + RenderMembers(more)
    case Dangling(_, sep, gap) => first + sep + gap
  }

  // ---- Their meaning ------------------------------------------------------------------------------------------

  function SpellingMeans(c: Spelling): string
    requires SpellingOk(c)
  {
    match c
    case Plain(c) => [c]
    case Short(letter) => [SHORT[letter]]
    case Unicode(hex) => Utf8(HexNumber(hex).value)
  }

  function PairMeans(high: Spelling, low: Spelling): string
    requires high.Unicode? && low.Unicode? && SpellingOk(high) && SpellingOk(low)
  {
    Utf8(JoinSurrogates(HexNumber(high.hex).value, HexNumber(low.hex).value))
  }

  function StringMeans(s: seq<Spelling>): string
    requires SpellingsOk(s) && AllPaired(s)
    decreases |s|
  {
    if s == [] then ""
    else if IsHigh(s[0]) then PairMeans(s[0], s[1]) + StringMeans(s[2..])
    else SpellingMeans(s[0]) + StringMeans(s[1..])
  }

  /** Strings are kept up to a NUL; of members with one name the last counts. */
  function Meaning(s: Syntax, scan: string -> Option<real>): Value
    requires Readable(s, scan)
    decreases s, 0
  {
    match s
    case Word(word) => word
    case Numeral(text) => DecodeNumber(text, scan).value
    case Quoted(chars) => Str(CString(StringMeans(chars)))
    case EmptyArray(_) => Arr(Empty)
    case Array(items) => Arr(AddItems(items, 0, Empty, scan))
    case EmptyObject(_) => Obj(Empty)
    case Object(members) => Obj(AddMembers(members, Empty, scan))
  }

  function AddItems(i: Items, index: nat, e: Entries, scan: string -> Option<real>): Entries
    requires ReadableItems(i, scan)
    decreases i, 0
  {
    var e' := Put(e, Index(index), Meaning(i.item.syntax, scan));
    if i.LastItem? then e' else AddItems(i.more, index + 1, e', scan)
  }

  function MemberKey(m: Member): Key
    requires SpellingsOk(m.name) && AllPaired(m.name)
  {
    Name(CString(StringMeans(m.name)))
  }

  function AddMembers(m: Members, e: Entries, scan: string -> Option<real>): Entries
    requires ReadableMembers(m, scan)
    decreases m, 0
  {
    var e' := Put(e, MemberKey(m.member), Meaning(m.member.value.syntax, scan));
    if m.MoreMembers? then AddMembers(m.more, e', scan) else e'
  }
}
