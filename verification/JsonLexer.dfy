/**
  The scanner of `Json::Reader` with its default features: tokens, and the
  decoding of string and number tokens. A suffix of the document stands for
  the reading position.
  */
module JsonLexer {
  import Decimal
  import opened JsonValue
  import opened Wrappers

  // ---- Scanning to the end of a token ---------------------------------------------------------------

  predicate IsBlank(c: char) {
    c == ' ' || c == '\t' || c == '\r' || c == '\n'
  }

  function SkipBlanks(s: string): (r: string)
    ensures |r| <= |s| && (r != "" ==> !IsBlank(r[0]))
  {
    if s != "" && IsBlank(s[0]) then SkipBlanks(s[1..]) else s
  }

  predicate NumberChar(c: char) {
    Decimal.IsDigit(c) || c == '.' || c == 'e' || c == 'E' || c == '+' || c == '-'
  }

  /** `readNumber` */
  function AfterNumber(s: string): (r: string)
    ensures |r| <= |s| && forall i | 0 <= i < |s| - |r| :: NumberChar(s[i])
  {
    if s != "" && NumberChar(s[0]) then AfterNumber(s[1..]) else s
  }

  datatype Stop = Stop(ok: bool, rest: string)

  /** `readString`, behind the opening quote. */
  function AfterString(s: string): (r: Stop)
    ensures |r.rest| <= |s| && (r.ok ==> |r.rest| < |s|)
  {
    if s == "" then Stop(false, "")
    else if s[0] == '\\' then if |s| == 1 then Stop(false, "") else AfterString(s[2..])
    else if s[0] == '"' then Stop(true, s[1..])
    else AfterString(s[1..])
  }

  /** `match` */
  function AfterWord(s: string, word: string): (r: Stop)
    ensures |r.rest| <= |s|
  {
    if word <= s then Stop(true, s[|word|..]) else Stop(false, s)
  }

  /** `readCStyleComment` */
  function AfterBlock(s: string): (r: Stop)
    ensures |r.rest| <= |s|
  {
    if s == "" then Stop(false, "")
    else if s[0] == '*' && |s| > 1 && s[1] == '/' then Stop(true, s[2..])
    else AfterBlock(s[1..])
  }

  /** `readCppStyleComment` */
  function AfterLine(s: string): (r: string)
    ensures |r| <= |s|
  {
    if s == "" then "" else if s[0] == '\r' || s[0] == '\n' then s[1..] else AfterLine(s[1..])
  }

  /** `readComment`, behind the slash. */
  function AfterComment(s: string): (r: Stop)
    ensures |r.rest| <= |s|
  {
    if s == "" then Stop(false, "")
    else if s[0] == '*' then AfterBlock(s[1..])
    else if s[0] == '/' then Stop(true, AfterLine(s[1..]))
    else Stop(false, s[1..])
  }

  // ---- Tokens ---------------------------------------------------------------------------------------

  datatype Kind =
    | EndOfStream | ObjectBegin | ObjectEnd | ArrayBegin | ArrayEnd | StringKind | NumberKind
    | TrueKind | FalseKind | NullKind | Separator | Colon | Comment | ErrorKind

  /** `text` is the token, `rest` what follows it. */
  datatype Token = Token(kind: Kind, text: string, rest: string)

  function Classified(kind: Kind, stop: Stop): (Kind, string) {
    (if stop.ok then kind else ErrorKind, stop.rest)
  }

  /** The kind and the end of a token from its first character. */
  function Classify(c: char, s: string): (r: (Kind, string))
    ensures |r.1| <= |s|
    ensures r.0 == StringKind ==> c == '"' && |r.1| < |s|
    ensures r.0 == NumberKind ==> (c == '-' || Decimal.IsDigit(c)) && r.1 == AfterNumber(s)
  {
    if c == '{' then (ObjectBegin, s)
    else if c == '}' then (ObjectEnd, s)
    else if c == '[' then (ArrayBegin, s)
    else if c == ']' then (ArrayEnd, s)
    else if c == '"' then Classified(StringKind, AfterString(s))
    else if c == '/' then Classified(Comment, AfterComment(s))
    else if c == '-' || Decimal.IsDigit(c) then (NumberKind, AfterNumber(s))
    else if c == 't' then Classified(TrueKind, AfterWord(s, "rue"))
    else if c == 'f' then Classified(FalseKind, AfterWord(s, "alse"))
    else if c == 'n' then Classified(NullKind, AfterWord(s, "ull"))
    else if c == ',' then (Separator, s)
    else if c == ':' then (Colon, s)
    else if c == '\0' then (EndOfStream, s)
    else (ErrorKind, s)
  }

  ghost predicate NumberText(s: string) {
    s != "" && (s[0] == '-' || Decimal.IsDigit(s[0])) && forall i | 0 <= i < |s| :: NumberChar(s[i])
  }

  /** `readToken`: every token but the end of the document moves the position on. */
  function ReadToken(s: string): (t: Token)
    ensures |t.rest| <= |s| && (t.kind != EndOfStream ==> |t.rest| < |s|)
    ensures t.kind == StringKind ==> |t.text| >= 2
    ensures t.kind == NumberKind ==> NumberText(t.text)
  {
    var u := SkipBlanks(s);
    if u == "" then Token(EndOfStream, "", "")
    else
      var (kind, rest) := Classify(u[0], u[1..]);
      Token(kind, u[..|u| - |rest|], rest)
  }

  /** `skipCommentTokens` */
  function NextToken(s: string): (t: Token)
    ensures |t.rest| <= |s| && (t.kind != EndOfStream ==> |t.rest| < |s|)
    ensures t.kind != Comment
    ensures t.kind == StringKind ==> |t.text| >= 2
    ensures t.kind == NumberKind ==> NumberText(t.text)
    decreases |s|
  {
    var t := ReadToken(s);
    if t.kind == Comment then NextToken(t.rest) else t
  }

  // ---- Strings ----------------------------------------------------------------------------------------

  datatype Message =
    | ValueExpected | NotANumber | MissingColon | MissingComma | MissingName | MissingSeparator
    | EmptyEscape | BadEscape | FourDigitsExpected | HexDigitExpected | SixCharactersExpected | SecondHalfExpected

  datatype Decoded = Good(text: string) | Wrong(message: Message)
  {
    function After(t: string): Decoded {
      if Good? then Good(t + text) else this
    }
  }

  datatype CodePoint = CodePoint(cp: nat, rest: string) | NoCodePoint(message: Message)

  function HexValue(c: char): (r: Option<nat>)
    ensures r.Some? ==> r.value < 16
  {
    if '0' <= c <= '9' then Some((c - '0') as nat)
    else if 'a' <= c <= 'f' then Some((c - 'a') as nat + 10)
    else if 'A' <= c <= 'F' then Some((c - 'A') as nat + 10)
    else None
  }

  /** The value of a string of hexadecimal digits, read from the left. */
  function HexNumber(s: string): (r: Option<nat>)
  {
    if s == "" then Some(0)
    else
      match (HexNumber(s[..|s| - 1]), HexValue(s[|s| - 1]))
      case (Some(n), Some(d)) => Some(16 * n + d)
      case _ => None
  }

  /** `decodeUnicodeEscapeSequence` */
  function HexEscape(s: string): (r: CodePoint)
    ensures r.CodePoint? ==> |r.rest| < |s|
  {
    if |s| < 4 then NoCodePoint(FourDigitsExpected)
    else
      match HexNumber(s[..4])
      case Some(n) => CodePoint(n, s[4..])
      case None => NoCodePoint(HexDigitExpected)
  }

  predicate IsHighSurrogate(cp: nat) {
    0xD800 <= cp <= 0xDBFF
  }

  function JoinSurrogates(high: nat, low: nat): nat {
    0x10000 + high % 0x400 * 0x400 + low % 0x400
  }

  /** `decodeUnicodeCodePoint`, behind `\u`. */
  function UnicodeEscape(s: string): (r: CodePoint)
    ensures r.CodePoint? ==> |r.rest| < |s|
  {
    var first := HexEscape(s);
    if first.NoCodePoint? || !IsHighSurrogate(first.cp) then first
    else if |first.rest| < 6 then NoCodePoint(SixCharactersExpected)
    else if first.rest[..2] != "\\u" then NoCodePoint(SecondHalfExpected)
    else
      var second := HexEscape(first.rest[2..]);
      if second.NoCodePoint? then second else second.(cp := JoinSurrogates(first.cp, second.cp))
  }

  /** `codePointToUTF8` */
  function Utf8(cp: nat): string {
    if cp <= 0x7F then [cp as char]
    else if cp <= 0x7FF then [(0xC0 + cp / 0x40) as char, (0x80 + cp % 0x40) as char]
    else if cp <= 0xFFFF then
      [(0xE0 + cp / 0x1000) as char, (0x80 + cp / 0x40 % 0x40) as char, (0x80 + cp % 0x40) as char]
    else if cp <= 0x10FFFF then
      [(0xF0 + cp / 0x40000) as char, (0x80 + cp / 0x1000 % 0x40) as char,
       (0x80 + cp / 0x40 % 0x40) as char, (0x80 + cp % 0x40) as char]
    else ""
  }

  /** The character behind a backslash, for the two-character escapes. */
  function Unescape(c: char): Option<char> {
    if c == '"' || c == '/' || c == '\\' then Some(c)
    else if c == 'b' then Some(8 as char)
    else if c == 'f' then Some(12 as char)
    else if c == 'n' then Some('\n')
    else if c == 'r' then Some('\r')
    else if c == 't' then Some('\t')
    else None
  }

  /** `decodeString` on the characters between the quotes. */
  function DecodeString(s: string): Decoded
    decreases |s|
  {
    if s == "" || s[0] == '"' then Good("")
    else if s[0] != '\\' then DecodeString(s[1..]).After([s[0]])
    else if |s| == 1 then Wrong(EmptyEscape)
    else if s[1] == 'u' then
      match UnicodeEscape(s[2..])
      case NoCodePoint(message) => Wrong(message)
      case CodePoint(cp, rest) => DecodeString(rest).After(Utf8(cp))
    else
      match Unescape(s[1])
      case None => Wrong(BadEscape)
      case Some(c) => DecodeString(s[2..]).After([c])
  }

  /** A token without its quotes. */
  function Unquoted(text: string): string
    requires |text| >= 2
  {
    text[1..|text| - 1]
  }

  // ---- Numbers ------------------------------------------------------------------------------------------

  const MAX_INT: int := 0x7FFF_FFFF

  predicate IsDouble(s: string) {
    exists i | 0 <= i < |s| :: s[i] == '.' || s[i] == 'e' || s[i] == 'E' || s[i] == '+' || (s[i] == '-' && i != 0)
  }

  predicate IsNegative(s: string) {
    s != "" && s[0] == '-'
  }

  function Magnitude(s: string): string {
    if IsNegative(s) then s[1..] else s
  }

  /** The largest magnitude a 64-bit integer of that sign can have. */
  function Limit(negative: bool): int {
    if negative then 0 - Decimal.INT64_MIN else Decimal.UINT64_MAX
  }

  lemma MagnitudeDigits(s: string)
    requires NumberText(s) && !IsDouble(s)
    ensures Decimal.AllDigits(Magnitude(s))
  {
    forall i | 0 <= i < |Magnitude(s)| ensures Decimal.IsDigit(Magnitude(s)[i]) {
      assert NumberChar(s[if IsNegative(s) then i + 1 else i]);
    }
  }

  /** How an integer is tagged. */
  function Tagged(n: int): Value {
    if n <= MAX_INT then Int(n) else UInt(n)
  }

  datatype Number = Number(value: Value) | NoNumber

  /** `decodeDouble`; `scan` is the C library's `%lf`. */
  function DecodeDouble(s: string, scan: string -> Option<real>): Number {
    match scan(s)
    case Some(x) => Number(Real(x))
    case None => NoNumber
  }

  /** `decodeNumber`: the exact integer when the token is one and it fits, a double otherwise. */
  function DecodeNumber(s: string, scan: string -> Option<real>): Number
    requires NumberText(s)
  {
    if IsDouble(s) then DecodeDouble(s, scan)
    else
      MagnitudeDigits(s);
      var n := Decimal.Value(Magnitude(s));
      if n > Limit(IsNegative(s)) then DecodeDouble(s, scan)
      else Number(Tagged(if IsNegative(s) then 0 - n else n))
  }
}
