/**
  `Json::FastWriter` as a function from values to text. `show` stands for the
  C library's printing of a double.
  */
module JsonWriting {
  import Decimal
  import opened JsonValue
  import opened JsonLexer
  import opened Text

  // ---- Values the writer can be given ------------------------------------------------------------------

  /** 64-bit integers, C strings, array indices and member names in increasing order. */
  ghost predicate WellFormed(v: Value) {
    match v
    case Int(i) => Decimal.IsInt64(i)
    case UInt(u) => u <= Decimal.UINT64_MAX
    case Str(s) => NulFree(s)
    case Arr(e) => ArrayEntries(e, 0)
    case Obj(e) => ObjectEntries(e)
    case _ => true
  }

  /** Array entries from index `from` on; indices may be skipped. */
  ghost predicate ArrayEntries(e: Entries, from: nat) {
    e.Entry? ==> e.key.Index? && from <= e.key.index && WellFormed(e.value) && ArrayEntries(e.rest, e.key.index + 1)
  }

  ghost predicate ObjectEntries(e: Entries) {
    e.Entry? ==> e.key.Name? && NulFree(e.key.name) && WellFormed(e.value) && Above(e.key, e.rest) && ObjectEntries(e.rest)
  }

  ghost predicate RealFree(v: Value) {
    match v
    case Real(_) => false
    case Arr(e) => RealFreeEntries(e)
    case Obj(e) => RealFreeEntries(e)
    case _ => true
  }

  ghost predicate RealFreeEntries(e: Entries) {
    e.Entry? ==> RealFree(e.value) && RealFreeEntries(e.rest)
  }

  // ---- The text ------------------------------------------------------------------------------------------

  predicate IsControl(c: char) {
    '\0' < c && c as int <= 0x1F
  }

  function HexDigit(d: nat): char
    requires d < 16
  {
    if d < 10 then '0' + d as char else 'A' + (d - 10) as char
  }

  /** One character inside quotes. */
  function EscapeChar(c: char): string {
    if c == '"' then "\\\""
    else if c == '\\' then "\\\\"
    else if c as int == 8 then "\\b"
    else if c as int == 12 then "\\f"
    else if c == '\n' then "\\n"
    else if c == '\r' then "\\r"
    else if c == '\t' then "\\t"
    else if IsControl(c) then "\\u00" + [HexDigit(c as int / 16), HexDigit(c as int % 16)]
    else [c]
  }

  function Escape(s: string): string {
    if s == "" then "" else EscapeChar(s[0]) + Escape(s[1..])
  }

  /** `valueToQuotedString` */
  function Quote(s: string): string {
    "\"" + Escape(s) + "\""
  }

  /** `writeValue`; an index without a value is written as null. */
  function Write(v: Value, show: real -> string): string
    requires WellFormed(v)
    decreases v, 0
  {
    match v
    case Null => "null"
    case Int(i) => Decimal.SignedText(i)
    case UInt(u) => Decimal.Digits(u)
    case Real(x) => show(x)
    case Str(s) => Quote(s)
    case Bool(b) => if b then "true" else "false"
    case Arr(e) => "[" + (if e.Empty? then "" else ItemsText(e, 0, show)) + "]"
    case Obj(e) => "{" + (if e.Empty? then "" else MembersText(e, show)) + "}"
  }

  function ItemsText(e: Entries, index: nat, show: real -> string): string
    requires e.Entry? && ArrayEntries(e, index)
    decreases e, e.key.index - index
  {
    if index < e.key.index then "null," + ItemsText(e, index + 1, show)
    else Write(e.value, show) + if e.rest.Empty? then "" else "," + ItemsText(e.rest, index + 1, show)
  }

  function MembersText(e: Entries, show: real -> string): string
    requires e.Entry? && ObjectEntries(e)
    decreases e, 0
  {
    Quote(e.key.name) + ":" + Write(e.value, show) + if e.rest.Empty? then "" else "," + MembersText(e.rest, show)
  }

  // ---- What reading makes of it ------------------------------------------------------------------------------

  /** Integers tagged as the reader tags them, and no index skipped. */
  function Normalize(v: Value): Value
    requires WellFormed(v)
    decreases v, 0
  {
    match v
    case Int(i) => Tagged(i)
    case UInt(u) => Tagged(u)
    case Arr(e) => Arr(NormalizeItems(e, 0))
    case Obj(e) => Obj(NormalizeMembers(e))
    case _ => v
  }

  function NormalizeItems(e: Entries, index: nat): Entries
    requires ArrayEntries(e, index)
    decreases e, if e.Empty? then 0 else e.key.index - index
  {
    if e.Empty? then Empty
    else if index < e.key.index then Entry(Index(index), Null, NormalizeItems(e, index + 1))
    else Entry(Index(index), Normalize(e.value), NormalizeItems(e.rest, index + 1))
  }

  function NormalizeMembers(e: Entries): Entries
    requires ObjectEntries(e)
    decreases e, 0
  {
    if e.Empty? then Empty else Entry(e.key, Normalize(e.value), NormalizeMembers(e.rest))
  }
}
