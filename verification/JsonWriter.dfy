/** The printing routines and `Json::FastWriter`, appending to their buffers in place. */
module JsonWriter {
  import Decimal
  import opened JsonValue
  import opened JsonWriting

  // ---- Numbers ------------------------------------------------------------------------------------------

  /** Three characters a byte and the terminating NUL. */
  const BUFFER_SIZE: nat := 25

  lemma UInt64HasTwentyDigits(n: nat)
    requires n <= Decimal.UINT64_MAX
    ensures |Decimal.Digits(n)| <= 20
  {
    assert Decimal.Pow10(5) == 100000 && Decimal.Pow10(10) == Decimal.Pow10(5) * 100000;
    assert Decimal.Pow10(15) == Decimal.Pow10(10) * 100000 && Decimal.Pow10(20) == Decimal.Pow10(15) * 100000;
    Decimal.DigitsLength(n, 20);
  }

  /** The digits still to be written in front of those written. */
  function Pending(n: nat): string {
    if n == 0 then "" else Decimal.Digits(n)
  }

  lemma PendingStep(n: nat)
    ensures Decimal.Digits(n) == Pending(n / 10) + [Decimal.DigitChar(n % 10)]
  {
  }

  /** The last of the digits still to be written. */
  lemma PendingLast(digits: string, n: nat, rest: nat)
    requires n <= |digits| && digits[..n] == Pending(rest) && rest != 0
    ensures n > 0 && digits[n - 1] == Decimal.DigitChar(rest % 10) && digits[..n - 1] == Pending(rest / 10)
  {
    PendingStep(rest);
    assert digits[..n][n - 1] == digits[n - 1] && digits[..n][..n - 1] == digits[..n - 1];
  }

  /**
    `uintToString`: writes the digits backwards in front of `end`, and ends
    with the position of the first. Whatever the value, it needs at most 21
    places.
    */
  method UIntToString(value: nat, buffer: array<char>, end: nat) returns (current: nat)
    requires value <= Decimal.UINT64_MAX && 21 <= end <= buffer.Length
    modifies buffer
    ensures current == end - 1 - |Decimal.Digits(value)|
    ensures buffer[current..end - 1] == Decimal.Digits(value) && buffer[end - 1] == '\0'
  {
    ghost var digits := Decimal.Digits(value);
    UInt64HasTwentyDigits(value);
    ghost var start := end - 1 - |digits|;
    current := end - 1;
    buffer[current] := '\0';
    var rest := value;
    PendingStep(rest);
    current := current - 1;
    buffer[current] := Decimal.DigitChar(rest % 10);
    rest := rest / 10;
    assert digits[..|digits| - 1] == Pending(rest);
    while rest != 0
      invariant start <= current < end - 1 && buffer[end - 1] == '\0'
      invariant digits[..current - start] == Pending(rest)
      invariant forall k | current <= k < end - 1 :: buffer[k] == digits[k - start]
    {
      PendingLast(digits, current - start, rest);
      current := current - 1;
      buffer[current] := Decimal.DigitChar(rest % 10);
      rest := rest / 10;
    }
  }

  /** `valueToString` of a signed integer: it fits the buffer, sign and NUL included. */
  method IntToText(value: int) returns (text: string)
    requires Decimal.IsInt64(value)
    ensures text == Decimal.SignedText(value)
  {
    var buffer := new char[BUFFER_SIZE](_ => '\0');
    var isNegative := value < 0;
    var current := UIntToString(if isNegative then 0 - value else value, buffer, buffer.Length);
    UInt64HasTwentyDigits(if isNegative then 0 - value else value);
    ghost var digits := buffer[current..BUFFER_SIZE - 1];
    if isNegative {
      current := current - 1;
      buffer[current] := '-';
      assert buffer[current..BUFFER_SIZE - 1] == ['-'] + digits;
    }
    text := buffer[current..BUFFER_SIZE - 1];
  }

  /** `valueToString` of an unsigned integer. */
  method UIntToText(value: nat) returns (text: string)
    requires value <= Decimal.UINT64_MAX
    ensures text == Decimal.Digits(value)
  {
    var buffer := new char[BUFFER_SIZE](_ => '\0');
    var current := UIntToString(value, buffer, buffer.Length);
    text := buffer[current..BUFFER_SIZE - 1];
  }

  // ---- Strings --------------------------------------------------------------------------------------------

  predicate IsSpecial(c: char) {
    c == '"' || c == '\\' || c as int == 8 || c as int == 12 || c == '\n' || c == '\r' || c == '\t' || IsControl(c)
  }

  lemma {:induction false} PlainText(s: string)
    requires forall i | 0 <= i < |s| :: !IsSpecial(s[i])
    ensures Escape(s) == s
    decreases |s|
  {
    if s != "" {
      PlainText(s[1..]);
      assert s == [s[0]] + s[1..];
    }
  }

  lemma {:induction false} EscapeSnoc(s: string, c: char)
    ensures Escape(s + [c]) == Escape(s) + EscapeChar(c)
    decreases |s|
  {
    if s == "" {
      assert (s + [c])[1..] == "";
      assert EscapeChar(c) + "" == EscapeChar(c);
    } else {
      EscapeSnoc(s[1..], c);
      assert (s + [c])[1..] == s[1..] + [c];
    }
  }

  /** The text written once `i` characters are. */
  ghost function QuotedSoFar(s: string, i: nat): string
    requires i <= |s|
  {
    "\"" + Escape(s[..i])
  }

  lemma EscapeNext(s: string, i: nat)
    requires i < |s|
    ensures QuotedSoFar(s, i) + EscapeChar(s[i]) == QuotedSoFar(s, i + 1)
  {
    EscapeSnoc(s[..i], s[i]);
    assert s[..i + 1] == s[..i] + [s[i]];
  }

  lemma EscapeEnds(s: string)
    ensures QuotedSoFar(s, 0) == "\"" && QuotedSoFar(s, |s|) + "\"" == Quote(s)
  {
    assert s[..|s|] == s && s[..0] == "";
  }

  /** Whether a character of the string has to be escaped. */
  method NeedsEscape(value: string) returns (special: bool)
    ensures special <==> exists i | 0 <= i < |value| :: IsSpecial(value[i])
  {
    special := false;
    for i := 0 to |value|
      invariant special <==> exists j | 0 <= j < i :: IsSpecial(value[j])
    {
      if IsSpecial(value[i]) { special := true; }
    }
  }

  /** The loop that escapes character by character. */
  method EscapedString(value: string) returns (result: string)
    ensures result == Quote(value)
  {
    EscapeEnds(value);
    result := "\"";
    for c := 0 to |value|
      invariant result == QuotedSoFar(value, c)
    {
      EscapeNext(value, c);
      result := result + EscapeChar(value[c]);
    }
    result := result + "\"";
  }

  /** `valueToQuotedString`: copied as it is when nothing needs escaping. */
  method QuotedString(value: string) returns (result: string)
    ensures result == Quote(value)
  {
    var special := NeedsEscape(value);
    if special {
      result := EscapedString(value);
    } else {
      PlainText(value);
      result := "\"" + value + "\"";
    }
  }

  // ---- Values -----------------------------------------------------------------------------------------------

  /** `size` of an array: one more than its last index. */
  function Extent(e: Entries): nat {
    if e.Empty? || !e.key.Index? then 0 else if e.rest.Empty? then e.key.index + 1 else Extent(e.rest)
  }

  lemma {:induction false} ItemsExtent(e: Entries, from: nat)
    requires ArrayEntries(e, from) && e.Entry?
    ensures from <= e.key.index < Extent(e)
  {
    if e.rest.Entry? { ItemsExtent(e.rest, e.key.index + 1); }
  }

  /** A value looked up is smaller than the container, also where there is none. */
  lemma {:induction false} GetIsSmaller(e: Entries, k: Key)
    ensures Size(Get(e, k)) <= 1 + EntriesSize(e) && (e.Entry? ==> Size(Get(e, k)) <= EntriesSize(e))
  {
    if e.Entry? { GetIsSmaller(e.rest, k); }
  }

  lemma {:induction false} GetItem(e: Entries, from: nat, index: nat)
    requires ArrayEntries(e, from)
    ensures index < from ==> Get(e, Index(index)) == Null
    ensures WellFormed(Get(e, Index(index)))
  {
    if e.Entry? { GetItem(e.rest, e.key.index + 1, index); }
  }

  /** What is still to be written of an array once the items before `index` are: `f` are the entries left. */
  function ItemsLeft(f: Entries, index: nat, show: real -> string): string
    requires ArrayEntries(f, index)
  {
    if f.Empty? then "" else if index > 0 then "," + ItemsText(f, index, show) else ItemsText(f, index, show)
  }

  /** The entries left behind `index`. */
  function Behind(f: Entries, index: nat): Entries
    requires f.Entry? && ArrayEntries(f, index)
  {
    if index < f.key.index then f else f.rest
  }

  /** Writing the item at `index` leaves the items behind it. */
  lemma ItemWritten(f: Entries, index: nat, show: real -> string)
    requires f.Entry? && ArrayEntries(f, index)
    ensures ArrayEntries(Behind(f, index), index + 1) && WellFormed(Get(f, Index(index)))
    ensures ItemsText(f, index, show) ==
            Write(Get(f, Index(index)), show) + ItemsLeft(Behind(f, index), index + 1, show)
  {
    if index < f.key.index {
      GetItem(f.rest, f.key.index + 1, index);
      assert Get(f, Index(index)) == Null;
      assert "null," + ItemsText(f, index + 1, show) == "null" + ("," + ItemsText(f, index + 1, show));
    }
  }

  /** `e` and `f` have the same items from `index` on. */
  ghost predicate SameFrom(e: Entries, f: Entries, index: nat) {
    forall k: nat | k >= index :: Get(e, Index(k)) == Get(f, Index(k))
  }

  lemma BehindKeeps(e: Entries, f: Entries, index: nat)
    requires f.Entry? && ArrayEntries(f, index) && SameFrom(e, f, index)
    ensures SameFrom(e, Behind(f, index), index + 1)
    ensures if Behind(f, index).Entry? then Extent(Behind(f, index)) == Extent(f) else Extent(f) == index + 1
  {
  }

  /** The names of an object, as `getMemberNames` lists them. */
  function NamesOf(e: Entries): seq<string>
    requires ObjectEntries(e)
  {
    if e.Empty? then [] else [e.key.name] + NamesOf(e.rest)
  }

  /** The entry of `e` for every key of `f` is the one `f` has. */
  ghost predicate Agrees(e: Entries, f: Entries) {
    forall k :: Has(f, k) ==> Get(e, k) == Get(f, k)
  }

  lemma AgreesTail(e: Entries, f: Entries)
    requires f.Entry? && ObjectEntries(f) && Agrees(e, f)
    ensures Agrees(e, f.rest) && Get(e, f.key) == f.value
  {
    AboveMeansAbsent(f.key, f.rest);
    assert Has(f, f.key);
    forall k | Has(f.rest, k) ensures Get(e, k) == Get(f.rest, k) { assert Has(f, k); }
  }

  /** What is still to be written of an object. */
  function MembersLeft(f: Entries, first: bool, show: real -> string): string
    requires ObjectEntries(f)
  {
    if f.Empty? then "" else if first then MembersText(f, show) else "," + MembersText(f, show)
  }

  lemma MemberWritten(f: Entries, show: real -> string)
    requires f.Entry? && ObjectEntries(f)
    ensures MembersText(f, show) == Quote(f.key.name) + ":" + Write(f.value, show) + MembersLeft(f.rest, false, show)
  {
  }

  /** The next name is that of the first entry left. */
  lemma NextName(f: Entries, members: seq<string>, i: nat)
    requires ObjectEntries(f) && i < |members| && NamesOf(f) == members[i..]
    ensures f.Entry? && f.key.name == members[i] && NamesOf(f.rest) == members[i + 1..]
  {
    assert members[i..][1..] == members[i + 1..];
    assert f.Entry? ==> NamesOf(f)[1..] == NamesOf(f.rest);
  }

  lemma NamesMeanEntries(e: Entries)
    requires ObjectEntries(e)
    ensures NamesOf(e) != [] <==> e.Entry?
  {
  }

  lemma NoMembersLeft(f: Entries, first: bool, show: real -> string)
    requires ObjectEntries(f)
    ensures NamesOf(f) == [] ==> MembersLeft(f, first, show) == ""
  {
  }

  /** Writing one member, with the comma in front of it, uses up what is left of it. */
  lemma MemberTurn(document: string, f: Entries, first: bool, show: real -> string)
    requires f.Entry? && ObjectEntries(f)
    ensures WithElement(document, !first, Quote(f.key.name) + ":" + Write(f.value, show)) + MembersLeft(f.rest, false, show)
         == document + MembersLeft(f, first, show)
  {
    hide Write, Quote, WithElement;
    MemberWritten(f, show);
    ElementWritten(document, !first, Quote(f.key.name) + ":" + Write(f.value, show), MembersLeft(f.rest, false, show));
  }

  lemma ObjectText(e: Entries, show: real -> string)
    requires ObjectEntries(e)
    ensures Write(Obj(e), show) == "{" + MembersLeft(e, true, show) + "}"
  {
  }

  /** The document once an element and the comma in front of it have been written. */
  function WithElement(document: string, comma: bool, text: string): string {
    if comma then (document + ",") + text else document + text
  }

  lemma ElementWritten(document: string, comma: bool, text: string, left: string)
    ensures WithElement(document, comma, text) + left ==
            document + if comma then "," + (text + left) else text + left
  {
  }

  lemma Closed(document: string, open: string, inner: string, close: string)
    ensures ((document + open) + inner) + close == document + (open + inner + close)
    ensures (document + open) + inner == document + (open + inner)
    ensures document + "" == document
  {
  }

  class FastWriter {
    const show: real -> string
    var document: string

    constructor (show: real -> string)
      ensures this.show == show && document == ""
    {
      this.show := show;
      document := "";
    }

    /** The document is the text of the value and a line end, whatever was in it before. */
    method WriteDocument(root: Value) returns (text: string)
      requires WellFormed(root)
      modifies this
      ensures text == document == Write(root, show) + "\n"
    {
      document := "";
      WriteValue(root);
      assert "" + Write(root, show) == Write(root, show);
      document := document + "\n";
      text := document;
    }

    /** Appends the text of the value. */
    method WriteValue(v: Value)
      requires WellFormed(v)
      modifies this
      ensures document == old(document) + Write(v, show)
      decreases Size(v), 1
    {
      match v
      case Null => document := document + "null";
      case Int(i) =>
        var t := IntToText(i);
        document := document + t;
      case UInt(u) =>
        var t := UIntToText(u);
        document := document + t;
      case Real(x) => document := document + show(x);
      case Str(s) =>
        var t := QuotedString(s);
        document := document + t;
      case Bool(b) => document := document + if b then "true" else "false";
      case Arr(e) => WriteArray(e);
      case Obj(e) => WriteObject(e);
    }

    method WriteArray(e: Entries)
      requires ArrayEntries(e, 0)
      modifies this
      ensures document == old(document) + Write(Arr(e), show)
      decreases 1 + EntriesSize(e), 0
    {
      document := document + "[";
      var size := Extent(e);
      var index := 0;
      ghost var f, goal := e, document + ItemsLeft(e, 0, show);
      while index < size
        invariant 0 <= index <= size && ArrayEntries(f, index) && SameFrom(e, f, index)
        invariant if f.Entry? then Extent(f) == size else index == size
        invariant document + ItemsLeft(f, index, show) == goal
      {
        ItemWritten(f, index, show);
        BehindKeeps(e, f, index);
        GetIsSmaller(e, Index(index));
        assert Get(e, Index(index)) == Get(f, Index(index));
        ElementWritten(document, index > 0, Write(Get(e, Index(index)), show),
                       ItemsLeft(Behind(f, index), index + 1, show));
        if index > 0 { document := document + ","; }
        WriteValue(Get(e, Index(index)));
        f := Behind(f, index);
        index := index + 1;
      }
      if f.Entry? { ItemsExtent(f, index); }
      Closed(old(document), "[", if e.Empty? then "" else ItemsText(e, 0, show), "]");
      Closed(document, "", "", "");
      document := document + "]";
    }

    method WriteObject(e: Entries)
      requires ObjectEntries(e)
      modifies this
      ensures document == old(document) + Write(Obj(e), show)
      decreases 1 + EntriesSize(e), 0
    {
      hide Write, MembersText, MembersLeft, NamesOf, Quote, WithElement;
      document := document + "{";
      var members := NamesOf(e);
      NamesMeanEntries(e);
      ghost var f, goal := e, document + MembersLeft(e, true, show);
      var i := 0;
      while i < |members|
        invariant 0 <= i <= |members| && ObjectEntries(f) && Agrees(e, f) && NamesOf(f) == members[i..]
        invariant document + MembersLeft(f, i == 0, show) == goal
      {
        var name := members[i];
        NextName(f, members, i);
        AgreesTail(e, f);
        GetIsSmaller(e, Name(name));
        MemberTurn(document, f, i == 0, show);
        WriteMember(i > 0, name, Get(e, Name(name)));
        f := f.rest;
        i := i + 1;
      }
      NoMembersLeft(f, i == 0, show);
      ObjectText(e, show);
      Closed(old(document), "{", MembersLeft(e, true, show), "}");
      Closed(document, "", "", "");
      document := document + "}";
    }

    method WriteMember(comma: bool, name: string, v: Value)
      requires WellFormed(v)
      modifies this
      ensures document == WithElement(old(document), comma, Quote(name) + ":" + Write(v, show))
      decreases Size(v), 2
    {
      if comma { document := document + ","; }
      ghost var start := document;
      var t := QuotedString(name);
      document := document + t;
      document := document + ":";
      Closed(start, Quote(name), ":", Write(v, show));
      WriteValue(v);
    }
  }
}
