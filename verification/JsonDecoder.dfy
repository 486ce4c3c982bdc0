/** The loops that decode number and string tokens. */
module JsonDecoder {
  import Decimal
  import opened JsonValue
  import opened JsonLexer
  import opened Wrappers

  // ---- Numbers ------------------------------------------------------------------------------------------

  method LooksLikeDouble(text: string) returns (isDouble: bool)
    ensures isDouble == IsDouble(text)
  {
    isDouble := false;
    for inspect := 0 to |text|
      invariant isDouble <==> IsDouble(text[..inspect])
    {
      var c := text[inspect];
      assert text[..inspect + 1][inspect] == c;
      DoublePrefix(text, inspect);
      isDouble := isDouble || c == '.' || c == 'e' || c == 'E' || c == '+' || (c == '-' && inspect != 0);
    }
    assert text[..|text|] == text;
  }

  lemma DoublePrefix(s: string, i: nat)
    requires i < |s|
    ensures IsDouble(s[..i + 1]) <==>
            IsDouble(s[..i]) || s[i] == '.' || s[i] == 'e' || s[i] == 'E' || s[i] == '+' || (s[i] == '-' && i != 0)
  {
    var p, q := s[..i], s[..i + 1];
    assert forall j | 0 <= j < i :: p[j] == q[j];
    assert q[i] == s[i];
  }

  /** Once a tenth of the limit is passed, or reached with too large a last digit, the number cannot fit. */
  lemma TooLarge(digits: string, i: nat, limit: nat)
    requires i < |digits| && Decimal.AllDigits(digits)
    requires Decimal.AllDigits(digits[..i]) && Decimal.Value(digits[..i]) >= limit / 10
    requires Decimal.Value(digits[..i]) > limit / 10 || i + 1 < |digits| || Decimal.DigitValue(digits[i]) > limit % 10
    requires limit >= 10
    ensures Decimal.Value(digits) > limit
  {
    var before, n := digits[..i], Decimal.Value(digits[..i]);
    Decimal.ValueAppend(before, digits[i]);
    assert digits[..i + 1] == before + [digits[i]];
    Decimal.ValueOfExtension(digits[..i + 1], digits[i + 1..]);
    assert digits == digits[..i + 1] + digits[i + 1..];
    TenthOfLimit(n, limit, Decimal.DigitValue(digits[i]));
    if i + 1 < |digits| { TenfoldAgain(n, limit, Decimal.Value(digits[..i + 1])); }
  }

  lemma TenthOfLimit(n: nat, limit: nat, d: nat)
    requires d < 10
    ensures n > limit / 10 ==> 10 * n + d > limit
    ensures n == limit / 10 && d > limit % 10 ==> 10 * n + d > limit
    ensures n < limit / 10 || (n == limit / 10 && d <= limit % 10) ==> 10 * n + d <= limit
  {
  }

  lemma TenfoldAgain(n: nat, limit: nat, m: nat)
    requires n >= limit / 10 && m >= 10 * n && limit >= 10
    ensures 10 * m > limit
  {
  }

  lemma NextDigit(digits: string, i: nat)
    requires i < |digits| && Decimal.AllDigits(digits)
    ensures Decimal.AllDigits(digits[..i]) && Decimal.AllDigits(digits[..i + 1])
    ensures Decimal.Value(digits[..i + 1]) == 10 * Decimal.Value(digits[..i]) + Decimal.DigitValue(digits[i])
  {
    Decimal.ValueAppend(digits[..i], digits[i]);
    assert digits[..i + 1] == digits[..i] + [digits[i]];
  }

  /**
    The loop of `decodeNumber` over the digits: no intermediate value exceeds
    the limit, and it gives up exactly when the number does.
    */
  method AddDigits(digits: string, maxIntegerValue: nat) returns (r: Option<nat>)
    requires Decimal.AllDigits(digits) && maxIntegerValue >= 10
    ensures var n := Decimal.Value(digits); r == if n <= maxIntegerValue then Some(n) else None
  {
    var threshold := maxIntegerValue / 10;
    var value := 0;
    var current := 0;
    assert digits[..0] == "";
    while current < |digits|
      invariant 0 <= current <= |digits| && Decimal.AllDigits(digits[..current])
      invariant value == Decimal.Value(digits[..current]) && value <= maxIntegerValue
    {
      ghost var i := current;
      var digit := Decimal.DigitValue(digits[current]);
      current := current + 1;
      TenthOfLimit(value, maxIntegerValue, digit);
      if value >= threshold {
        if value > threshold || current != |digits| || digit > maxIntegerValue % 10 {
          TooLarge(digits, i, maxIntegerValue);
          return None;
        }
      }
      NextDigit(digits, i);
      value := value * 10 + digit;
    }
    assert digits[..|digits|] == digits;
    r := Some(value);
  }

  /** `decodeNumber`: the exact integer whenever there is one within 64 bits, a double otherwise. */
  method DecodeNumberToken(text: string, scan: string -> Option<real>) returns (r: Number)
    requires NumberText(text)
    ensures r == DecodeNumber(text, scan)
  {
    var isDouble := LooksLikeDouble(text);
    if isDouble { return DecodeDouble(text, scan); }
    MagnitudeDigits(text);
    var isNegative := text[0] == '-';
    var value := AddDigits(if isNegative then text[1..] else text, Limit(isNegative));
    if value.None? { return DecodeDouble(text, scan); }
    if isNegative {
      r := Number(Int(0 - value.value));
    } else if value.value <= MAX_INT {
      r := Number(Int(value.value));
    } else {
      r := Number(UInt(value.value));
    }
  }

  /** On digit strings, with or without a sign: the exact value exactly when it fits 64 bits. */
  lemma DecodedIff(text: string, scan: string -> Option<real>)
    requires NumberText(text) && !IsDouble(text)
    ensures Decimal.AllDigits(Magnitude(text))
    ensures var n := Decimal.Value(Magnitude(text));
            var v := if IsNegative(text) then 0 - n else n;
            (Decimal.INT64_MIN <= v <= Decimal.UINT64_MAX <==>
             DecodeNumber(text, scan) == Number(Int(v)) || (v > MAX_INT && DecodeNumber(text, scan) == Number(UInt(v))))
  {
    MagnitudeDigits(text);
  }

  // ---- Strings --------------------------------------------------------------------------------------------

  /** `decodeUnicodeEscapeSequence`, from position `at`; `next` is the position behind it. */
  method DecodeHex(s: string, at: nat) returns (r: CodePoint, next: nat)
    requires at <= |s|
    ensures r == HexEscape(s[at..])
    ensures r.CodePoint? ==> next == at + 4 && next <= |s| && r.rest == s[next..]
  {
    next := at;
    if |s| - at < 4 { return NoCodePoint(FourDigitsExpected), next; }
    var unicode := 0;
    ghost var four := s[at..][..4];
    for index := 0 to 4
      invariant HexNumber(four[..index]) == Some(unicode) && next == at + index
    {
      var d := HexValue(s[next]);
      assert four[..index + 1][..index] == four[..index] && four[index] == s[at + index];
      next := next + 1;
      if d.None? {
        HexStops(four, index + 1);
        return NoCodePoint(HexDigitExpected), next;
      }
      unicode := 16 * unicode + d.value;
    }
    assert four[..4] == four && s[at..][4..] == s[at + 4..];
    r := CodePoint(unicode, s[next..]);
  }

  /** A string with a bad prefix is no number. */
  lemma {:induction false} HexStops(s: string, i: nat)
    requires i <= |s| && HexNumber(s[..i]).None?
    ensures HexNumber(s).None?
    decreases |s|
  {
    if i < |s| {
      assert s[..|s| - 1][..i] == s[..i];
      HexStops(s[..|s| - 1], i);
    } else {
      assert s[..i] == s;
    }
  }

  /** `decodeUnicodeCodePoint` */
  method DecodeCodePoint(s: string, at: nat) returns (r: CodePoint, next: nat)
    requires at <= |s|
    ensures r == UnicodeEscape(s[at..])
    ensures r.CodePoint? ==> at < next <= |s| && r.rest == s[next..]
  {
    r, next := DecodeHex(s, at);
    if r.NoCodePoint? || !IsHighSurrogate(r.cp) { return; }
    if |s| - next < 6 { return NoCodePoint(SixCharactersExpected), next; }
    assert s[next..][..2] == [s[next], s[next + 1]];
    if s[next] == '\\' && s[next + 1] == 'u' {
      var high := r.cp;
      assert s[next..][2..] == s[next + 2..];
      r, next := DecodeHex(s, next + 2);
      if r.CodePoint? { r := r.(cp := JoinSurrogates(high, r.cp)); }
    } else {
      return NoCodePoint(SecondHalfExpected), next;
    }
  }

  lemma AfterTwice(d: Decoded, a: string, b: string)
    ensures d.After(b).After(a) == d.After(a + b)
  {
    if d.Good? { assert a + (b + d.text) == (a + b) + d.text; }
  }

  lemma DropTwo(s: string, i: nat)
    requires i < |s|
    ensures s[i..][0] == s[i] && s[i..][1..] == s[i + 1..]
    ensures i + 1 < |s| ==> s[i..][1] == s[i + 1] && s[i..][2..] == s[i + 2..]
  {
  }

  /** One escape, behind the backslash at `at - 1`. */
  method DecodeEscape(s: string, at: nat) returns (piece: Decoded, next: nat)
    requires 0 < at < |s| && s[at - 1] == '\\'
    ensures piece.Wrong? ==> DecodeString(s[at - 1..]) == piece
    ensures piece.Good? ==> at < next <= |s| && DecodeString(s[at - 1..]) == DecodeString(s[next..]).After(piece.text)
  {
    DropTwo(s, at - 1);
    next := at + 1;
    if s[at] == 'u' {
      var cp;
      cp, next := DecodeCodePoint(s, next);
      piece := if cp.CodePoint? then Good(Utf8(cp.cp)) else Wrong(cp.message);
    } else {
      var c := Unescape(s[at]);
      piece := if c.Some? then Good([c.value]) else Wrong(BadEscape);
    }
  }

  /** `decodeString` on the characters between the quotes. */
  method DecodeStringToken(s: string) returns (d: Decoded)
    ensures d == DecodeString(s)
  {
    var decoded := "";
    var current := 0;
    assert s[0..] == s;
    NothingBefore(DecodeString(s));
    while current != |s|
      invariant 0 <= current <= |s| && DecodeString(s) == DecodeString(s[current..]).After(decoded)
      decreases |s| - current
    {
      DropTwo(s, current);
      var c := s[current];
      current := current + 1;
      if c == '"' {
        break;
      } else if c == '\\' {
        if current == |s| { return Wrong(EmptyEscape); }
        var piece, next := DecodeEscape(s, current);
        if piece.Wrong? { return piece; }
        AfterTwice(DecodeString(s[next..]), decoded, piece.text);
        decoded := decoded + piece.text;
        current := next;
      } else {
        AfterTwice(DecodeString(s[current..]), decoded, [c]);
        decoded := decoded + [c];
      }
    }
    assert decoded + "" == decoded;
    d := Good(decoded);
  }

  lemma NothingBefore(d: Decoded)
    ensures d.After("") == d
  {
    if d.Good? { assert "" + d.text == d.text; }
  }
}
