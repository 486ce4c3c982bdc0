/**
  Decimal text: the printer shared by `%zu`, `%lld` and the JSON writer, the
  C library's `strtol` family, and the int64 / int casts applied to its result.
  */
module Decimal {

  const INT64_MAX: int := 0x7FFF_FFFF_FFFF_FFFF
  const INT64_MIN: int := -0x8000_0000_0000_0000
  const UINT64_MAX: int := 0xFFFF_FFFF_FFFF_FFFF
  const TWO_64: int := 0x1_0000_0000_0000_0000

  predicate IsInt64(n: int) {
    INT64_MIN <= n <= INT64_MAX
  }

  predicate IsDigit(c: char) {
    '0' <= c <= '9'
  }

  predicate AllDigits(s: string) {
    forall i | 0 <= i < |s| :: IsDigit(s[i])
  }

  function DigitValue(c: char): (d: nat)
    requires IsDigit(c)
    ensures d < 10
  {
    (c - '0') as int
  }

  function DigitChar(d: nat): (c: char)
    requires d < 10
    ensures IsDigit(c) && DigitValue(c) == d
  {
    '0' + d as char
  }

  /** The number a digit string denotes. */
  function Value(s: string): nat
    requires AllDigits(s)
  {
    if s == [] then 0 else 10 * Value(s[..|s| - 1]) + DigitValue(s[|s| - 1])
  }

  /** Canonical decimal digits, without leading zeros. */
  function Digits(n: nat): (s: string)
    ensures |s| > 0 && AllDigits(s)
    ensures n > 0 ==> s[0] != '0'
  {
    if n < 10 then [DigitChar(n)] else Digits(n / 10) + [DigitChar(n % 10)]
  }

  function Pow10(k: nat): (p: nat)
    ensures p > 0
  {
    if k == 0 then 1 else 10 * Pow10(k - 1)
  }

  lemma {:induction false} ValueOfDigits(n: nat)
    ensures Value(Digits(n)) == n
  {
    if n >= 10 {
      ValueOfDigits(n / 10);
      var s := Digits(n);
      assert s[..|s| - 1] == Digits(n / 10);
    } else {
      var s := Digits(n);
      assert s[..|s| - 1] == [];
    }
  }

  lemma {:induction false} DigitsLength(n: nat, k: nat)
    requires k > 0 && n < Pow10(k)
    ensures |Digits(n)| <= k
  {
    if n >= 10 {
      DigitsLength(n / 10, k - 1);
    }
  }

  lemma {:induction false} ValueAppend(s: string, c: char)
    requires AllDigits(s) && IsDigit(c)
    ensures AllDigits(s + [c]) && Value(s + [c]) == 10 * Value(s) + DigitValue(c)
  {
    assert (s + [c])[..|s|] == s;
  }

  /** Appending digits never lowers the value; it grows at least tenfold per digit. */
  lemma {:induction false} ValueOfExtension(s: string, t: string)
    requires AllDigits(s) && AllDigits(t)
    ensures AllDigits(s + t) && Value(s + t) >= Value(s)
    ensures t != [] ==> Value(s + t) >= 10 * Value(s)
    decreases |t|
  {
    if t == [] {
      assert s + t == s;
    } else {
      var u := t[..|t| - 1];
      ValueOfExtension(s, u);
      ValueAppend(s + u, t[|t| - 1]);
      assert s + t == (s + u) + [t[|t| - 1]];
    }
  }

  /** `%lld`: the signed decimal text of an integer. */
  function SignedText(n: int): (s: string)
    ensures |s| > 0
  {
    if n < 0 then ['-'] + Digits(-n) else Digits(n)
  }

  /** C-locale `isspace`. */
  predicate IsSpace(c: char) {
    c == ' ' || '\t' <= c <= '\r'
  }

  function SkipSpaces(s: string): string {
    if s != [] && IsSpace(s[0]) then SkipSpaces(s[1..]) else s
  }

  function LeadingDigits(s: string): (d: string)
    ensures AllDigits(d) && d <= s
    ensures |d| < |s| ==> !IsDigit(s[|d|])
  {
    if s != [] && IsDigit(s[0]) then [s[0]] + LeadingDigits(s[1..]) else []
  }

  /** The mathematical value `strtoll(s, _, 10)` reads before it saturates. */
  function ScanInt(s: string): int {
    var t := SkipSpaces(s);
    if t != [] && t[0] == '-' then 0 - Value(LeadingDigits(t[1..]))
    else if t != [] && t[0] == '+' then Value(LeadingDigits(t[1..]))
    else Value(LeadingDigits(t))
  }

  /** `strtoll` base 10: saturates at the int64 limits. */
  function StrToInt64(s: string): (n: int)
    ensures IsInt64(n)
  {
    var v := ScanInt(s);
    if v > INT64_MAX then INT64_MAX else if v < INT64_MIN then INT64_MIN else v
  }

  lemma {:induction false} LeadingDigitsStop(s: string, rest: string)
    requires AllDigits(s)
    requires rest == [] || !IsDigit(rest[0])
    ensures LeadingDigits(s + rest) == s
  {
    if s == [] {
      assert s + rest == rest;
    } else {
      LeadingDigitsStop(s[1..], rest);
      assert (s + rest)[1..] == s[1..] + rest;
      assert s == [s[0]] + s[1..];
    }
  }

  lemma ScanDigits(n: nat, rest: string)
    requires rest == [] || !IsDigit(rest[0])
    ensures ScanInt(Digits(n) + rest) == n
  {
    var s := Digits(n);
    assert IsDigit(s[0]);
    LeadingDigitsStop(s, rest);
    ValueOfDigits(n);
  }

  lemma ScanNegative(n: nat)
    ensures ScanInt("-" + Digits(n)) == 0 - n
  {
    var s := "-" + Digits(n);
    assert s[1..] == Digits(n) == Digits(n) + [];
    LeadingDigitsStop(Digits(n), []);
    ValueOfDigits(n);
  }

  /** Printing an int64 with `%lld` and reading it back with `strtoll` is exact. */
  lemma Int64RoundTrip(n: int)
    requires IsInt64(n)
    ensures StrToInt64(SignedText(n)) == n
  {
    if n < 0 {
      ScanNegative(-n);
    } else {
      ScanDigits(n, []);
      assert Digits(n) == Digits(n) + [];
    }
  }
}
