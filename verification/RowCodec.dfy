/**
  Row keys of the RocksDB store (`xDataBase::EncodeKey` / `DecodeKey`), in which
  byte-swapped scores sort like numbers.
  */
module RowCodec {
  import opened Wrappers
  import opened ByteOrder
  import opened ByteSwap
  import opened Decimal

  // ---- Byte order of 64-bit scores ----------------------------------------

  /** Memory image of an unsigned integer on the little-endian host. */
  function LittleEndianBytes(v: nat, width: nat): (s: string)
    ensures |s| == width
  {
    if width == 0 then [] else [(v % 256) as char] + LittleEndianBytes(v / 256, width - 1)
  }

  function LoadLittleEndian(s: string): nat {
    if s == [] then 0 else (s[0] as int) % 256 + 256 * LoadLittleEndian(s[1..])
  }

  /** Most significant byte first: the reference for what a stored score looks like. */
  function BigEndianBytes(v: nat, width: nat): (s: string)
    ensures |s| == width
  {
    if width == 0 then [] else BigEndianBytes(v / 256, width - 1) + [(v % 256) as char]
  }

  function Pow256(k: nat): nat {
    if k == 0 then 1 else 256 * Pow256(k - 1)
  }

  lemma {:induction false} LoadStore(v: nat, width: nat)
    requires v < Pow256(width)
    ensures LoadLittleEndian(LittleEndianBytes(v, width)) == v
  {
    if width > 0 {
      LoadStore(v / 256, width - 1);
    }
  }

  /** Big-endian bytes of equal width compare like the numbers they hold. */
  lemma {:induction false} BigEndianOrder(a: nat, b: nat, width: nat)
    requires a < Pow256(width) && b < Pow256(width)
    ensures Less(BigEndianBytes(a, width), BigEndianBytes(b, width)) <==> a < b
    ensures BigEndianBytes(a, width) == BigEndianBytes(b, width) <==> a == b
  {
    if width > 0 {
      var x, y := BigEndianBytes(a / 256, width - 1), BigEndianBytes(b / 256, width - 1);
      var c, d := (a % 256) as char, (b % 256) as char;
      BigEndianOrder(a / 256, b / 256, width - 1);
      LastDigitDecides(a, b);
      LastByte(x, c, y, d);
      if x == y {
        CommonPrefix(x, [c], [d]);
        assert Less([c], [d]) <==> c < d;
      } else {
        FixedWidth(x, [c], y, [d]);
      }
    }
  }

  lemma LastDigitDecides(a: nat, b: nat)
    ensures a / 256 == b / 256 ==> (a < b <==> a % 256 < b % 256) && (a == b <==> a % 256 == b % 256)
    ensures a / 256 < b / 256 ==> a < b
    ensures a / 256 > b / 256 ==> a > b
  {
  }

  lemma LastByte(x: string, c: char, y: string, d: char)
    requires |x| == |y|
    ensures x + [c] == y + [d] <==> x == y && c == d
  {
    if x + [c] == y + [d] {
      assert (x + [c])[..|x|] == x && (y + [d])[..|x|] == y;
      assert (x + [c])[|x|] == c && (y + [d])[|x|] == d;
    }
  }

  lemma Pow256Values()
    ensures Pow256(4) == 0x1_0000_0000 && Pow256(8) == TWO_64
  {
    assert Pow256(2) == 0x1_0000 && Pow256(6) == Pow256(2) * 0x1_0000_0000;
  }

  lemma {:induction false} DigitsAreBytes(v: nat, width: nat)
    ensures IsBytes(LittleEndianBytes(v, width))
  {
    if width > 0 { DigitsAreBytes(v / 256, width - 1); }
  }

  lemma {:induction false} BigEndianIsMirrored(v: nat, width: nat)
    ensures BigEndianBytes(v, width) == Mirrored(LittleEndianBytes(v, width))
  {
    if width > 0 {
      BigEndianIsMirrored(v / 256, width - 1);
      MirroredFirst((v % 256) as char, LittleEndianBytes(v / 256, width - 1));
    }
  }

  lemma MirroredFirst(c: char, s: string)
    ensures Mirrored([c] + s) == Mirrored(s) + [c]
  {
  }

  /** A `uint64_t`. */
  function Word(u: nat): bv64
    requires u < TWO_64
  {
    Load(LittleEndianBytes(u, 8))
  }

  /** `encode_score` and the copy into the row. */
  function ScoreImage(u: nat): (s: string)
    requires u < TWO_64
    ensures |s| == 8
  {
    Store(BigEndian64(Word(u)))
  }

  /** Storing a byte-swapped score lays down its bytes most significant first. */
  lemma BigEndian64IsBigEndian(u: nat)
    requires u < TWO_64
    ensures ScoreImage(u) == BigEndianBytes(u, 8)
  {
    hide Load, Store, BigEndian64, Mirrored;
    DigitsAreBytes(u, 8);
    SwapMirrors(LittleEndianBytes(u, 8));
    BigEndianIsMirrored(u, 8);
  }

  /** Swapping the stored bytes once more restores the word. */
  lemma BigEndian64Involution(u: nat)
    requires u < TWO_64
    ensures Store(BigEndian64(Load(ScoreImage(u)))) == LittleEndianBytes(u, 8)
  {
    hide Load, Store, BigEndian64, Mirrored, LittleEndianBytes;
    var s := LittleEndianBytes(u, 8);
    DigitsAreBytes(u, 8);
    SwapMirrors(s);
    MirroredBytes(s);
    SwapMirrors(Mirrored(s));
    MirroredTwice(s);
  }

  // ---- Row keys -------------------------------------------------------------

  /** The 64-bit pattern of an int64. */
  function ToUint64(s: int): (u: nat)
    requires IsInt64(s)
    ensures u < TWO_64
  {
    if s < 0 then s + TWO_64 else s
  }

  function ToInt64(u: nat): (s: int)
    requires u < TWO_64
    ensures IsInt64(s)
  {
    if u > INT64_MAX then u - TWO_64 else u
  }

  /** `(uint8_t)s.size()`: the length byte, which wraps at 256. */
  function LengthByte(s: string): char {
    (|s| % 256) as char
  }

  /** `k | key` */
  function KvRow(key: string): string {
    "k" + key
  }

  /** `s | key_len | key | member_len | member` */
  function MemberRow(key: string, member: string): string {
    "s" + [LengthByte(key)] + key + [LengthByte(member)] + member
  }

  function ScorePrefix(key: string): string {
    "z" + [LengthByte(key)] + key
  }

  /** `z | key_len | key | score | ':' | member` */
  function ScoreRow(key: string, score: int, member: string): string
    requires IsInt64(score)
  {
    ScorePrefix(key) + ScoreImage(ToUint64(score)) + ":" + member
  }

  datatype Decoded = Decoded(key: string, member: string, score: string)

  datatype Fields = Fields(key: string, image: string, member: string)

  /** The `Decoder` calls of `DecodeKey` on a score row; each fails when the row is too short. */
  function ScoreRowFields(row: string): (r: Option<Fields>)
    ensures r.Some? ==> |r.value.image| == 8
  {
    if |row| < 2 || row[0] != 'z' then None
    else
      var len := (row[1] as int) % 256;
      var rest := row[2..];
      if |rest| < len + 8 + 1 then None
      else Some(Fields(rest[..len], rest[len..len + 8], rest[len + 9..]))
  }

  function DecodeScoreRow(row: string): Option<Decoded> {
    match ScoreRowFields(row)
    case None => None
    case Some(Fields(key, image, member)) => Some(Decoded(key, member, SignedText(LoadScore(image))))
  }

  /** `read_int64` followed by `decode_score`. */
  function LoadScore(image: string): int
    requires |image| == 8
  {
    LoadBound(Store(BigEndian64(Load(image))));
    Pow256Values();
    ToInt64(LoadLittleEndian(Store(BigEndian64(Load(image)))))
  }

  lemma {:induction false} LoadBound(s: string)
    ensures LoadLittleEndian(s) < Pow256(|s|)
  {
    if s != [] {
      LoadBound(s[1..]);
    }
  }

  /** The eight stored score bytes read back as the score. */
  lemma StoredScore(score: int)
    requires IsInt64(score)
    ensures LoadScore(ScoreImage(ToUint64(score))) == score
  {
    hide Load, Store, BigEndian64, LittleEndianBytes, LoadLittleEndian;
    Pow256Values();
    LoadStore(ToUint64(score), 8);
    BigEndian64Involution(ToUint64(score));
  }

  /** Decoding a score row gives back the key, the member and the printed score. */
  lemma DecodeInvertsEncode(key: string, score: int, member: string)
    requires |key| <= 255 && IsInt64(score)
    ensures DecodeScoreRow(ScoreRow(key, score, member)) == Some(Decoded(key, member, SignedText(score)))
  {
    var image := ScoreImage(ToUint64(score));
    StoredScore(score);
    DecodeFields(key, image, member);
  }

  /** With a name the length byte cannot count, another name is decoded. */
  lemma DecodedIff(key: string, score: int, member: string)
    requires IsInt64(score)
    ensures DecodeScoreRow(ScoreRow(key, score, member)) == Some(Decoded(key, member, SignedText(score))) <==> |key| <= 255
  {
    hide LoadScore, ScoreImage, SignedText;
    if |key| <= 255 {
      DecodeInvertsEncode(key, score, member);
    } else {
      DecodedNameIsShort(ScoreRow(key, score, member));
    }
  }

  lemma DecodedNameIsShort(row: string)
    ensures ScoreRowFields(row).Some? ==> |ScoreRowFields(row).value.key| <= 255
  {
  }

  lemma DecodeFields(key: string, image: string, member: string)
    requires |key| <= 255 && |image| == 8
    ensures ScoreRowFields(ScorePrefix(key) + image + ":" + member) == Some(Fields(key, image, member))
  {
    var row := ScorePrefix(key) + image + ":" + member;
    var rest := row[2..];
    assert rest == key + image + ":" + member;
    assert rest[..|key|] == key;
    assert rest[|key|..|key| + 8] == image;
    assert rest[|key| + 9..] == member;
  }

  ghost predicate EntryBefore(s: int, m: string, t: int, n: string) {
    s < t || (s == t && Less(m, n))
  }

  lemma ScoreRowShape(key: string, s: int, m: string)
    requires IsInt64(s)
    ensures ScoreRow(key, s, m) == ScorePrefix(key) + (BigEndianBytes(ToUint64(s), 8) + (":" + m))
  {
    BigEndian64IsBigEndian(ToUint64(s));
  }

  /** Byte order on the score rows of one set compares the unsigned 64-bit scores, then the members. */
  lemma UnsignedScoreRowOrder(key: string, s: int, m: string, t: int, n: string)
    requires IsInt64(s) && IsInt64(t)
    ensures Less(ScoreRow(key, s, m), ScoreRow(key, t, n)) <==> EntryBefore(ToUint64(s), m, ToUint64(t), n)
  {
    ScoreRowShape(key, s, m);
    ScoreRowShape(key, t, n);
    var x, y := BigEndianBytes(ToUint64(s), 8), BigEndianBytes(ToUint64(t), 8);
    CommonPrefix(ScorePrefix(key), x + (":" + m), y + (":" + n));
    ScoreFieldOrder(ToUint64(s), m, ToUint64(t), n);
  }

  /** For deadlines that are not negative, this is the order on (score, member). */
  lemma ScoreRowOrder(key: string, s: int, m: string, t: int, n: string)
    requires 0 <= s <= INT64_MAX && 0 <= t <= INT64_MAX
    ensures Less(ScoreRow(key, s, m), ScoreRow(key, t, n)) <==> EntryBefore(s, m, t, n)
  {
    UnsignedScoreRowOrder(key, s, m, t, n);
  }

  lemma ScoreFieldOrder(s: nat, m: string, t: nat, n: string)
    requires s < TWO_64 && t < TWO_64
    ensures Less(BigEndianBytes(s, 8) + (":" + m), BigEndianBytes(t, 8) + (":" + n)) <==> EntryBefore(s, m, t, n)
  {
    Pow256Values();
    BigEndianOrder(s, t, 8);
    var x, y := BigEndianBytes(s, 8), BigEndianBytes(t, 8);
    if s == t {
      CommonPrefix(x, ":" + m, ":" + n);
      CommonPrefix(":", m, n);
    } else {
      FixedWidth(x, ":" + m, y, ":" + n);
    }
  }

  /** The names whose length the one length byte determines; `Zset` and `Zdel` refuse the empty name. */
  predicate ValidName(key: string) {
    0 < |key| <= 256
  }

  lemma LengthByteFixesLength(key: string, key': string)
    requires ValidName(key) && ValidName(key') && LengthByte(key) == LengthByte(key')
    ensures |key| == |key'|
  {
  }

  lemma NamedFields(tag: string, key: string, tail: string)
    requires |tag| == 1
    ensures var row := tag + [LengthByte(key)] + key + tail;
            && |row| == 2 + |key| + |tail| && row[0] == tag[0] && row[1] == LengthByte(key)
            && row[2..2 + |key|] == key && row[2 + |key|..] == tail
  {
  }

  lemma SameNamedFields(tag: string, key: string, tail: string, key': string, tail': string)
    requires |tag| == 1 && ValidName(key) && ValidName(key')
    requires tag + [LengthByte(key)] + key + tail == tag + [LengthByte(key')] + key' + tail'
    ensures key == key' && tail == tail'
  {
    NamedFields(tag, key, tail);
    NamedFields(tag, key', tail');
    LengthByteFixesLength(key, key');
  }

  lemma ScoreRowInjective(key: string, s: int, m: string, key': string, s': int, m': string)
    requires ValidName(key) && ValidName(key') && IsInt64(s) && IsInt64(s')
    requires ScoreRow(key, s, m) == ScoreRow(key', s', m')
    ensures key == key' && s == s' && m == m'
  {
    hide ScoreRow, BigEndianBytes;
    ScoreRowShape(key, s, m);
    ScoreRowShape(key', s', m');
    var x, y := BigEndianBytes(ToUint64(s), 8), BigEndianBytes(ToUint64(s'), 8);
    SameNamedFields("z", key, x + (":" + m), key', y + (":" + m'));
    SameTail(x, ":", m, y, m');
    Pow256Values();
    BigEndianOrder(ToUint64(s), ToUint64(s'), 8);
  }

  lemma SameTail(x: string, c: string, m: string, y: string, m': string)
    requires |x| == |y| && x + (c + m) == y + (c + m')
    ensures x == y && m == m'
  {
    assert (x + (c + m))[..|x|] == x && (y + (c + m'))[..|x|] == y;
    assert (x + (c + m))[|x| + |c|..] == m && (y + (c + m'))[|x| + |c|..] == m';
  }

  lemma MemberRowInjective(key: string, m: string, key': string, m': string)
    requires ValidName(key) && ValidName(key')
    requires MemberRow(key, m) == MemberRow(key', m')
    ensures key == key' && m == m'
  {
    var x, y := [LengthByte(m)], [LengthByte(m')];
    assert MemberRow(key, m) == "s" + [LengthByte(key)] + key + (x + m);
    assert MemberRow(key', m') == "s" + [LengthByte(key')] + key' + (y + m');
    SameNamedFields("s", key, x + m, key', y + m');
    assert (x + m)[1..] == m && (y + m')[1..] == m';
  }

  /** The three kinds of row never coincide. */
  lemma RowKindsDisjoint(k: string, key: string, m: string, key': string, s: int, m': string)
    requires IsInt64(s)
    ensures KvRow(k) != MemberRow(key, m)
    ensures KvRow(k) != ScoreRow(key', s, m')
    ensures MemberRow(key, m) != ScoreRow(key', s, m')
  {
    assert KvRow(k)[0] == 'k' && MemberRow(key, m)[0] == 's' && ScoreRow(key', s, m')[0] == 'z';
  }

  lemma KvRowInjective(a: string, b: string)
    requires KvRow(a) == KvRow(b)
    ensures a == b
  {
    assert KvRow(a)[1..] == a && KvRow(b)[1..] == b;
  }

  /** `n` copies of one byte. */
  function Filler(n: nat): (s: string)
    ensures |s| == n
  {
    seq(n, _ => 'x')
  }

  ghost predicate MemberRowsDistinct(bound: nat) {
    forall key, m, key', m' |
      0 < |key| <= bound && 0 < |key'| <= bound && MemberRow(key, m) == MemberRow(key', m') ::
      key == key' && m == m'
  }

  /**
    One length byte suffices exactly while (non-empty) set names stay within 256 bytes:
    with any larger bound, two different (set, member) pairs share one row.
    */
  lemma MemberRowsDistinctIff(bound: nat)
    ensures MemberRowsDistinct(bound) <==> bound <= 256
  {
    if bound <= 256 {
      forall key, m, key', m' |
        0 < |key| <= bound && 0 < |key'| <= bound && MemberRow(key, m) == MemberRow(key', m')
        ensures key == key' && m == m'
      {
        MemberRowInjective(key, m, key', m');
      }
    } else {
      LongNameCollides();
      assert |LongName()| == 257 && 0 < |"a"| <= bound;
    }
  }

  /** A 257-byte name that spells out a 1-byte name followed by the start of a member. */
  function LongName(): string {
    "a" + ['\U{1}'] + Filler(255)
  }

  function LongMember(): string {
    Filler(255) + ['\U{1}'] + "b"
  }

  lemma LongNameCollides()
    ensures MemberRow("a", LongMember()) == MemberRow(LongName(), "b") && LongName() != "a"
  {
    assert LengthByte("a") == LengthByte(LongName()) == LengthByte("b") == LengthByte(LongMember()) == '\U{1}';
  }
}
