/**
  `big_endian` of `util.h` on machine words, and the image a 64-bit word has in
  the memory of a little-endian host: swapping a word mirrors its image.
  */
module ByteSwap {

  function BigEndian32(v: bv32): bv32 {
    (v >> 24) | ((v >> 8) & 0xff00) | ((v << 8) & 0xff0000) | (v << 24)
  }

  function BigEndian64(v: bv64): bv64 {
    var h := (v >> 32) as bv32;
    var l := (v & 0xffff_ffff) as bv32;
    BigEndian32(h) as bv64 | (BigEndian32(l) as bv64 << 32)
  }

  // ---- Words in memory ------------------------------------------------------------------

  /** A byte, converted in two halves. */
  function FromHalves(high: bv4, low: bv4): bv8 {
    ((high as bv8) << 4) | (low as bv8)
  }

  function High(b: bv8): bv4 {
    (b >> 4) as bv4
  }

  function Low(b: bv8): bv4 {
    (b & 15) as bv4
  }

  function Half(n: nat): bv4
    requires n < 16
  {
    n as bv4
  }

  function Number(h: bv4): (n: nat)
    ensures n < 16
  {
    h as nat
  }

  function Byte(c: char): bv8 {
    FromHalves(Half(c as nat / 16 % 16), Half(c as nat % 16))
  }

  function Char(b: bv8): char {
    (16 * Number(High(b)) + Number(Low(b))) as char
  }

  lemma NumberOfHalf(n: nat)
    requires n < 16
    ensures Number(Half(n)) == n
  {
  }

  lemma HalvesOfByte(high: bv4, low: bv4)
    ensures High(FromHalves(high, low)) == high && Low(FromHalves(high, low)) == low
  {
  }

  lemma HexDigits(n: nat)
    requires n < 256
    ensures n / 16 < 16 && n / 16 % 16 == n / 16 && n == 16 * (n / 16) + n % 16
  {
  }

  lemma CharOfByte(c: char)
    requires c as int < 256
    ensures Char(Byte(c)) == c
  {
    hide Half, Number, High, Low, FromHalves;
    var n := c as nat;
    HexDigits(n);
    HalvesOfByte(Half(n / 16), Half(n % 16));
    NumberOfHalf(n / 16);
    NumberOfHalf(n % 16);
  }

  function FromBytes(b0: bv8, b1: bv8, b2: bv8, b3: bv8, b4: bv8, b5: bv8, b6: bv8, b7: bv8): bv64 {
    (b0 as bv64) | (b1 as bv64 << 8) | (b2 as bv64 << 16) | (b3 as bv64 << 24)
    | (b4 as bv64 << 32) | (b5 as bv64 << 40) | (b6 as bv64 << 48) | (b7 as bv64 << 56)
  }

  function LowByte(v: bv64): bv8 {
    (v & 0xff) as bv8
  }

  /** The word that eight bytes in memory hold. */
  function Load(s: string): bv64
    requires |s| == 8
  {
    FromBytes(Byte(s[0]), Byte(s[1]), Byte(s[2]), Byte(s[3]), Byte(s[4]), Byte(s[5]), Byte(s[6]), Byte(s[7]))
  }

  /** The eight bytes of a word in memory. */
  function Store(v: bv64): (s: string)
    ensures |s| == 8
  {
    [Char(LowByte(v)), Char(LowByte(v >> 8)), Char(LowByte(v >> 16)), Char(LowByte(v >> 24)),
     Char(LowByte(v >> 32)), Char(LowByte(v >> 40)), Char(LowByte(v >> 48)), Char(LowByte(v >> 56))]
  }

  lemma StoredBytes(b0: bv8, b1: bv8, b2: bv8, b3: bv8, b4: bv8, b5: bv8, b6: bv8, b7: bv8)
    ensures Store(FromBytes(b0, b1, b2, b3, b4, b5, b6, b7))
         == [Char(b0), Char(b1), Char(b2), Char(b3), Char(b4), Char(b5), Char(b6), Char(b7)]
  {
    hide Char;
    BytesOfWord(b0, b1, b2, b3, b4, b5, b6, b7);
  }

  lemma BytesOfWord(b0: bv8, b1: bv8, b2: bv8, b3: bv8, b4: bv8, b5: bv8, b6: bv8, b7: bv8)
    ensures var v := FromBytes(b0, b1, b2, b3, b4, b5, b6, b7);
            && LowByte(v) == b0 && LowByte(v >> 8) == b1 && LowByte(v >> 16) == b2 && LowByte(v >> 24) == b3
            && LowByte(v >> 32) == b4 && LowByte(v >> 40) == b5 && LowByte(v >> 48) == b6 && LowByte(v >> 56) == b7
  {
  }

  lemma SwappedBytes(b0: bv8, b1: bv8, b2: bv8, b3: bv8, b4: bv8, b5: bv8, b6: bv8, b7: bv8)
    ensures BigEndian64(FromBytes(b0, b1, b2, b3, b4, b5, b6, b7)) == FromBytes(b7, b6, b5, b4, b3, b2, b1, b0)
  {
  }

  // ---- Swapping mirrors the image ----------------------------------------------------------

  /** The image of a word on a host of the other byte order. */
  function Mirrored(image: string): (r: string)
    ensures |r| == |image|
  {
    seq(|image|, i requires 0 <= i < |image| => image[|image| - 1 - i])
  }

  lemma MirroredTwice(image: string)
    ensures Mirrored(Mirrored(image)) == image
  {
  }

  ghost predicate IsBytes(s: string) {
    forall i | 0 <= i < |s| :: s[i] as int < 256
  }

  lemma CharsOfBytes(s: string)
    requires IsBytes(s)
    ensures forall i | 0 <= i < |s| :: Char(Byte(s[i])) == s[i]
  {
    forall i | 0 <= i < |s| ensures Char(Byte(s[i])) == s[i] { CharOfByte(s[i]); }
  }

  lemma StoredChars(s: string)
    requires |s| == 8 && IsBytes(s)
    ensures Store(Load(s)) == s
  {
    hide Byte, Char, FromBytes, Store;
    StoredBytes(Byte(s[0]), Byte(s[1]), Byte(s[2]), Byte(s[3]), Byte(s[4]), Byte(s[5]), Byte(s[6]), Byte(s[7]));
    CharsOfBytes(s);
  }

  lemma MirroredWord(s: string)
    requires |s| == 8
    ensures Mirrored(s) == [s[7], s[6], s[5], s[4], s[3], s[2], s[1], s[0]]
  {
  }

  lemma SwappedWord(s: string)
    requires |s| == 8
    ensures BigEndian64(Load(s)) == Load([s[7], s[6], s[5], s[4], s[3], s[2], s[1], s[0]])
  {
    hide Byte, FromBytes, BigEndian64;
    SwappedBytes(Byte(s[0]), Byte(s[1]), Byte(s[2]), Byte(s[3]), Byte(s[4]), Byte(s[5]), Byte(s[6]), Byte(s[7]));
  }

  lemma MirroredBytes(s: string)
    requires IsBytes(s)
    ensures IsBytes(Mirrored(s))
  {
  }

  /** Swapped and stored, a word that was loaded from `s` lies in memory backwards. */
  lemma SwapMirrors(s: string)
    requires |s| == 8 && IsBytes(s)
    ensures Store(BigEndian64(Load(s))) == Mirrored(s)
  {
    hide Load, Store, BigEndian64, Mirrored;
    SwappedWord(s);
    MirroredWord(s);
    MirroredBytes(s);
    StoredChars(Mirrored(s));
  }
}
