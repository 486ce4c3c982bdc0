/**
  The 32-bit MurmurHash2 family on bytes, with little-endian 4-byte loads and
  unsigned 32-bit arithmetic. A key is consumed four bytes at a time; the
  reference functions say which words are mixed in which order.
  */
module Murmur {
  type Bytes = seq<bv8>

  const TWO_32: int := 0x1_0000_0000

  /** `h *= m` */
  function Scramble(h: bv32): bv32 {
    h * 0x5bd1e995
  }

  function Xor(g: bv32, h: bv32): bv32 {
    g ^ h
  }

  /** `k ^= k >> r` */
  function Fold24(k: bv32): bv32 {
    k ^ (k >> 24)
  }

  /** `h ^= h >> 13` */
  function Fold13(h: bv32): bv32 {
    h ^ (h >> 13)
  }

  /** `h ^= h >> 15` */
  function Fold15(h: bv32): bv32 {
    h ^ (h >> 15)
  }

  /** The `mmix` / `MIX` macro. */
  function Mix(h: bv32, k: bv32): bv32 {
    Xor(Scramble(h), Scramble(Fold24(Scramble(k))))
  }

  /** `h ^= w; h *= m` */
  function Stir(h: bv32, w: bv32): bv32 {
    Scramble(Xor(h, w))
  }

  /** The last mixing steps. */
  function Final(h: bv32): bv32 {
    Fold15(Scramble(Fold13(h)))
  }

  /** Up to four byte lanes, the first one lowest. */
  function Word(a: bv8, b: bv8, c: bv8, d: bv8): bv32 {
    (a as bv32) | ((b as bv32) << 8) | ((c as bv32) << 16) | ((d as bv32) << 24)
  }

  /** Up to four bytes as a little-endian word. */
  function Pack(s: Bytes): bv32
    requires |s| <= 4
  {
    Word(At(s, 0), At(s, 1), At(s, 2), At(s, 3))
  }

  function At(s: Bytes, i: nat): bv8 {
    if i < |s| then s[i] else 0
  }

  /** `len` as it enters the hash: the low 32 bits. */
  function Length32(n: nat): bv32 {
    (n % TWO_32) as bv32
  }

  // ---- Reference definitions --------------------------------------------------------------

  /** All whole words mixed in. */
  function Absorb(h: bv32, s: Bytes): bv32
    decreases |s|
  {
    if |s| < 4 then h else Absorb(Mix(h, Pack(s[..4])), s[4..])
  }

  /** The bytes behind the last whole word. */
  function Rest(s: Bytes): (r: Bytes)
    ensures |r| < 4
    decreases |s|
  {
    if |s| < 4 then s else Rest(s[4..])
  }

  function Tail(h: bv32, s: Bytes): bv32
    requires |s| < 4
  {
    if s == [] then h else Stir(h, Pack(s))
  }

  function Hash2(key: Bytes, seed: bv32): bv32 {
    Final(Tail(Absorb(Xor(seed, Length32(|key|)), key), Rest(key)))
  }

  function Hash2A(key: Bytes, seed: bv32): bv32 {
    Final(Mix(Mix(Absorb(seed, key), Pack(Rest(key))), Length32(|key|)))
  }

  lemma OneWord(h: bv32, w: Bytes, s: Bytes)
    requires |w| == 4
    ensures Absorb(h, w + s) == Absorb(Mix(h, Pack(w)), s) && Rest(w + s) == Rest(s)
  {
    assert (w + s)[..4] == w && (w + s)[4..] == s;
  }

  /** Absorbing is incremental: what is left over of the first part is put in front of the second. */
  lemma {:induction false} AbsorbAppend(h: bv32, s: Bytes, t: Bytes)
    ensures Absorb(h, s + t) == Absorb(Absorb(h, s), Rest(s) + t)
    ensures Rest(s + t) == Rest(Rest(s) + t)
    decreases |s|
  {
    if |s| >= 4 {
      AbsorbAppend(Mix(h, Pack(s[..4])), s[4..], t);
      OneWord(h, s[..4], s[4..] + t);
      assert s + t == s[..4] + (s[4..] + t);
    }
  }

  // ---- Words assembled from shifted pieces ---------------------------------------------------

  /** `t >> (8 * align)` */
  function ShiftRight(t: bv32, align: nat): bv32
    requires 1 <= align <= 3
  {
    if align == 1 then t >> 8 else if align == 2 then t >> 16 else t >> 24
  }

  /** `t << (8 * align)` */
  function ShiftLeft(t: bv32, align: nat): bv32
    requires 1 <= align <= 3
  {
    if align == 1 then t << 8 else if align == 2 then t << 16 else t << 24
  }

  lemma DropOne(a: bv8, b: bv8, c: bv8, d: bv8)
    ensures Word(a, b, c, d) >> 8 == Word(b, c, d, 0)
  {
  }

  lemma DropTwo(a: bv8, b: bv8, c: bv8, d: bv8)
    ensures Word(a, b, c, d) >> 16 == Word(c, d, 0, 0)
  {
  }

  lemma DropThree(a: bv8, b: bv8, c: bv8, d: bv8)
    ensures Word(a, b, c, d) >> 24 == Word(d, 0, 0, 0)
  {
  }

  /** Dropping the low bytes of a loaded word. */
  lemma DropLow(w: Bytes, align: nat)
    requires |w| == 4 && 1 <= align <= 3
    ensures ShiftRight(Pack(w), align) == Pack(w[align..])
  {
    hide Word;
    assert Pack(w) == Word(w[0], w[1], w[2], w[3]);
    if align == 1 {
      assert Pack(w[align..]) == Word(w[1], w[2], w[3], 0);
      DropOne(w[0], w[1], w[2], w[3]);
    } else if align == 2 {
      assert Pack(w[align..]) == Word(w[2], w[3], 0, 0);
      DropTwo(w[0], w[1], w[2], w[3]);
    } else {
      assert Pack(w[align..]) == Word(w[3], 0, 0, 0);
      DropThree(w[0], w[1], w[2], w[3]);
    }
  }

  lemma AfterOne(a: bv8, b: bv8, c: bv8, d: bv8, e: bv8)
    ensures Word(a, 0, 0, 0) | (Word(b, c, d, e) << 8) == Word(a, b, c, d)
  {
  }

  lemma AfterTwo(a: bv8, b: bv8, c: bv8, d: bv8, e: bv8, f: bv8)
    ensures Word(a, b, 0, 0) | (Word(c, d, e, f) << 16) == Word(a, b, c, d)
  {
  }

  lemma AfterThree(a: bv8, b: bv8, c: bv8, d: bv8, e: bv8, f: bv8, g: bv8)
    ensures Word(a, b, c, 0) | (Word(d, e, f, g) << 24) == Word(a, b, c, d)
  {
  }

  lemma Lanes(x: Bytes, y: Bytes, i: nat)
    ensures At(x + y, i) == if i < |x| then x[i] else At(y, i - |x|)
  {
  }

  /** Bytes carried over and bytes just read, put together by shift and or. */
  lemma JoinBytes(x: Bytes, y: Bytes)
    requires 1 <= |x| <= 3 && |x| + |y| <= 4
    ensures Pack(x) | ShiftLeft(Pack(y), |x|) == Pack(x + y)
  {
    hide Word;
    Lanes(x, y, 0);
    Lanes(x, y, 1);
    Lanes(x, y, 2);
    Lanes(x, y, 3);
    var a, b, c, d := At(y, 0), At(y, 1), At(y, 2), At(y, 3);
    assert Pack(y) == Word(a, b, c, d);
    if |x| == 1 {
      assert Pack(x) == Word(x[0], 0, 0, 0) && Pack(x + y) == Word(x[0], a, b, c);
      AfterOne(x[0], a, b, c, d);
    } else if |x| == 2 {
      assert Pack(x) == Word(x[0], x[1], 0, 0) && Pack(x + y) == Word(x[0], x[1], a, b);
      AfterTwo(x[0], x[1], a, b, c, d);
    } else {
      assert Pack(x) == Word(x[0], x[1], x[2], 0) && Pack(x + y) == Word(x[0], x[1], x[2], a);
      AfterThree(x[0], x[1], x[2], a, b, c, d);
    }
  }
}
