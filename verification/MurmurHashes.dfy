/**
  The loops of MurmurHash2.cpp: the plain, byte-wise and realigning hashes,
  each proved equal to a reference definition of `Murmur`.
  */
module MurmurHashes {
  import opened Murmur

  lemma XorOne(h: bv32, a: bv8)
    ensures h ^ (a as bv32) == h ^ Word(a, 0, 0, 0)
  {
  }

  lemma XorTwo(h: bv32, a: bv8, b: bv8)
    ensures (h ^ ((b as bv32) << 8)) ^ (a as bv32) == h ^ Word(a, b, 0, 0)
  {
  }

  lemma XorThree(h: bv32, a: bv8, b: bv8, c: bv8)
    ensures ((h ^ ((c as bv32) << 16)) ^ ((b as bv32) << 8)) ^ (a as bv32) == h ^ Word(a, b, c, 0)
  {
  }

  /** The falling-through `switch` on the last bytes, up to the multiplication. */
  method XorTailBytes(h0: bv32, data: Bytes) returns (h: bv32)
    requires 0 < |data| < 4
    ensures h == h0 ^ Pack(data)
  {
    if |data| == 1 {
      XorOne(h0, data[0]);
      h := h0 ^ (data[0] as bv32);
      assert Pack(data) == Word(data[0], 0, 0, 0);
    } else if |data| == 2 {
      XorTwo(h0, data[0], data[1]);
      h := h0 ^ ((data[1] as bv32) << 8);
      h := h ^ (data[0] as bv32);
      assert Pack(data) == Word(data[0], data[1], 0, 0);
    } else {
      XorThree(h0, data[0], data[1], data[2]);
      h := h0 ^ ((data[2] as bv32) << 16);
      h := h ^ ((data[1] as bv32) << 8);
      h := h ^ (data[0] as bv32);
      assert Pack(data) == Word(data[0], data[1], data[2], 0);
    }
  }

  lemma StirIs(h: bv32, w: bv32, x: bv32)
    requires x == h ^ w
    ensures Scramble(x) == Stir(h, w)
  {
  }

  method MixTailBytes(h0: bv32, data: Bytes) returns (h: bv32)
    requires |data| < 4
    ensures h == Tail(h0, data)
  {
    if |data| == 0 {
      return h0;
    }
    h := XorTailBytes(h0, data);
    StirIs(h0, Pack(data), h);
    h := Scramble(h);
  }

  method MurmurHash2(key: Bytes, seed: bv32) returns (hash: bv32)
    ensures hash == Hash2(key, seed)
  {
    var h := HashWords(seed ^ Length32(|key|), key);
    hash := Final(h);
  }

  /** The word put together from single bytes. */
  lemma BytesMakeWord(a: bv8, b: bv8, c: bv8, d: bv8)
    ensures (((a as bv32) | ((b as bv32) << 8)) | ((c as bv32) << 16)) | ((d as bv32) << 24) == Word(a, b, c, d)
  {
  }

  method MurmurHashNeutral2(key: Bytes, seed: bv32) returns (hash: bv32)
    ensures hash == Hash2(key, seed)
  {
    var h := seed ^ Length32(|key|);
    var data := key;
    while |data| >= 4
      invariant Absorb(h, data) == Absorb(seed ^ Length32(|key|), key) && Rest(data) == Rest(key)
    {
      var k := data[0] as bv32;
      k := k | ((data[1] as bv32) << 8);
      k := k | ((data[2] as bv32) << 16);
      k := k | ((data[3] as bv32) << 24);
      BytesMakeWord(data[0], data[1], data[2], data[3]);
      assert k == Pack(data[..4]);
      h := Mix(h, k);
      data := data[4..];
    }
    h := MixTailBytes(h, data);
    hash := Final(h);
  }

  lemma OrOne(a: bv8)
    ensures (0 as bv32) | (a as bv32) == Word(a, 0, 0, 0)
  {
  }

  lemma OrTwo(a: bv8, b: bv8)
    ensures (0 | ((b as bv32) << 8)) | (a as bv32) == Word(a, b, 0, 0)
  {
  }

  lemma OrThree(a: bv8, b: bv8, c: bv8)
    ensures ((0 | ((c as bv32) << 16)) | ((b as bv32) << 8)) | (a as bv32) == Word(a, b, c, 0)
  {
  }

  /** The falling-through `switch` that or-s up to three bytes together. */
  method LoadBytes(s: Bytes) returns (d: bv32)
    requires |s| <= 3
    ensures d == Pack(s)
  {
    d := 0;
    if |s| == 3 {
      OrThree(s[0], s[1], s[2]);
      d := d | ((s[2] as bv32) << 16);
      d := d | ((s[1] as bv32) << 8);
      d := d | (s[0] as bv32);
      assert Pack(s) == Word(s[0], s[1], s[2], 0);
    } else if |s| == 2 {
      OrTwo(s[0], s[1]);
      d := d | ((s[1] as bv32) << 8);
      d := d | (s[0] as bv32);
      assert Pack(s) == Word(s[0], s[1], 0, 0);
    } else if |s| == 1 {
      OrOne(s[0]);
      d := d | (s[0] as bv32);
      assert Pack(s) == Word(s[0], 0, 0, 0);
    } else {
      assert Pack(s) == Word(0, 0, 0, 0);
    }
  }

  /** `(t >> sr) | (d << sl)` */
  function Combine(t: bv32, d: bv32, align: nat): bv32
    requires 1 <= align <= 3
  {
    ShiftRight(t, align) | ShiftLeft(d, 4 - align)
  }

  /** Moving the first word out of `carry + data`. */
  lemma TakeWord(h: bv32, carry: Bytes, data: Bytes, align: nat)
    requires 1 <= align <= 3 && |carry| == 4 - align && |data| >= align
    ensures Absorb(h, carry + data) == Absorb(Mix(h, Pack(carry + data[..align])), data[align..])
    ensures Rest(carry + data) == Rest(data[align..])
  {
    OneWord(h, carry + data[..align], data[align..]);
    assert carry + data == (carry + data[..align]) + data[align..];
  }

  /** The pre-loaded register: its upper lanes hold the bytes up to the first aligned address. */
  lemma PreLoaded(s: Bytes, align: nat)
    requires 1 <= align <= 3 && |s| == 4 - align
    ensures ShiftRight(ShiftLeft(Pack(s), align), align) == Pack(s)
  {
    hide Word;
    if align == 1 {
      assert Pack(s) == Word(s[0], s[1], s[2], 0);
      UpDownOne(s[0], s[1], s[2]);
    } else if align == 2 {
      assert Pack(s) == Word(s[0], s[1], 0, 0);
      UpDownTwo(s[0], s[1]);
    } else {
      assert Pack(s) == Word(s[0], 0, 0, 0);
      UpDownThree(s[0]);
    }
  }

  lemma UpDownOne(a: bv8, b: bv8, c: bv8)
    ensures (Word(a, b, c, 0) << 8) >> 8 == Word(a, b, c, 0)
  {
  }

  lemma UpDownTwo(a: bv8, b: bv8)
    ensures (Word(a, b, 0, 0) << 16) >> 16 == Word(a, b, 0, 0)
  {
  }

  lemma UpDownThree(a: bv8)
    ensures (Word(a, 0, 0, 0) << 24) >> 24 == Word(a, 0, 0, 0)
  {
  }

  /** The loop and tail shared by the plain and the aligned case. */
  method HashWords(h0: bv32, key: Bytes) returns (h: bv32)
    ensures h == Tail(Absorb(h0, key), Rest(key))
  {
    h := h0;
    var data := key;
    while |data| >= 4
      invariant Absorb(h, data) == Absorb(h0, key) && Rest(data) == Rest(key)
    {
      h := Mix(h, Pack(data[..4]));
      data := data[4..];
    }
    h := MixTailBytes(h, data);
  }

  /** The realigning loop. */
  method HashShifted(h0: bv32, key: Bytes, align: nat) returns (h: bv32)
    requires 1 <= align <= 3 && |key| >= 4
    ensures h == Tail(Absorb(h0, key), Rest(key))
  {
    ghost var carry := key[..4 - align];
    var t := LoadBytes(key[..4 - align]);
    PreLoaded(carry, align);
    t := ShiftLeft(t, align);
    var data := key[4 - align..];
    h := h0;
    assert carry + data == key;
    while |data| >= 4
      invariant |carry| == 4 - align && ShiftRight(t, align) == Pack(carry)
      invariant Absorb(h, carry + data) == Absorb(h0, key) && Rest(carry + data) == Rest(key)
    {
      h, t, carry := NextWord(h, t, Pack(data[..4]), align, carry, data);
      data := data[4..];
    }
    h := LeftOver(h, t, align, carry, data);
  }

  /**
    `MurmurHashAligned2`: only aligned words are loaded; each hashed word is
    put together from two of them. `align` is the key's address modulo four.
    */
  method MurmurHashAligned2(key: Bytes, seed: bv32, align: nat) returns (hash: bv32)
    requires align < 4
    ensures hash == Hash2(key, seed)
  {
    var h := seed ^ Length32(|key|);
    if align != 0 && |key| >= 4 {
      h := HashShifted(h, key, align);
    } else {
      h := HashWords(h, key);
    }
    hash := Final(h);
  }

  /** One turn of the realigning loop. */
  method NextWord(h: bv32, t: bv32, d: bv32, align: nat, ghost carry: Bytes, ghost data: Bytes)
    returns (h': bv32, t': bv32, ghost carry': Bytes)
    requires 1 <= align <= 3 && |carry| == 4 - align && ShiftRight(t, align) == Pack(carry)
    requires |data| >= 4 && d == Pack(data[..4])
    ensures |carry'| == 4 - align && ShiftRight(t', align) == Pack(carry')
    ensures Absorb(h', carry' + data[4..]) == Absorb(h, carry + data)
    ensures Rest(carry' + data[4..]) == Rest(carry + data)
  {
    hide Word, Pack, ShiftRight, ShiftLeft, Absorb, Mix, Rest;
    carry' := data[..4][align..];
    JoinLoaded(carry, data[..4], align);
    TakeWord(h, carry, data, align);
    DropLow(data[..4], align);
    assert data[align..] == carry' + data[4..];
    assert data[..4][..align] == data[..align];
    h' := Mix(h, Combine(t, d, align));
    t' := d;
  }

  /** The low lanes of a freshly loaded word complete the carried bytes. */
  lemma JoinLoaded(carry: Bytes, w: Bytes, align: nat)
    requires 1 <= align <= 3 && |carry| == 4 - align && |w| == 4
    ensures Pack(carry) | ShiftLeft(Pack(w), 4 - align) == Pack(carry + w[..align])
  {
    hide Word;
    Lanes(carry, w[..align], 0);
    Lanes(carry, w[..align], 1);
    Lanes(carry, w[..align], 2);
    Lanes(carry, w[..align], 3);
    assert Pack(w) == Word(w[0], w[1], w[2], w[3]);
    if align == 3 {
      assert Pack(carry) == Word(carry[0], 0, 0, 0) && Pack(carry + w[..3]) == Word(carry[0], w[0], w[1], w[2]);
      AfterOne(carry[0], w[0], w[1], w[2], w[3]);
    } else if align == 2 {
      assert Pack(carry) == Word(carry[0], carry[1], 0, 0) && Pack(carry + w[..2]) == Word(carry[0], carry[1], w[0], w[1]);
      AfterTwo(carry[0], carry[1], w[0], w[1], w[2], w[3]);
    } else {
      assert Pack(carry) == Word(carry[0], carry[1], carry[2], 0) && Pack(carry + w[..1]) == Word(carry[0], carry[1], carry[2], w[0]);
      AfterThree(carry[0], carry[1], carry[2], w[0], w[1], w[2], w[3]);
    }
  }

  lemma CombineBytes(t: bv32, align: nat, carry: Bytes, y: Bytes)
    requires 1 <= align <= 3 && |carry| == 4 - align && |y| <= align && ShiftRight(t, align) == Pack(carry)
    ensures Combine(t, Pack(y), align) == Pack(carry + y)
  {
    JoinBytes(carry, y);
  }

  /** The registers and the next bytes make up one more word. */
  method LastWord(h0: bv32, t: bv32, align: nat, ghost carry: Bytes, data: Bytes) returns (h: bv32)
    requires 1 <= align <= 3 && |carry| == 4 - align && ShiftRight(t, align) == Pack(carry)
    requires align <= |data| < 4
    ensures h == Tail(Absorb(h0, carry + data), Rest(carry + data))
  {
    TakeWord(h0, carry, data, align);
    CombineBytes(t, align, carry, data[..align]);
    var d := LoadBytes(data[..align]);
    h := Mix(h0, Combine(t, d, align));
    h := MixTailBytes(h, data[align..]);
  }

  /** The registers and the remaining bytes do not fill a word. */
  method LastBytes(h0: bv32, t: bv32, align: nat, ghost carry: Bytes, data: Bytes) returns (h: bv32)
    requires 1 <= align <= 3 && |carry| == 4 - align && ShiftRight(t, align) == Pack(carry)
    requires |data| < align
    ensures h == Tail(Absorb(h0, carry + data), Rest(carry + data))
  {
    var d := LoadBytes(data);
    var k := Combine(t, d, align);
    assert k == Pack(carry + data) by { CombineBytes(t, align, carry, data); }
    ShortTail(h0, carry + data);
    h := Stir(h0, k);
  }

  lemma ShortTail(h: bv32, s: Bytes)
    requires 0 < |s| < 4
    ensures Absorb(h, s) == h && Rest(s) == s && Tail(h, s) == Stir(h, Pack(s))
  {
  }

  /** The bytes left in the registers and behind the last aligned word. */
  method LeftOver(h0: bv32, t: bv32, align: nat, ghost carry: Bytes, data: Bytes) returns (h: bv32)
    requires 1 <= align <= 3 && |carry| == 4 - align && ShiftRight(t, align) == Pack(carry)
    requires |data| < 4
    ensures h == Tail(Absorb(h0, carry + data), Rest(carry + data))
  {
    if |data| >= align {
      h := LastWord(h0, t, align, carry, data);
    } else {
      h := LastBytes(h0, t, align, carry, data);
    }
  }
}
