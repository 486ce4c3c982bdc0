/**
  `MurmurHash2A` and its incremental form `CMurmurHash2A`: bytes that do not
  fill a word wait in `tail` until later calls complete it.
  */
module MurmurIncremental {
  import opened Murmur
  import opened MurmurHashes

  lemma XorZero(w: bv32)
    ensures 0 ^ w == w
  {
  }

  /** The falling-through `switch` that xor-s the last bytes into a zero word. */
  method TailWord(data: Bytes) returns (t: bv32)
    requires |data| < 4
    ensures t == Pack(data)
  {
    t := 0;
    if |data| > 0 {
      t := XorTailBytes(t, data);
      XorZero(Pack(data));
    } else {
      NoBytes();
    }
  }

  method MurmurHash2A(key: Bytes, seed: bv32) returns (hash: bv32)
    ensures hash == Hash2A(key, seed)
  {
    var h := seed;
    var data := key;
    while |data| >= 4
      invariant Absorb(h, data) == Absorb(seed, key) && Rest(data) == Rest(key)
    {
      h := Mix(h, Pack(data[..4]));
      data := data[4..];
    }
    var t := TailWord(data);
    h := Mix(h, t);
    h := Mix(h, Length32(|key|));
    hash := Final(h);
  }

  /** One more byte in the lane `count` of a partial word. */
  function PutLane(tail: bv32, b: bv8, count: nat): bv32
    requires count < 4
  {
    if count == 0 then tail | (b as bv32)
    else if count == 1 then tail | ((b as bv32) << 8)
    else if count == 2 then tail | ((b as bv32) << 16)
    else tail | ((b as bv32) << 24)
  }

  lemma PutFirst(b: bv8)
    ensures Word(0, 0, 0, 0) | (b as bv32) == Word(b, 0, 0, 0)
  {
  }

  lemma PutSecond(a: bv8, b: bv8)
    ensures Word(a, 0, 0, 0) | ((b as bv32) << 8) == Word(a, b, 0, 0)
  {
  }

  lemma PutThird(a: bv8, b: bv8, c: bv8)
    ensures Word(a, b, 0, 0) | ((c as bv32) << 16) == Word(a, b, c, 0)
  {
  }

  lemma PutFourth(a: bv8, b: bv8, c: bv8, d: bv8)
    ensures Word(a, b, c, 0) | ((d as bv32) << 24) == Word(a, b, c, d)
  {
  }

  lemma PackLanes(s: Bytes, b: bv8)
    requires |s| < 4
    ensures Pack(s + [b]) == Word(if |s| == 0 then b else At(s, 0), if |s| == 1 then b else At(s, 1),
                                  if |s| == 2 then b else At(s, 2), if |s| == 3 then b else At(s, 3))
  {
    Lanes(s, [b], 0);
    Lanes(s, [b], 1);
    Lanes(s, [b], 2);
    Lanes(s, [b], 3);
  }

  lemma PutLanePacks(s: Bytes, b: bv8)
    requires |s| < 4
    ensures PutLane(Pack(s), b, |s|) == Pack(s + [b])
  {
    PackLanes(s, b);
    if |s| == 0 {
      PutFirst(b);
    } else if |s| == 1 {
      PutSecond(s[0], b);
    } else if |s| == 2 {
      PutThird(s[0], s[1], b);
    } else {
      PutFourth(s[0], s[1], s[2], b);
    }
  }

  lemma ShiftByte(pending: Bytes, data: Bytes)
    requires |data| > 0
    ensures pending + data == (pending + [data[0]]) + data[1..]
  {
  }

  lemma CompleteWord(h: bv32, word: Bytes, data: Bytes)
    requires |word| == 4
    ensures Absorb(h, word + data) == Absorb(Mix(h, Pack(word)), [] + data)
    ensures Rest(word + data) == Rest([] + data)
  {
    OneWord(h, word, data);
    assert [] + data == data;
  }

  class CMurmurHash2A {
    var hash: bv32
    var tail: bv32
    var count: nat
    var size: nat
    ghost var seed: bv32
    ghost var seen: Bytes
    ghost var pending: Bytes

    /** The registers hold `pending`, and `size` counts the bytes modulo 2^32. */
    ghost predicate Registers()
      reads this
    {
      |pending| == count < 4 && tail == Pack(pending) && size < TWO_32
    }

    ghost predicate Valid()
      reads this
    {
      && Registers()
      && hash == Absorb(seed, seen) && pending == Rest(seen) && size == |seen| % TWO_32
    }

    /** `Begin` */
    constructor (seed: bv32)
      ensures Valid() && this.seed == seed && seen == []
    {
      hash, tail, count, size := seed, 0, 0, 0;
      this.seed, seen, pending := seed, [], [];
      new;
      NoBytes();
    }

    method MixTail(data0: Bytes) returns (data: Bytes)
      requires Registers()
      modifies this`hash, this`tail, this`count, this`pending
      ensures Registers()
      ensures Absorb(hash, pending + data) == old(Absorb(hash, pending + data0))
      ensures Rest(pending + data) == old(Rest(pending + data0))
      ensures (data == [] || (|data| >= 4 && count == 0)) && |data| <= |data0|
    {
      data := data0;
      while |data| != 0 && (|data| < 4 || count != 0)
        invariant Registers()
        invariant Absorb(hash, pending + data) == old(Absorb(hash, pending + data0))
        invariant Rest(pending + data) == old(Rest(pending + data0)) && |data| <= |data0|
        decreases |data|
      {
        ShiftByte(pending, data);
        PutLanePacks(pending, data[0]);
        tail := PutLane(tail, data[0], count);
        pending := pending + [data[0]];
        count := count + 1;
        data := data[1..];
        if count == 4 {
          CompleteWord(hash, pending, data);
          hash := Mix(hash, tail);
          NoBytes();
          tail, count, pending := 0, 0, [];
        }
      }
    }

    /** The loop over whole words in the middle of a piece. */
    method MixWords(data0: Bytes) returns (data: Bytes)
      requires Registers() && (data0 == [] || count == 0)
      modifies this`hash
      ensures Registers() && |data| < 4
      ensures Absorb(hash, pending + data) == old(Absorb(hash, pending + data0))
      ensures Rest(pending + data) == old(Rest(pending + data0))
    {
      data := data0;
      while |data| >= 4
        invariant data == [] || count == 0
        invariant Absorb(hash, pending + data) == old(Absorb(hash, pending + data0))
        invariant Rest(pending + data) == old(Rest(pending + data0))
        decreases |data|
      {
        assert pending + data == data[..4] + data[4..];
        CompleteWord(hash, data[..4], data[4..]);
        assert pending + data[4..] == [] + data[4..];
        hash := Mix(hash, Pack(data[..4]));
        data := data[4..];
      }
    }

    method Add(piece: Bytes)
      requires Valid()
      modifies this
      ensures Valid() && seed == old(seed) && seen == old(seen) + piece
    {
      AbsorbAppend(seed, seen, piece);
      AddLengths(|seen|, |piece|);
      size := (size + |piece|) % TWO_32;
      var data := MixTail(piece);
      data := MixWords(data);
      data := MixTail(data);
      NoMoreBytes(hash, pending, data);
      seen := seen + piece;
    }

    method End() returns (result: bv32)
      requires Valid()
      modifies this`hash
      ensures result == Hash2A(seen, seed)
    {
      hash := Mix(hash, tail);
      hash := Mix(hash, Length32(size));
      hash := Final(hash);
      result := hash;
    }
  }

  lemma AddLengths(m: nat, n: nat)
    ensures (m % TWO_32 + n) % TWO_32 == (m + n) % TWO_32
  {
  }

  lemma NoBytes()
    ensures Pack([]) == 0
  {
  }

  lemma NoMoreBytes(h: bv32, pending: Bytes, data: Bytes)
    requires |pending| < 4 && data == []
    ensures Absorb(h, pending + data) == h && Rest(pending + data) == pending
  {
    assert pending + data == pending;
  }

  function Flatten(pieces: seq<Bytes>): Bytes {
    if pieces == [] then [] else Flatten(pieces[..|pieces| - 1]) + pieces[|pieces| - 1]
  }

  /** However the input is cut into pieces, the incremental hash is the hash of the whole. */
  method HashPieces(pieces: seq<Bytes>, seed: bv32) returns (result: bv32)
    ensures result == Hash2A(Flatten(pieces), seed)
  {
    var hasher := new CMurmurHash2A(seed);
    for i := 0 to |pieces|
      invariant hasher.Valid() && fresh(hasher) && hasher.seed == seed && hasher.seen == Flatten(pieces[..i])
    {
      hasher.Add(pieces[i]);
      assert pieces[..i + 1][..i] == pieces[..i];
    }
    assert pieces[..|pieces|] == pieces;
    result := hasher.End();
  }
}
