/**
  What the MurmurHash2 functions compute: their values on short keys, and laws
  that hold for all keys and seeds.
  */
module MurmurLaws {
  import opened Murmur

  // ---- Nothing is lost in a step ---------------------------------------------------------------

  /** Multiplication by the inverse of the constant modulo 2^32. */
  function Unscramble(h: bv32): bv32 {
    h * 0xe59b19bd
  }

  lemma InverseConstants(h: bv32)
    ensures (h * 0x5bd1e995) * 0xe59b19bd == h
  {
  }

  lemma UnscrambleIs(x: bv32, h: bv32)
    requires x == h * 0x5bd1e995
    ensures Unscramble(x) == h
  {
    InverseConstants(h);
  }

  lemma ScrambleIs(h: bv32)
    ensures Scramble(h) == h * 0x5bd1e995
  {
  }

  lemma ScrambleUndone(h: bv32)
    ensures Unscramble(Scramble(h)) == h
  {
    hide Scramble, Unscramble;
    ScrambleIs(h);
    UnscrambleIs(Scramble(h), h);
  }

  lemma ScrambleInjective(g: bv32, h: bv32)
    ensures Scramble(g) == Scramble(h) <==> g == h
  {
    hide Scramble, Unscramble;
    ScrambleUndone(g);
    ScrambleUndone(h);
  }

  function Unfold13(x: bv32): bv32 {
    x ^ (x >> 13) ^ (x >> 26)
  }

  function Unfold15(x: bv32): bv32 {
    x ^ (x >> 15) ^ (x >> 30)
  }

  lemma ShiftsUndone(h: bv32)
    ensures var x := h ^ (h >> 13); x ^ (x >> 13) ^ (x >> 26) == h
    ensures var x := h ^ (h >> 15); x ^ (x >> 15) ^ (x >> 30) == h
    ensures var x := h ^ (h >> 24); x ^ (x >> 24) == h
  {
  }

  lemma UnfoldIs(x: bv32, h: bv32)
    ensures x == h ^ (h >> 13) ==> Unfold13(x) == h
    ensures x == h ^ (h >> 15) ==> Unfold15(x) == h
    ensures x == h ^ (h >> 24) ==> Fold24(x) == h
  {
    ShiftsUndone(h);
  }

  lemma FoldsAre(h: bv32)
    ensures Fold13(h) == h ^ (h >> 13) && Fold15(h) == h ^ (h >> 15) && Fold24(h) == h ^ (h >> 24)
  {
  }

  lemma FoldsUndone(h: bv32)
    ensures Unfold13(Fold13(h)) == h && Unfold15(Fold15(h)) == h && Fold24(Fold24(h)) == h
  {
    hide Fold13, Fold15, Fold24, Unfold13, Unfold15;
    FoldsAre(h);
    UnfoldIs(Fold13(h), h);
    UnfoldIs(Fold15(h), h);
    UnfoldIs(Fold24(h), h);
  }

  lemma FoldsInjective(g: bv32, h: bv32)
    ensures Fold13(g) == Fold13(h) <==> g == h
    ensures Fold15(g) == Fold15(h) <==> g == h
    ensures Fold24(g) == Fold24(h) <==> g == h
  {
    hide Fold13, Fold15, Fold24, Unfold13, Unfold15;
    FoldsUndone(g);
    FoldsUndone(h);
  }

  lemma XorCancels(x: bv32, g: bv32, h: bv32)
    ensures Xor(g, x) == Xor(h, x) <==> g == h
    ensures Xor(x, g) == Xor(x, h) <==> g == h
  {
  }

  lemma MixInjective(g: bv32, h: bv32, k: bv32)
    ensures Mix(g, k) == Mix(h, k) <==> g == h
  {
    hide Scramble, Fold24, Xor;
    ScrambleInjective(g, h);
    XorCancels(Scramble(Fold24(Scramble(k))), Scramble(g), Scramble(h));
  }

  lemma MixInjectiveWord(h: bv32, k: bv32, l: bv32)
    ensures Mix(h, k) == Mix(h, l) <==> k == l
  {
    hide Scramble, Fold24, Xor;
    var k1, l1 := Scramble(k), Scramble(l);
    XorCancels(Scramble(h), Scramble(Fold24(k1)), Scramble(Fold24(l1)));
    ScrambleInjective(Fold24(k1), Fold24(l1));
    FoldsInjective(k1, l1);
    ScrambleInjective(k, l);
  }

  lemma FinalInjective(g: bv32, h: bv32)
    ensures Final(g) == Final(h) <==> g == h
  {
    hide Scramble, Fold13, Fold15;
    FoldsInjective(g, h);
    ScrambleInjective(Fold13(g), Fold13(h));
    FoldsInjective(Scramble(Fold13(g)), Scramble(Fold13(h)));
  }

  lemma StirInjective(g: bv32, h: bv32, v: bv32, w: bv32)
    ensures Stir(g, v) == Stir(h, v) <==> g == h
    ensures Stir(h, v) == Stir(h, w) <==> v == w
  {
    hide Scramble, Xor;
    ScrambleInjective(Xor(g, v), Xor(h, v));
    ScrambleInjective(Xor(h, v), Xor(h, w));
    XorCancels(v, g, h);
    XorCancels(h, v, w);
  }

  lemma {:induction false} AbsorbInjective(g: bv32, h: bv32, s: Bytes)
    ensures Absorb(g, s) == Absorb(h, s) <==> g == h
    decreases |s|
  {
    hide Mix, Pack;
    if |s| >= 4 {
      var k := Pack(s[..4]);
      MixInjective(g, h, k);
      AbsorbInjective(Mix(g, k), Mix(h, k), s[4..]);
    }
  }

  lemma TailInjective(g: bv32, h: bv32, s: Bytes)
    requires |s| < 4
    ensures Tail(g, s) == Tail(h, s) <==> g == h
  {
    hide Stir, Pack;
    if s != [] { StirInjective(g, h, Pack(s), 0); }
  }

  // ---- Seeds --------------------------------------------------------------------------------------

  /** For every key, different seeds give different hashes. */
  lemma SeedsNeverCollide(key: Bytes, r: bv32, s: bv32)
    ensures Hash2(key, r) == Hash2(key, s) <==> r == s
  {
    hide Final, Tail, Absorb, Length32, Xor;
    var n, rest := Length32(|key|), Rest(key);
    XorCancels(n, r, s);
    AbsorbInjective(Xor(r, n), Xor(s, n), key);
    TailInjective(Absorb(Xor(r, n), key), Absorb(Xor(s, n), key), rest);
    FinalInjective(Tail(Absorb(Xor(r, n), key), rest), Tail(Absorb(Xor(s, n), key), rest));
  }

  lemma SeedsNeverCollideA(key: Bytes, r: bv32, s: bv32)
    ensures Hash2A(key, r) == Hash2A(key, s) <==> r == s
  {
    hide Final, Mix, Absorb, Length32, Pack;
    var g, h, t, n := Absorb(r, key), Absorb(s, key), Pack(Rest(key)), Length32(|key|);
    AbsorbInjective(r, s, key);
    MixInjective(g, h, t);
    MixInjective(Mix(g, t), Mix(h, t), n);
    FinalInjective(Mix(Mix(g, t), n), Mix(Mix(h, t), n));
  }

  // ---- Keys that differ in one place -----------------------------------------------------------------

  lemma WordInjective(a: bv8, b: bv8, c: bv8, d: bv8, a': bv8, b': bv8, c': bv8, d': bv8)
    ensures Word(a, b, c, d) == Word(a', b', c', d') <==> a == a' && b == b' && c == c' && d == d'
  {
  }

  lemma PackInjective(v: Bytes, w: Bytes)
    requires |v| == |w| <= 4
    ensures Pack(v) == Pack(w) <==> v == w
  {
    hide Word;
    WordInjective(At(v, 0), At(v, 1), At(v, 2), At(v, 3), At(w, 0), At(w, 1), At(w, 2), At(w, 3));
    if Pack(v) == Pack(w) {
      forall i | 0 <= i < |v| ensures v[i] == w[i] { assert v[i] == At(v, i) && w[i] == At(w, i); }
    }
  }

  lemma {:induction false} WholeWords(p: Bytes)
    requires |p| % 4 == 0
    ensures Rest(p) == []
    decreases |p|
  {
    if |p| >= 4 { WholeWords(p[4..]); }
  }

  lemma AbsorbBehind(h: bv32, p: Bytes, x: Bytes)
    requires |p| % 4 == 0
    ensures Absorb(h, p + x) == Absorb(Absorb(h, p), x) && Rest(p + x) == Rest(x)
  {
    WholeWords(p);
    AbsorbAppend(h, p, x);
    assert [] + x == x;
  }

  lemma OneWordAbsorbed(h: bv32, p: Bytes, v: Bytes, q: Bytes)
    requires |p| % 4 == 0 && |v| == 4
    ensures Absorb(h, p + (v + q)) == Absorb(Mix(Absorb(h, p), Pack(v)), q) && Rest(p + (v + q)) == Rest(q)
  {
    AbsorbBehind(h, p, v + q);
    OneWord(Absorb(h, p), v, q);
  }

  /** Keys of one length that differ in one of their words only have different hashes. */
  lemma WordsNeverCollide(p: Bytes, v: Bytes, w: Bytes, q: Bytes, seed: bv32)
    requires |p| % 4 == 0 && |v| == |w| == 4
    ensures Hash2(p + (v + q), seed) == Hash2(p + (w + q), seed) <==> v == w
  {
    hide Final, Tail, Absorb, Mix, Pack, Length32, Rest, Xor;
    var h := Xor(seed, Length32(|p| + 4 + |q|));
    var g := Absorb(h, p);
    var a, b := Mix(g, Pack(v)), Mix(g, Pack(w));
    assert |p + (v + q)| == |p + (w + q)| == |p| + 4 + |q|;
    OneWordAbsorbed(h, p, v, q);
    OneWordAbsorbed(h, p, w, q);
    PackInjective(v, w);
    MixInjectiveWord(g, Pack(v), Pack(w));
    AbsorbInjective(a, b, q);
    TailInjective(Absorb(a, q), Absorb(b, q), Rest(q));
    FinalInjective(Tail(Absorb(a, q), Rest(q)), Tail(Absorb(b, q), Rest(q)));
  }

  lemma ShortRest(x: Bytes)
    requires |x| < 4
    ensures Rest(x) == x && forall h :: Absorb(h, x) == h
  {
  }

  /** So have keys of one length that differ only in the bytes behind their last word. */
  lemma TailsNeverCollide(p: Bytes, x: Bytes, y: Bytes, seed: bv32)
    requires |p| % 4 == 0 && |x| == |y| < 4
    ensures Hash2(p + x, seed) == Hash2(p + y, seed) <==> x == y
  {
    hide Final, Absorb, Stir, Pack, Length32, Rest, Xor;
    var h := Xor(seed, Length32(|p| + |x|));
    var g := Absorb(h, p);
    AbsorbBehind(h, p, x);
    AbsorbBehind(h, p, y);
    ShortRest(x);
    ShortRest(y);
    PackInjective(x, y);
    StirInjective(g, g, Pack(x), Pack(y));
    FinalInjective(Tail(g, x), Tail(g, y));
  }

  /** Two keys of four bytes never collide. */
  lemma FourBytesNeverCollide(v: Bytes, w: Bytes, seed: bv32)
    requires |v| == |w| == 4
    ensures Hash2(v, seed) == Hash2(w, seed) <==> v == w
  {
    hide Hash2;
    WordsNeverCollide([], v, w, [], seed);
    assert [] + (v + []) == v && [] + (w + []) == w;
  }

  // ---- Values ----------------------------------------------------------------------------------------------

  lemma ScrambleValue(h: bv32, r: bv32)
    requires r == h * 0x5bd1e995
    ensures Scramble(h) == r
  {
  }

  lemma FoldValue(h: bv32, r: bv32)
    ensures r == h ^ (h >> 13) ==> Fold13(h) == r
    ensures r == h ^ (h >> 15) ==> Fold15(h) == r
    ensures r == h ^ (h >> 24) ==> Fold24(h) == r
  {
  }

  lemma XorValue(g: bv32, h: bv32, r: bv32)
    requires r == g ^ h
    ensures Xor(g, h) == r
  {
  }

  /** The steps of `mmix`: `k *= m; k ^= k >> r; k *= m; h *= m; h ^= k;` */
  lemma MixValue(h: bv32, k: bv32, k1: bv32, k2: bv32, k3: bv32, h1: bv32, r: bv32)
    requires k1 == k * 0x5bd1e995 && k2 == k1 ^ (k1 >> 24) && k3 == k2 * 0x5bd1e995
    requires h1 == h * 0x5bd1e995 && r == h1 ^ k3
    ensures Mix(h, k) == r
  {
    hide Scramble, Fold24, Xor;
    ScrambleValue(k, k1);
    FoldValue(k1, k2);
    ScrambleValue(k2, k3);
    ScrambleValue(h, h1);
    XorValue(h1, k3, r);
  }

  /** The last steps: `h ^= h >> 13; h *= m; h ^= h >> 15;` */
  lemma FinalValue(h: bv32, h1: bv32, h2: bv32, r: bv32)
    requires h1 == h ^ (h >> 13) && h2 == h1 * 0x5bd1e995 && r == h2 ^ (h2 >> 15)
    ensures Final(h) == r
  {
    hide Scramble, Fold13, Fold15;
    FoldValue(h, h1);
    ScrambleValue(h1, h2);
    FoldValue(h2, r);
  }

  lemma StirValue(h: bv32, w: bv32, x: bv32, r: bv32)
    requires x == h ^ w && r == x * 0x5bd1e995
    ensures Stir(h, w) == r
  {
    hide Scramble, Xor;
    XorValue(h, w, x);
    ScrambleValue(x, r);
  }

  lemma ShortLengths()
    ensures Length32(0) == 0 && Length32(1) == 1 && Length32(2) == 2 && Length32(3) == 3 && Length32(4) == 4
    ensures Length32(5) == 5
  {
  }

  lemma ShortWords()
    ensures Pack([]) == 0x00000000
    ensures Pack([0x61]) == 0x00000061
    ensures Pack([0x61, 0x62]) == 0x00006261
    ensures Pack([0x61, 0x62, 0x63]) == 0x00636261
    ensures Pack([0x61, 0x62, 0x63, 0x64]) == 0x64636261
    ensures Pack([0x65]) == 0x00000065
  {
  }

  lemma FirstWord(h: bv32)
    ensures Absorb(h, [0x61, 0x62, 0x63, 0x64]) == Mix(h, Pack([0x61, 0x62, 0x63, 0x64]))
    ensures Rest([0x61, 0x62, 0x63, 0x64]) == []
    ensures Absorb(h, [0x61, 0x62, 0x63, 0x64, 0x65]) == Mix(h, Pack([0x61, 0x62, 0x63, 0x64]))
    ensures Rest([0x61, 0x62, 0x63, 0x64, 0x65]) == [0x65]
  {
    hide Mix, Pack;
    var w: Bytes := [0x61, 0x62, 0x63, 0x64];
    var last: Bytes := [0x65];
    OneWord(h, w, []);
    OneWord(h, w, last);
    assert w + [] == w && w + last == [0x61, 0x62, 0x63, 0x64, 0x65];
    ShortRest([]);
    ShortRest(last);
  }

  lemma Hash2NoBytes()
    ensures Hash2([], 1) == 0x5bd15e36
  {
    hide Mix, Stir, Final, Pack, Length32, Absorb, Rest, Xor;
    ShortLengths();
    ShortWords();
    ShortRest([]);
    XorValue(1, 0x00000000, 0x00000001);
    FinalValue(0x00000001, 0x00000001, 0x5bd1e995, 0x5bd15e36);
  }

  lemma Hash2OneByte()
    ensures Hash2([0x61], 1) == 0x2550b18c
  {
    hide Mix, Stir, Final, Pack, Length32, Absorb, Rest, Xor;
    ShortLengths();
    ShortWords();
    ShortRest([0x61]);
    XorValue(1, 0x00000001, 0x00000000);
    StirValue(0x00000000, 0x00000061, 0x00000061, 0xca898175);
    FinalValue(0xca898175, 0xca8fd539, 0x2550fb2d, 0x2550b18c);
  }

  lemma Hash2TwoBytes()
    ensures Hash2([0x61, 0x62], 1) == 0x64e150ee
  {
    hide Mix, Stir, Final, Pack, Length32, Absorb, Rest, Xor;
    ShortLengths();
    ShortWords();
    ShortRest([0x61, 0x62]);
    XorValue(1, 0x00000002, 0x00000003);
    StirValue(0x00000003, 0x00006261, 0x00006262, 0x81c6750a);
    FinalValue(0x81c6750a, 0x81c27b39, 0x64e1992d, 0x64e150ee);
  }

  lemma Hash2ThreeBytes()
    ensures Hash2([0x61, 0x62, 0x63], 1) == 0x60a4fcc1
  {
    hide Mix, Stir, Final, Pack, Length32, Absorb, Rest, Xor;
    ShortLengths();
    ShortWords();
    ShortRest([0x61, 0x62, 0x63]);
    XorValue(1, 0x00000003, 0x00000002);
    StirValue(0x00000002, 0x00636261, 0x00636263, 0x32375e9f);
    FinalValue(0x32375e9f, 0x3236cf25, 0x60a43d89, 0x60a4fcc1);
  }

  lemma Hash2FourBytes()
    ensures Hash2([0x61, 0x62, 0x63, 0x64], 1) == 0xc93f7a16
  {
    hide Mix, Stir, Final, Pack, Length32, Absorb, Rest, Xor;
    ShortLengths();
    ShortWords();
    FirstWord(0x00000005);
    XorValue(1, 0x00000004, 0x00000005);
    MixValue(0x00000005, 0x64636261, 0xae938b75, 0xae938bdb, 0xecf5b977, 0xcb198fe9, 0x27ec369e);
    FinalValue(0x27ec369e, 0x27ed09ff, 0xc93ee86b, 0xc93f7a16);
  }

  lemma Hash2FiveBytes()
    ensures Hash2([0x61, 0x62, 0x63, 0x64, 0x65], 1) == 0xcec85d7e
  {
    hide Mix, Stir, Final, Pack, Length32, Absorb, Rest, Xor;
    ShortLengths();
    ShortWords();
    FirstWord(0x00000004);
    XorValue(1, 0x00000005, 0x00000004);
    MixValue(0x00000004, 0x64636261, 0xae938b75, 0xae938bdb, 0xecf5b977, 0x6f47a654, 0x83b21f23);
    StirValue(0x83b21f23, 0x00000065, 0x83b21f46, 0x2f48e9be);
    FinalValue(0x2f48e9be, 0x2f4993f9, 0xcec9c0ed, 0xcec85d7e);
  }

  lemma Hash2ANoBytes()
    ensures Hash2A([], 1) == 0xee23d1b5
  {
    hide Mix, Stir, Final, Pack, Length32, Absorb, Rest, Xor;
    ShortLengths();
    ShortWords();
    ShortRest([]);
    MixValue(0x00000001, 0x00000000, 0x00000000, 0x00000000, 0x00000000, 0x5bd1e995, 0x5bd1e995);
    MixValue(0x5bd1e995, 0x00000000, 0x00000000, 0x00000000, 0x00000000, 0x286a90b9, 0x286a90b9);
    FinalValue(0x286a90b9, 0x286bd3ed, 0xee220df1, 0xee23d1b5);
  }

  lemma Hash2AOneByte()
    ensures Hash2A([0x61], 1) == 0xf8d9ec9f
  {
    hide Mix, Stir, Final, Pack, Length32, Absorb, Rest, Xor;
    ShortLengths();
    ShortWords();
    ShortRest([0x61]);
    MixValue(0x00000001, 0x00000061, 0xca898175, 0xca8981bf, 0xdb0e5b2b, 0x5bd1e995, 0x80dfb2be);
    MixValue(0x80dfb2be, 0x00000001, 0x5bd1e995, 0x5bd1e9ce, 0x9a2792e6, 0x12fff696, 0x88d86470);
    FinalValue(0x88d86470, 0x88dc22b3, 0xf8d81d2f, 0xf8d9ec9f);
  }

  lemma Hash2ATwoBytes()
    ensures Hash2A([0x61, 0x62], 1) == 0x4a6470b5
  {
    hide Mix, Stir, Final, Pack, Length32, Absorb, Rest, Xor;
    ShortLengths();
    ShortWords();
    ShortRest([0x61, 0x62]);
    MixValue(0x00000001, 0x00006261, 0x25f48b75, 0x25f48b50, 0xd670e590, 0x5bd1e995, 0x8da10c05);
    MixValue(0x8da10c05, 0x00000002, 0xb7a3d32a, 0xb7a3d39d, 0x90210f61, 0x99c18be9, 0x09e08488);
    FinalValue(0x09e08488, 0x09e0cb8c, 0x4a64e47c, 0x4a6470b5);
  }

  lemma Hash2AThreeBytes()
    ensures Hash2A([0x61, 0x62, 0x63], 1) == 0x2ba6d08e
  {
    hide Mix, Stir, Final, Pack, Length32, Absorb, Rest, Xor;
    ShortLengths();
    ShortWords();
    ShortRest([0x61, 0x62, 0x63]);
    MixValue(0x00000001, 0x00636261, 0x7a938b75, 0x7a938b0f, 0x7daf96bb, 0x5bd1e995, 0x267e7f2e);
    MixValue(0x267e7f2e, 0x00000003, 0x1375bcbf, 0x1375bcac, 0xa8ab5c1c, 0xb7eee3c6, 0x1f45bfda);
    FinalValue(0x1f45bfda, 0x1f4545f7, 0x2ba687c3, 0x2ba6d08e);
  }

  lemma Hash2AFourBytes()
    ensures Hash2A([0x61, 0x62, 0x63, 0x64], 1) == 0x2c18afd3
  {
    hide Mix, Stir, Final, Pack, Length32, Absorb, Rest, Xor;
    ShortLengths();
    ShortWords();
    FirstWord(0x00000001);
    MixValue(0x00000001, 0x64636261, 0xae938b75, 0xae938bdb, 0xecf5b977, 0x5bd1e995, 0xb72450e2);
    MixValue(0xb72450e2, 0x00000000, 0x00000000, 0x00000000, 0x00000000, 0x0442c58a, 0x0442c58a);
    MixValue(0x0442c58a, 0x00000004, 0x6f47a654, 0x6f47a63b, 0xaa2a7357, 0x94519352, 0x3e7be005);
    FinalValue(0x3e7be005, 0x3e7a13da, 0x2c18f7e2, 0x2c18afd3);
  }

  lemma Hash2AFiveBytes()
    ensures Hash2A([0x61, 0x62, 0x63, 0x64, 0x65], 1) == 0x767cecb7
  {
    hide Mix, Stir, Final, Pack, Length32, Absorb, Rest, Xor;
    ShortLengths();
    ShortWords();
    FirstWord(0x00000001);
    MixValue(0x00000001, 0x64636261, 0xae938b75, 0xae938bdb, 0xecf5b977, 0x5bd1e995, 0xb72450e2);
    MixValue(0xb72450e2, 0x00000065, 0x39d127c9, 0x39d127f0, 0xef05aeb0, 0x0442c58a, 0xeb476b3a);
    MixValue(0xeb476b3a, 0x00000005, 0xcb198fe9, 0xcb198f22, 0x69e840ca, 0x198332c2, 0x706b7208);
    FinalValue(0x706b7208, 0x7068f153, 0x767c004f, 0x767cecb7);
  }
}
