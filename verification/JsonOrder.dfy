/** The comparison operators of `Json::Value`. */
module JsonOrder {
  import ByteOrder
  import opened JsonValue

  /** The order of the enumerators of `ValueType`. */
  function TypeRank(v: Value): nat {
    match v
    case Null => 0
    case Int(_) => 1
    case UInt(_) => 2
    case Real(_) => 3
    case Str(_) => 4
    case Bool(_) => 5
    case Arr(_) => 6
    case Obj(_) => 7
  }

  /** `operator<`: by type, then containers by size, then entry by entry. */
  predicate Less(v: Value, w: Value)
    decreases Size(v) + Size(w), 0
  {
    match (v, w)
    case (Int(a), Int(b)) => a < b
    case (UInt(a), UInt(b)) => a < b
    case (Real(a), Real(b)) => a < b
    case (Str(a), Str(b)) => ByteOrder.Less(a, b)
    case (Bool(a), Bool(b)) => !a && b
    case (Arr(e), Arr(f)) => if Count(e) != Count(f) then Count(e) < Count(f) else MapLess(e, f)
    case (Obj(e), Obj(f)) => if Count(e) != Count(f) then Count(e) < Count(f) else MapLess(e, f)
    case _ => TypeRank(v) < TypeRank(w)
  }

  /** The lexicographic comparison of two `std::map`s. */
  predicate MapLess(e: Entries, f: Entries)
    decreases EntriesSize(e) + EntriesSize(f), 1
  {
    f.Entry? && (e.Empty? || PairLess(e, f) || (!PairLess(f, e) && MapLess(e.rest, f.rest)))
  }

  /** `operator<` of the first pairs of two non-empty maps. */
  predicate PairLess(e: Entries, f: Entries)
    requires e.Entry? && f.Entry?
    decreases EntriesSize(e) + EntriesSize(f), 0
  {
    KeyLess(e.key, f.key) || (!KeyLess(f.key, e.key) && Less(e.value, f.value))
  }

  /** `operator==` */
  predicate Same(v: Value, w: Value) {
    match (v, w)
    case (Null, Null) => true
    case (Int(a), Int(b)) => a == b
    case (UInt(a), UInt(b)) => a == b
    case (Real(a), Real(b)) => a == b
    case (Str(a), Str(b)) => !ByteOrder.Less(a, b) && !ByteOrder.Less(b, a)
    case (Bool(a), Bool(b)) => a == b
    case (Arr(e), Arr(f)) => Count(e) == Count(f) && MapSame(e, f)
    case (Obj(e), Obj(f)) => Count(e) == Count(f) && MapSame(e, f)
    case _ => false
  }

  predicate MapSame(e: Entries, f: Entries) {
    if e.Empty? || f.Empty? then e.Empty? && f.Empty?
    else !KeyLess(e.key, f.key) && !KeyLess(f.key, e.key) && Same(e.value, f.value) && MapSame(e.rest, f.rest)
  }

  /** `compare` */
  function Compare(v: Value, w: Value): int {
    if Less(v, w) then -1 else if Less(w, v) then 1 else 0
  }

  // ---- Strict total order ------------------------------------------------------------------------

  lemma {:induction false} Irreflexive(v: Value)
    ensures !Less(v, v)
    decreases v, 1
  {
    match v
    case Str(s) => ByteOrder.Irreflexive(s);
    case Arr(e) => MapIrreflexive(e);
    case Obj(e) => MapIrreflexive(e);
    case _ =>
  }

  lemma {:induction false} MapIrreflexive(e: Entries)
    ensures !MapLess(e, e)
    decreases e, 0
  {
    if e.Entry? {
      KeyOrder(e.key, e.key);
      Irreflexive(e.value);
      MapIrreflexive(e.rest);
    }
  }

  lemma {:induction false} Total(v: Value, w: Value)
    ensures Less(v, w) || v == w || Less(w, v)
    decreases v, 1
  {
    match (v, w)
    case (Str(a), Str(b)) => ByteOrder.Trichotomy(a, b);
    case (Arr(e), Arr(f)) => if Count(e) == Count(f) { MapTotal(e, f); }
    case (Obj(e), Obj(f)) => if Count(e) == Count(f) { MapTotal(e, f); }
    case _ =>
  }

  lemma {:induction false} MapTotal(e: Entries, f: Entries)
    ensures MapLess(e, f) || e == f || MapLess(f, e)
    decreases e, 0
  {
    if e.Entry? && f.Entry? {
      KeyOrder(e.key, f.key);
      Total(e.value, f.value);
      MapTotal(e.rest, f.rest);
    }
  }

  lemma {:induction false} Transitive(u: Value, v: Value, w: Value)
    requires Less(u, v) && Less(v, w)
    ensures Less(u, w)
    decreases u, 1
  {
    match (u, v, w)
    case (Str(a), Str(b), Str(c)) => ByteOrder.Transitive(a, b, c);
    case (Arr(e), Arr(f), Arr(g)) => if Count(e) == Count(f) == Count(g) { MapTransitive(e, f, g); }
    case (Obj(e), Obj(f), Obj(g)) => if Count(e) == Count(f) == Count(g) { MapTransitive(e, f, g); }
    case _ =>
  }

  lemma {:induction false} PairTransitive(e: Entries, f: Entries, g: Entries)
    requires e.Entry? && f.Entry? && g.Entry? && PairLess(e, f) && PairLess(f, g)
    ensures PairLess(e, g)
    decreases e, 0
  {
    KeyOrder(e.key, f.key);
    KeyOrder(f.key, g.key);
    if KeyLess(e.key, f.key) && KeyLess(f.key, g.key) {
      KeyTransitive(e.key, f.key, g.key);
    } else if e.key == f.key == g.key {
      Transitive(e.value, f.value, g.value);
    }
  }

  /** Two first pairs are comparable or equal. */
  lemma PairTotal(e: Entries, f: Entries)
    requires e.Entry? && f.Entry?
    ensures PairLess(e, f) || (e.key == f.key && e.value == f.value) || PairLess(f, e)
    ensures !PairLess(e, e)
  {
    KeyOrder(e.key, f.key);
    Total(e.value, f.value);
    Irreflexive(e.value);
  }

  lemma {:induction false} MapTransitive(e: Entries, f: Entries, g: Entries)
    requires MapLess(e, f) && MapLess(f, g)
    ensures MapLess(e, g)
    decreases e, 1
  {
    if e.Entry? {
      PairTotal(e, f);
      PairTotal(f, g);
      if PairLess(e, f) {
        if PairLess(f, g) { PairTransitive(e, f, g); }
      } else if !PairLess(f, g) {
        MapTransitive(e.rest, f.rest, g.rest);
      }
    }
  }

  /** Of any two values exactly one is smaller, or they are equal. */
  lemma ExactlyOne(v: Value, w: Value)
    ensures (if Less(v, w) then 1 else 0) + (if v == w then 1 else 0) + (if Less(w, v) then 1 else 0) == 1
  {
    Total(v, w);
    Irreflexive(v);
    if Less(v, w) && Less(w, v) { Transitive(v, w, v); }
  }

  lemma {:induction false} SameIsEqual(v: Value, w: Value)
    ensures Same(v, w) <==> v == w
    decreases v, 1
  {
    match (v, w)
    case (Str(a), Str(b)) =>
      ByteOrder.Trichotomy(a, b);
      ByteOrder.Irreflexive(a);
    case (Arr(e), Arr(f)) => MapSameIsEqual(e, f);
    case (Obj(e), Obj(f)) => MapSameIsEqual(e, f);
    case _ =>
  }

  lemma {:induction false} MapSameIsEqual(e: Entries, f: Entries)
    ensures MapSame(e, f) <==> e == f
    decreases e, 0
  {
    if e.Entry? && f.Entry? {
      KeyOrder(e.key, f.key);
      SameIsEqual(e.value, f.value);
      MapSameIsEqual(e.rest, f.rest);
    }
  }

  /** `compare` answers 0 exactly when `operator==` holds, and otherwise the sign of `operator<`. */
  lemma CompareIsSign(v: Value, w: Value)
    ensures Compare(v, w) == 0 <==> Same(v, w)
    ensures Compare(v, w) == 0 - Compare(w, v)
    ensures Compare(v, w) < 0 <==> Less(v, w)
  {
    ExactlyOne(v, w);
    SameIsEqual(v, w);
  }

  // ---- What the order is --------------------------------------------------------------------------

  /** The types in their order, and scalars of one type by value. */
  lemma ScalarsInOrder(i: int, j: int, m: nat, n: nat, x: real, y: real, s: string, t: string, e: Entries, f: Entries)
    ensures Less(Null, Int(i)) && Less(Int(i), UInt(n)) && Less(UInt(n), Real(x)) && Less(Real(x), Str(s))
    ensures Less(Str(s), Bool(false)) && Less(Bool(false), Bool(true)) && Less(Bool(true), Arr(e)) && Less(Arr(e), Obj(f))
    ensures (Less(Int(i), Int(j)) <==> i < j) && (Less(UInt(m), UInt(n)) <==> m < n)
    ensures (Less(Real(x), Real(y)) <==> x < y)
    ensures Less(Str(s), Str(t)) <==> exists k: nat :: ByteOrder.SmallerAt(s, t, k)
  {
    ByteOrder.LessIff(s, t);
  }

  function EntryAt(e: Entries, n: nat): Entries
    requires n < Count(e)
    ensures EntryAt(e, n).Entry?
  {
    if n == 0 then e else EntryAt(e.rest, n - 1)
  }

  /** The entries number `n` have the same key and value. */
  predicate AgreeAt(e: Entries, f: Entries, n: nat)
    requires n < Count(e) && n < Count(f)
  {
    EntryAt(e, n).key == EntryAt(f, n).key && EntryAt(e, n).value == EntryAt(f, n).value
  }

  /** Up to number `n` they agree, and there `e` has the smaller key, or the same key and the smaller value. */
  predicate SmallerAt(e: Entries, f: Entries, n: nat)
    requires Count(e) == Count(f)
  {
    && n < Count(e)
    && (forall i | 0 <= i < n :: AgreeAt(e, f, i))
    && (|| KeyLess(EntryAt(e, n).key, EntryAt(f, n).key)
        || (EntryAt(e, n).key == EntryAt(f, n).key && Less(EntryAt(e, n).value, EntryAt(f, n).value)))
  }

  lemma SmallerFirst(e: Entries, f: Entries)
    requires e.Entry? && f.Entry? && Count(e) == Count(f)
    ensures SmallerAt(e, f, 0) <==> PairLess(e, f)
  {
    KeyOrder(e.key, f.key);
    if KeyLess(e.key, f.key) && KeyLess(f.key, e.key) { KeyTransitive(e.key, f.key, e.key); }
  }

  lemma SmallerNext(e: Entries, f: Entries, n: nat)
    requires e.Entry? && f.Entry? && Count(e) == Count(f)
    ensures SmallerAt(e, f, n + 1) <==> AgreeAt(e, f, 0) && SmallerAt(e.rest, f.rest, n)
  {
    forall i: nat | i < Count(e.rest) ensures AgreeAt(e, f, i + 1) <==> AgreeAt(e.rest, f.rest, i) {
    }
    if AgreeAt(e, f, 0) && SmallerAt(e.rest, f.rest, n) {
      forall i: nat | i < n + 1 ensures AgreeAt(e, f, i) {
        if i > 0 { assert AgreeAt(e.rest, f.rest, i - 1); }
      }
    }
    if SmallerAt(e, f, n + 1) {
      forall i: nat | i < n ensures AgreeAt(e.rest, f.rest, i) { assert AgreeAt(e, f, i + 1); }
    }
  }

  lemma {:induction false} MapLessIff(e: Entries, f: Entries)
    requires Count(e) == Count(f)
    ensures MapLess(e, f) <==> exists n: nat :: SmallerAt(e, f, n)
    decreases e
  {
    hide SmallerAt, PairLess;
    if e.Entry? {
      SmallerFirst(e, f);
      PairTotal(e, f);
      PairTotal(f, e);
      MapLessIff(e.rest, f.rest);
      if exists n: nat :: SmallerAt(e, f, n) {
        var n: nat :| SmallerAt(e, f, n);
        if n > 0 { SmallerNext(e, f, n - 1); SameFirst(e, f); }
      }
      if !PairLess(e, f) && !PairLess(f, e) && (exists n: nat :: SmallerAt(e.rest, f.rest, n)) {
        var n: nat :| SmallerAt(e.rest, f.rest, n);
        SmallerNext(e, f, n);
      }
    } else {
      NoneSmaller(e, f);
    }
  }

  lemma SameFirst(e: Entries, f: Entries)
    requires e.Entry? && f.Entry? && AgreeAt(e, f, 0)
    ensures !PairLess(e, f) && !PairLess(f, e)
  {
    KeyOrder(e.key, e.key);
    Irreflexive(e.value);
  }

  lemma NoneSmaller(e: Entries, f: Entries)
    requires e.Empty? && f.Empty?
    ensures forall n: nat :: !SmallerAt(e, f, n)
  {
  }

  lemma ContainersByMap(e: Entries, f: Entries)
    ensures Less(Arr(e), Arr(f)) <==> Less(Obj(e), Obj(f))
    ensures Less(Arr(e), Arr(f)) <==> Count(e) < Count(f) || (Count(e) == Count(f) && MapLess(e, f))
  {
    hide MapLess, Count;
  }

  /** Containers of one type are ordered by size, and those of one size at their first difference. */
  lemma ContainersInOrder(e: Entries, f: Entries)
    ensures Less(Arr(e), Arr(f)) <==> Less(Obj(e), Obj(f))
    ensures Count(e) != Count(f) ==> (Less(Arr(e), Arr(f)) <==> Count(e) < Count(f))
    ensures Count(e) == Count(f) ==> (Less(Arr(e), Arr(f)) <==> exists n: nat :: SmallerAt(e, f, n))
  {
    hide SmallerAt;
    ContainersByMap(e, f);
    if Count(e) == Count(f) { MapLessIff(e, f); }
  }
}
