/**
  `Json::Value`: scalars, and containers kept as one ordered list of keyed
  entries, whose keys are array indices or member names.
  */
module JsonValue {
  import ByteOrder

  /** `CZString` */
  datatype Key = Index(index: nat) | Name(name: string)

  datatype Value =
    | Null
    | Int(int_: int)
    | UInt(uint: nat)
    | Real(real_: real)
    | Str(text: string)
    | Bool(bool_: bool)
    | Arr(entries: Entries)
    | Obj(entries: Entries)

  datatype Entries = Empty | Entry(key: Key, value: Value, rest: Entries)

  /** Names are compared bytewise, indices as numbers; a container holds keys of one kind. */
  predicate KeyLess(a: Key, b: Key) {
    match (a, b)
    case (Index(i), Index(j)) => i < j
    case (Name(s), Name(t)) => ByteOrder.Less(s, t)
    case _ => a.Index? && b.Name?
  }

  function Count(e: Entries): nat {
    if e.Empty? then 0 else 1 + Count(e.rest)
  }

  /** How many values and entries a value is made of. */
  ghost function Size(v: Value): nat {
    match v
    case Arr(e) => 1 + EntriesSize(e)
    case Obj(e) => 1 + EntriesSize(e)
    case _ => 1
  }

  ghost function EntriesSize(e: Entries): nat {
    if e.Empty? then 0 else 1 + Size(e.value) + EntriesSize(e.rest)
  }

  /** `operator[]`: the value under a key, null if there is none. */
  function Get(e: Entries, k: Key): Value {
    if e.Empty? then Null else if e.key == k then e.value else Get(e.rest, k)
  }

  predicate Has(e: Entries, k: Key) {
    e.Entry? && (e.key == k || Has(e.rest, k))
  }

  /** Assignment through `operator[]`: replaces the value of a known key, inserts a new one in order. */
  function Put(e: Entries, k: Key, v: Value): Entries {
    if e.Empty? then Entry(k, v, Empty)
    else if e.key == k then e.(value := v)
    else if KeyLess(k, e.key) then Entry(k, v, e)
    else e.(rest := Put(e.rest, k, v))
  }

  /** Every key of `e` is above `k`. */
  ghost predicate Above(k: Key, e: Entries) {
    e.Entry? ==> KeyLess(k, e.key) && Above(k, e.rest)
  }

  /** Strictly increasing keys: no key twice. */
  ghost predicate Sorted(e: Entries) {
    e.Entry? ==> Above(e.key, e.rest) && Sorted(e.rest)
  }

  lemma KeyOrder(a: Key, b: Key)
    ensures !KeyLess(a, a)
    ensures KeyLess(a, b) || a == b || KeyLess(b, a)
  {
    if a.Name? {
      ByteOrder.Irreflexive(a.name);
      if b.Name? { ByteOrder.Trichotomy(a.name, b.name); }
    }
  }

  lemma KeyTransitive(a: Key, b: Key, c: Key)
    requires KeyLess(a, b) && KeyLess(b, c)
    ensures KeyLess(a, c)
  {
    if a.Name? { ByteOrder.Transitive(a.name, b.name, c.name); }
  }

  lemma {:induction false} PutAbove(low: Key, e: Entries, k: Key, v: Value)
    requires Above(low, e) && KeyLess(low, k)
    ensures Above(low, Put(e, k, v))
  {
    if e.Entry? && e.key != k && !KeyLess(k, e.key) { PutAbove(low, e.rest, k, v); }
  }

  lemma {:induction false} AboveLower(a: Key, b: Key, e: Entries)
    requires KeyLess(a, b) && Above(b, e)
    ensures Above(a, e)
  {
    if e.Entry? {
      KeyTransitive(a, b, e.key);
      AboveLower(a, b, e.rest);
    }
  }

  lemma {:induction false} AboveMeansAbsent(k: Key, e: Entries)
    requires Above(k, e)
    ensures !Has(e, k)
  {
    if e.Entry? {
      KeyOrder(k, k);
      AboveMeansAbsent(k, e.rest);
    }
  }

  lemma {:induction false} PutSorts(e: Entries, k: Key, v: Value)
    requires Sorted(e)
    ensures Sorted(Put(e, k, v))
    ensures Count(Put(e, k, v)) == Count(e) + if Has(e, k) then 0 else 1
  {
    if e.Entry? && e.key != k {
      if KeyLess(k, e.key) {
        AboveLower(k, e.key, e.rest);
        AboveMeansAbsent(k, e);
      } else {
        KeyOrder(e.key, k);
        PutSorts(e.rest, k, v);
        PutAbove(e.key, e.rest, k, v);
      }
    }
  }

  /** Insertion is seen under its own key and under no other. */
  lemma {:induction false} GetPut(e: Entries, k: Key, v: Value, j: Key)
    ensures Get(Put(e, k, v), k) == v
    ensures j != k ==> Get(Put(e, k, v), j) == Get(e, j) && Has(Put(e, k, v), j) == Has(e, j)
  {
    if e.Entry? && e.key != k && !KeyLess(k, e.key) { GetPut(e.rest, k, v, j); }
  }

  // ---- Appending -----------------------------------------------------------------------------------------

  function Append(e: Entries, f: Entries): Entries {
    if e.Empty? then f else e.(rest := Append(e.rest, f))
  }

  /** Every key of `e` is below `k`. */
  ghost predicate Below(e: Entries, k: Key) {
    e.Entry? ==> KeyLess(e.key, k) && Below(e.rest, k)
  }

  lemma {:induction false} PutLast(e: Entries, k: Key, v: Value)
    requires Below(e, k)
    ensures Put(e, k, v) == Append(e, Entry(k, v, Empty))
  {
    if e.Entry? {
      KeyOrder(k, k);
      if KeyLess(k, e.key) { KeyTransitive(k, e.key, k); }
      PutLast(e.rest, k, v);
    }
  }

  lemma {:induction false} AppendTwice(e: Entries, k: Key, v: Value, f: Entries)
    ensures Append(Append(e, Entry(k, v, Empty)), f) == Append(e, Entry(k, v, f))
  {
    if e.Entry? { AppendTwice(e.rest, k, v, f); }
  }

  lemma {:induction false} BelowNext(e: Entries, k: Key, v: Value, next: Key)
    requires Below(e, k) && KeyLess(k, next)
    ensures Below(Append(e, Entry(k, v, Empty)), next)
  {
    if e.Entry? {
      KeyTransitive(e.key, k, next);
      BelowNext(e.rest, k, v, next);
    }
  }

  /** An entry above all others goes to the end. */
  lemma AppendEntry(e: Entries, k: Key, v: Value, f: Entries)
    requires Below(e, k)
    ensures Put(e, k, v) == Append(e, Entry(k, v, Empty)) && Append(Put(e, k, v), f) == Append(e, Entry(k, v, f))
  {
    PutLast(e, k, v);
    AppendTwice(e, k, v, f);
  }
}
