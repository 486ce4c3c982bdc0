/**
  `SortedSet`: a `std::set` of items ordered by (score, key) together with a map
  from each key to its item. The ordered set is a strictly increasing sequence;
  an iterator into it is the item it points at.
  */
module SortedSets {
  import opened Wrappers
  import opened ByteOrder
  import opened Entries

  datatype Item = Item(key: string, score: int)

  /** `Item::operator<` */
  predicate ItemLess(a: Item, b: Item) {
    a.score < b.score || (a.score == b.score && Less(a.key, b.key))
  }

  lemma ItemOrder(a: Item, b: Item, c: Item)
    ensures !ItemLess(a, a)
    ensures ItemLess(a, b) && ItemLess(b, c) ==> ItemLess(a, c)
    ensures a == b || ItemLess(a, b) || ItemLess(b, a)
  {
    Irreflexive(a.key);
    Trichotomy(a.key, b.key);
    if Less(a.key, b.key) && Less(b.key, c.key) { Transitive(a.key, b.key, c.key); }
  }

  ghost predicate Ordered(s: seq<Item>) {
    forall i, j | 0 <= i < j < |s| :: ItemLess(s[i], s[j])
  }

  /** `std::set::insert` */
  function Insert(s: seq<Item>, x: Item): seq<Item> {
    if s == [] then [x]
    else if ItemLess(s[0], x) then [s[0]] + Insert(s[1..], x)
    else if s[0] == x then s
    else [x] + s
  }

  /** `std::set::erase` of the element an iterator points at */
  function Erase(s: seq<Item>, x: Item): seq<Item> {
    if s == [] then [] else if s[0] == x then s[1..] else [s[0]] + Erase(s[1..], x)
  }

  lemma OrderedCons(x: Item, s: seq<Item>)
    requires Ordered(s) && forall y | y in s :: ItemLess(x, y)
    ensures Ordered([x] + s)
  {
    var t := [x] + s;
    forall i, j | 0 <= i < j < |t| ensures ItemLess(t[i], t[j]) {
      assert t[j] == s[j - 1] && s[j - 1] in s;
      if i > 0 { assert t[i] == s[i - 1]; }
    }
  }

  lemma HeadIsLeast(s: seq<Item>)
    requires Ordered(s) && s != []
    ensures forall y | y in s[1..] :: ItemLess(s[0], y)
    ensures Ordered(s[1..])
  {
    forall y | y in s[1..] ensures ItemLess(s[0], y) {
      var j :| 0 <= j < |s| - 1 && s[1..][j] == y;
      assert s[j + 1] == y;
    }
  }

  lemma {:induction false} InsertOrdered(s: seq<Item>, x: Item)
    requires Ordered(s)
    ensures Ordered(Insert(s, x))
    ensures forall y :: y in Insert(s, x) <==> y == x || y in s
    decreases |s|
  {
    if s != [] {
      HeadIsLeast(s);
      ItemOrder(s[0], x, x);
      assert s == [s[0]] + s[1..];
      if ItemLess(s[0], x) {
        InsertOrdered(s[1..], x);
        OrderedCons(s[0], Insert(s[1..], x));
      } else if s[0] != x {
        forall y | y in s ensures ItemLess(x, y) { ItemOrder(x, s[0], y); }
        OrderedCons(x, s);
      }
    }
  }

  lemma {:induction false} EraseOrdered(s: seq<Item>, x: Item)
    requires Ordered(s)
    ensures Ordered(Erase(s, x))
    ensures forall y :: y in Erase(s, x) <==> y != x && y in s
    decreases |s|
  {
    if s != [] {
      HeadIsLeast(s);
      assert s == [s[0]] + s[1..];
      if s[0] == x {
        forall y | y in s[1..] ensures y != x { ItemOrder(x, y, y); }
      } else {
        EraseOrdered(s[1..], x);
        OrderedCons(s[0], Erase(s[1..], x));
      }
    }
  }

  // ---- The two structures as one key-to-score map -------------------------------

  ghost predicate Agree(sorted: seq<Item>, existed: map<string, Item>) {
    && Ordered(sorted)
    && (forall x | x in sorted :: x.key in existed && existed[x.key] == x)
    && (forall k | k in existed :: existed[k] in sorted && existed[k].key == k)
  }

  ghost function ScoresOf(existed: map<string, Item>): Scores {
    map k | k in existed :: existed[k].score
  }

  lemma {:induction false} SizesAgree(sorted: seq<Item>, existed: map<string, Item>)
    requires Agree(sorted, existed)
    ensures |sorted| == |existed|
    decreases |sorted|
  {
    if sorted == [] {
      assert existed.Keys == {};
    } else {
      var k := sorted[0].key;
      AgreeWithoutFirst(sorted, existed);
      SizesAgree(sorted[1..], existed - {k});
      assert sorted[0] in sorted && k in existed;
      assert (existed - {k}).Keys == existed.Keys - {k};
    }
  }

  lemma SizeOfContents(sorted: seq<Item>, existed: map<string, Item>)
    requires Agree(sorted, existed)
    ensures |sorted| == |ScoresOf(existed)|
  {
    SizesAgree(sorted, existed);
    assert existed.Keys == ScoresOf(existed).Keys;
  }

  lemma AgreeWithoutFirst(sorted: seq<Item>, existed: map<string, Item>)
    requires Agree(sorted, existed) && sorted != []
    ensures Agree(sorted[1..], existed - {sorted[0].key})
  {
    HeadIsLeast(sorted);
    var x := sorted[0];
    assert sorted == [x] + sorted[1..];
    forall y | y in sorted[1..] ensures y.key != x.key {
      ItemOrder(x, y, y);
      assert existed[y.key] == y;
    }
  }

  lemma AgreeWithoutLast(sorted: seq<Item>, existed: map<string, Item>)
    requires Agree(sorted, existed) && sorted != []
    ensures Agree(sorted[..|sorted| - 1], existed - {sorted[|sorted| - 1].key})
  {
    var n := |sorted| - 1;
    var x := sorted[n];
    assert sorted == sorted[..n] + [x];
    forall y | y in sorted[..n] ensures y.key != x.key {
      var i :| 0 <= i < n && sorted[i] == y;
      ItemOrder(y, x, y);
      assert existed[y.key] == y;
    }
  }

  lemma FrontIsLeast(sorted: seq<Item>, existed: map<string, Item>)
    requires Agree(sorted, existed) && sorted != []
    ensures IsLeast(ScoresOf(existed), sorted[0].key)
    ensures IsGreatest(ScoresOf(existed), sorted[|sorted| - 1].key)
  {
    var m := ScoresOf(existed);
    var f, l := sorted[0], sorted[|sorted| - 1];
    assert f in sorted && l in sorted;
    forall j | j in m ensures Precedes(m, f.key, j) && Precedes(m, j, l.key) {
      assert existed[j] in sorted;
      var i :| 0 <= i < |sorted| && sorted[i] == existed[j];
    }
  }

  lemma AgreeAfterErase(sorted: seq<Item>, existed: map<string, Item>, key: string)
    requires Agree(sorted, existed) && key in existed
    ensures Agree(Erase(sorted, existed[key]), existed - {key})
  {
    EraseOrdered(sorted, existed[key]);
  }

  lemma AgreeAfterInsert(sorted: seq<Item>, existed: map<string, Item>, x: Item)
    requires Agree(sorted, existed) && x.key !in existed
    ensures Agree(Insert(sorted, x), existed[x.key := x])
  {
    InsertOrdered(sorted, x);
  }

  lemma AgreeAfterReplace(sorted: seq<Item>, existed: map<string, Item>, x: Item)
    requires Agree(sorted, existed) && x.key in existed
    ensures Agree(Insert(Erase(sorted, existed[x.key]), x), existed[x.key := x])
  {
    AgreeAfterErase(sorted, existed, x.key);
    AgreeAfterInsert(Erase(sorted, existed[x.key]), existed - {x.key}, x);
    assert (existed - {x.key})[x.key := x] == existed[x.key := x];
  }

  lemma ScoresAfterUpdate(existed: map<string, Item>, x: Item)
    ensures ScoresOf(existed[x.key := x]) == ScoresOf(existed)[x.key := x.score]
    ensures x.key in existed && existed[x.key].score == x.score ==> ScoresOf(existed)[x.key := x.score] == ScoresOf(existed)
  {
  }

  lemma FrontIsPopped(sorted: seq<Item>, existed: map<string, Item>)
    requires Agree(sorted, existed) && sorted != []
    ensures ScoresOf(existed) != map[]
    ensures Agree(sorted[1..], existed - {sorted[0].key})
    ensures ScoresOf(existed - {sorted[0].key}) == ScoresOf(existed) - {Least(ScoresOf(existed))}
  {
    FrontIsLeast(sorted, existed);
    LeastUnique(ScoresOf(existed), sorted[0].key);
    AgreeWithoutFirst(sorted, existed);
    ScoresWithout(existed, sorted[0].key);
  }

  lemma BackIsPopped(sorted: seq<Item>, existed: map<string, Item>)
    requires Agree(sorted, existed) && sorted != []
    ensures ScoresOf(existed) != map[]
    ensures Agree(sorted[..|sorted| - 1], existed - {sorted[|sorted| - 1].key})
    ensures ScoresOf(existed - {sorted[|sorted| - 1].key}) == ScoresOf(existed) - {Greatest(ScoresOf(existed))}
  {
    FrontIsLeast(sorted, existed);
    GreatestUnique(ScoresOf(existed), sorted[|sorted| - 1].key);
    AgreeWithoutLast(sorted, existed);
    ScoresWithout(existed, sorted[|sorted| - 1].key);
  }

  lemma ScoresWithout(existed: map<string, Item>, k: string)
    ensures ScoresOf(existed - {k}) == ScoresOf(existed) - {k}
  {
  }

  class SortedSet {
    var sorted: seq<Item>
    var existed: map<string, Item>

    ghost predicate Valid()
      reads this
    {
      Agree(sorted, existed)
    }

    ghost function Contents(): Scores
      reads this
    {
      ScoresOf(existed)
    }

    constructor ()
      ensures Valid() && Contents() == map[]
    {
      sorted, existed := [], map[];
    }

    method Size() returns (n: nat)
      requires Valid()
      ensures n == |Contents()|
    {
      SizeOfContents(sorted, existed);
      n := |sorted|;
    }

    /** Returns true when the key is new. */
    method Add(key: string, score: int) returns (isNew: bool)
      requires Valid()
      modifies this
      ensures Valid()
      ensures Contents() == old(Contents())[key := score]
      ensures isNew == (key !in old(Contents()))
    {
      var item := Item(key, score);
      ScoresAfterUpdate(existed, item);
      isNew := key !in existed;
      if isNew {
        AgreeAfterInsert(sorted, existed, item);
      } else {
        if existed[key].score == score {
          return;
        }
        AgreeAfterReplace(sorted, existed, item);
        sorted := Erase(sorted, existed[key]);
      }
      sorted := Insert(sorted, item);
      existed := existed[key := item];
    }

    method Remove(key: string) returns (found: bool)
      requires Valid()
      modifies this
      ensures Valid()
      ensures Contents() == old(Contents()) - {key}
      ensures found == (key in old(Contents()))
    {
      found := key in existed;
      if found {
        AgreeAfterErase(sorted, existed, key);
        sorted := Erase(sorted, existed[key]);
        existed := existed - {key};
      }
    }

    method Front() returns (r: Option<Item>)
      requires Valid()
      ensures r.None? <==> Contents() == map[]
      ensures r.Some? ==> r.value.key == Least(Contents()) && r.value.score == Contents()[r.value.key]
    {
      SizeOfContents(sorted, existed);
      if sorted == [] {
        return None;
      }
      FrontIsLeast(sorted, existed);
      LeastUnique(Contents(), sorted[0].key);
      assert sorted[0] in sorted;
      return Some(sorted[0]);
    }

    method Back() returns (r: Option<Item>)
      requires Valid()
      ensures r.None? <==> Contents() == map[]
      ensures r.Some? ==> r.value.key == Greatest(Contents()) && r.value.score == Contents()[r.value.key]
    {
      SizeOfContents(sorted, existed);
      if sorted == [] {
        return None;
      }
      var last := sorted[|sorted| - 1];
      FrontIsLeast(sorted, existed);
      GreatestUnique(Contents(), last.key);
      assert last in sorted;
      return Some(last);
    }

    /** Zero when the set is empty. */
    method MaxScore() returns (score: int)
      requires Valid()
      ensures score == if Contents() == map[] then 0 else Contents()[Greatest(Contents())]
    {
      var back := Back();
      score := if back.Some? then back.value.score else 0;
    }

    method PopFront() returns (popped: bool)
      requires Valid()
      modifies this
      ensures Valid()
      ensures popped == (old(Contents()) != map[])
      ensures popped ==> Contents() == old(Contents()) - {Least(old(Contents()))}
      ensures !popped ==> Contents() == old(Contents())
    {
      SizeOfContents(sorted, existed);
      popped := sorted != [];
      if popped {
        FrontIsPopped(sorted, existed);
        existed := existed - {sorted[0].key};
        sorted := sorted[1..];
      }
    }

    method PopBack() returns (popped: bool)
      requires Valid()
      modifies this
      ensures Valid()
      ensures popped == (old(Contents()) != map[])
      ensures popped ==> Contents() == old(Contents()) - {Greatest(old(Contents()))}
      ensures !popped ==> Contents() == old(Contents())
    {
      SizeOfContents(sorted, existed);
      popped := sorted != [];
      if popped {
        BackIsPopped(sorted, existed);
        existed := existed - {sorted[|sorted| - 1].key};
        sorted := sorted[..|sorted| - 1];
      }
    }
  }
}
