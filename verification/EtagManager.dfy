/**
  `EtagCache` and `xEtagManager`: the list of cells, the map from key to cell,
  both updated in place, and the shards they are spread over.
  */
module EtagManager {
  import opened Lru

  const TWO_32: nat := 0x1_0000_0000
  const TWO_64: nat := 0x1_0000_0000_0000_0000

  // ---- Lists of cells --------------------------------------------------------------------------

  /** A list cell; its identity is what a list iterator points to, and survives being moved. */
  datatype Cell = Cell(id: nat, key: nat)

  ghost function KeysOf(cells: seq<Cell>): (keys: seq<nat>)
    ensures |keys| == |cells| && forall i | 0 <= i < |keys| :: keys[i] == cells[i].key
  {
    seq(|cells|, i requires 0 <= i < |cells| => cells[i].key)
  }

  /** No two keys share a cell and no cell has an identity still to be given out. */
  ghost predicate Separate(index: map<nat, nat>, next: nat) {
    && (forall k | k in index :: index[k] < next)
    && (forall j, k | j in index && k in index && j != k :: index[j] != index[k])
  }

  ghost predicate Indexed(cells: seq<Cell>, index: map<nat, nat>, c: Cell) {
    c in cells <==> c.key in index && index[c.key] == c.id
  }

  /** The list has no key twice, and the map finds exactly its cells, each under its key. */
  ghost predicate Agrees(cells: seq<Cell>, index: map<nat, nat>) {
    Unique(KeysOf(cells)) && forall c {:trigger Indexed(cells, index, c)} :: Indexed(cells, index, c)
  }

  lemma KeyInList(cells: seq<Cell>, k: nat) returns (i: nat)
    requires k in KeysOf(cells)
    ensures i < |cells| && cells[i].key == k
  {
    i :| 0 <= i < |cells| && KeysOf(cells)[i] == k;
  }

  /** A key is in the list exactly when the map knows it. */
  lemma AgreesOn(cells: seq<Cell>, index: map<nat, nat>, k: nat)
    requires Agrees(cells, index)
    ensures k in KeysOf(cells) <==> k in index
    ensures k in index ==> Cell(index[k], k) in cells
  {
    if k in KeysOf(cells) {
      var i := KeyInList(cells, k);
      assert Indexed(cells, index, cells[i]);
    }
    if k in index {
      assert Indexed(cells, index, Cell(index[k], k));
      var i :| 0 <= i < |cells| && cells[i] == Cell(index[k], k);
      assert KeysOf(cells)[i] == k;
    }
  }

  /** The place of the cell an iterator points to. */
  function Locate(cells: seq<Cell>, id: nat): (i: nat)
    requires exists c :: c in cells && c.id == id
    ensures i < |cells| && cells[i].id == id
  {
    if cells[0].id == id then 0 else
      assert cells == [cells[0]] + cells[1..];
      1 + Locate(cells[1..], id)
  }

  lemma LocateKey(cells: seq<Cell>, index: map<nat, nat>, next: nat, k: nat)
    requires Agrees(cells, index) && Separate(index, next) && k in index
    ensures exists c :: c in cells && c.id == index[k]
    ensures cells[Locate(cells, index[k])] == Cell(index[k], k)
  {
    AgreesOn(cells, index, k);
    assert Cell(index[k], k) in cells;
    var c := cells[Locate(cells, index[k])];
    assert Indexed(cells, index, c);
  }

  /** `splice` to the front. */
  function MoveFront(cells: seq<Cell>, i: nat): (r: seq<Cell>)
    requires i < |cells|
    ensures |r| == |cells| && r[0] == cells[i]
  {
    [cells[i]] + (cells[..i] + cells[i + 1..])
  }

  lemma MoveFrontKeys(cells: seq<Cell>, i: nat)
    requires i < |cells| && Unique(KeysOf(cells))
    ensures KeysOf(MoveFront(cells, i)) == [cells[i].key] + Without(KeysOf(cells), cells[i].key)
  {
    var keys := KeysOf(cells);
    WithoutOnce(keys, i);
    assert KeysOf(MoveFront(cells, i)) == [keys[i]] + (keys[..i] + keys[i + 1..]);
  }

  lemma MoveFrontUnique(s: seq<nat>, i: nat)
    requires Unique(s) && i < |s|
    ensures Unique([s[i]] + (s[..i] + s[i + 1..]))
  {
  }

  lemma MoveFrontMembers(cells: seq<Cell>, i: nat, c: Cell)
    requires i < |cells|
    ensures c in MoveFront(cells, i) <==> c in cells
  {
    assert cells == cells[..i] + [cells[i]] + cells[i + 1..];
  }

  lemma MoveFrontKeeps(cells: seq<Cell>, i: nat, index: map<nat, nat>)
    requires i < |cells| && Agrees(cells, index)
    ensures Agrees(MoveFront(cells, i), index)
  {
    var keys := KeysOf(cells);
    MoveFrontUnique(keys, i);
    assert KeysOf(MoveFront(cells, i)) == [keys[i]] + (keys[..i] + keys[i + 1..]);
    forall c ensures Indexed(MoveFront(cells, i), index, c) {
      MoveFrontMembers(cells, i, c);
      assert Indexed(cells, index, c);
    }
  }

  lemma DropLastMembers(cells: seq<Cell>, c: Cell)
    requires cells != [] && Unique(KeysOf(cells))
    ensures c in cells[..|cells| - 1] <==> c in cells && c.key != cells[|cells| - 1].key
  {
    var n := |cells| - 1;
    if c in cells[..n] {
      var i :| 0 <= i < n && cells[i] == c;
      assert KeysOf(cells)[i] != KeysOf(cells)[n];
    }
  }

  lemma DropLastKeeps(cells: seq<Cell>, index: map<nat, nat>)
    requires cells != [] && Agrees(cells, index)
    ensures Agrees(cells[..|cells| - 1], index - {cells[|cells| - 1].key})
    ensures KeysOf(cells[..|cells| - 1]) == KeysOf(cells)[..|cells| - 1]
  {
    var n := |cells| - 1;
    forall c ensures Indexed(cells[..n], index - {cells[n].key}, c) {
      DropLastMembers(cells, c);
      assert Indexed(cells, index, c);
    }
  }

  lemma PushFrontKeeps(cells: seq<Cell>, index: map<nat, nat>, next: nat, k: nat)
    requires Agrees(cells, index) && k !in index
    ensures Agrees([Cell(next, k)] + cells, index[k := next])
    ensures KeysOf([Cell(next, k)] + cells) == [k] + KeysOf(cells)
  {
    AgreesOn(cells, index, k);
    var longer, grown := [Cell(next, k)] + cells, index[k := next];
    assert KeysOf(longer) == [k] + KeysOf(cells);
    forall c ensures Indexed(longer, grown, c) {
      assert Indexed(cells, index, c);
    }
  }

  class EtagCache {
    var capacity: nat
    var etaglist: seq<Cell>
    var etagmap: map<nat, nat>
    /** Cells allocated so far. */
    var cells: nat

    ghost predicate Valid()
      reads this
    {
      0 < capacity && |etaglist| <= capacity && Agrees(etaglist, etagmap) && Separate(etagmap, cells)
    }

    ghost function Keys(): seq<nat>
      reads this
    {
      KeysOf(etaglist)
    }

    constructor (size: nat)
      requires size > 0
      ensures Valid() && capacity == size && Keys() == []
    {
      capacity, etaglist, etagmap, cells := size, [], map[], 0;
    }

    /** Moves the cell the map has for `k` to the front of the list. */
    method Splice(k: nat)
      requires Valid() && k in etagmap
      modifies this`etaglist, this`etagmap
      ensures Valid() && k in old(Keys()) && Keys() == Put(capacity, old(Keys()), k)
    {
      AgreesOn(etaglist, etagmap, k);
      LocateKey(etaglist, etagmap, cells, k);
      var i := Locate(etaglist, etagmap[k]);
      MoveFrontKeeps(etaglist, i, etagmap);
      MoveFrontKeys(etaglist, i);
      etaglist := MoveFront(etaglist, i);
      assert etagmap[k := etaglist[0].id] == etagmap;
      etagmap := etagmap[k := etaglist[0].id];
    }

    method Set(k: nat)
      requires Valid()
      modifies this`etaglist, this`etagmap, this`cells
      ensures Valid() && Keys() == Do(capacity, old(Keys()), Op.Set(k))
    {
      AgreesOn(etaglist, etagmap, k);
      if k !in etagmap {
        if |etaglist| == capacity {
          DropLastKeeps(etaglist, etagmap);
          etagmap := etagmap - {etaglist[|etaglist| - 1].key};
          etaglist := etaglist[..|etaglist| - 1];
        }
        PushFrontKeeps(etaglist, etagmap, cells, k);
        etaglist := [Cell(cells, k)] + etaglist;
        etagmap := etagmap[k := etaglist[0].id];
        cells := cells + 1;
      } else {
        Splice(k);
      }
    }

    method Get(k: nat) returns (hit: bool)
      requires Valid()
      modifies this`etaglist, this`etagmap
      ensures Valid() && hit == (k in old(Keys())) && Keys() == Do(capacity, old(Keys()), Op.Get(k))
    {
      AgreesOn(etaglist, etagmap, k);
      hit := k in etagmap;
      if hit { Splice(k); }
    }
  }

  // ---- Shards ------------------------------------------------------------------------------------

  function Shard(count: nat, key: nat): (i: nat)
    requires count > 0
    ensures i < count
  {
    key % count
  }

  predicate Apart(count: int, j: int, k: int, n: int) {
    j - k == count * n
  }

  lemma Product(a: int, b: int)
    requires a >= 0 && b >= 0
    ensures a * (b + 1) == a * b + a && a * (-b - 1) == -(a * b) - a && a * b >= 0
  {
  }

  lemma NoMultipleBetween(count: int, d: int, n: int)
    requires count > 0
    ensures d == count * n ==> d == 0 || d >= count || d <= -count
  {
    if n > 0 {
      Product(count, n - 1);
    } else if n < 0 {
      Product(count, -n - 1);
    }
  }

  lemma RemaindersApart(count: int, j: int, k: int, n: int)
    requires count > 0 && Apart(count, j, k, n)
    ensures j % count == k % count
  {
    var p, q := j / count, k / count;
    var m := n - p + q;
    assert count * m == count * n - count * p + count * q;
    NoMultipleBetween(count, j % count - k % count, m);
  }

  lemma SameRemainder(count: int, j: int, k: int)
    requires count > 0 && j % count == k % count
    ensures Apart(count, j, k, j / count - k / count)
  {
    var p, q := j / count, k / count;
    assert count * (p - q) == count * p - count * q;
  }

  /** Keys share a shard exactly when they differ by a multiple of the number of shards, and every shard is used. */
  lemma SameShardIff(count: nat, j: nat, k: nat)
    requires count > 0
    ensures Shard(count, j) == Shard(count, k) <==> exists n :: Apart(count, j, k, n)
    ensures j < count ==> Shard(count, j) == j
  {
    hide Apart;
    if j % count == k % count {
      SameRemainder(count, j, k);
    }
    if n :| Apart(count, j, k, n) {
      RemaindersApart(count, j, k, n);
    }
  }

  /** One call on the whole manager: only the shard of its key changes. */
  function DoSharded(capacity: nat, shards: seq<seq<nat>>, op: Op): (r: seq<seq<nat>>)
    requires capacity > 0 && |shards| > 0
    ensures |r| == |shards|
  {
    var i := Shard(|shards|, op.key);
    shards[i := Do(capacity, shards[i], op)]
  }

  function RunSharded(count: nat, capacity: nat, ops: seq<Op>): (r: seq<seq<nat>>)
    requires count > 0 && capacity > 0
    ensures |r| == count
  {
    if ops == [] then seq(count, _ => [])
    else DoSharded(capacity, RunSharded(count, capacity, ops[..|ops| - 1]), ops[|ops| - 1])
  }

  /** The calls that concern shard `i`. */
  function Concerning(count: nat, ops: seq<Op>, i: nat): seq<Op>
    requires count > 0
  {
    if ops == [] then []
    else
      var before, op := Concerning(count, ops[..|ops| - 1], i), ops[|ops| - 1];
      if Shard(count, op.key) == i then before + [op] else before
  }

  /** Shards do not influence each other: each behaves as a cache of its own for the calls it is sent. */
  lemma {:induction false} ShardsAreIndependent(count: nat, capacity: nat, ops: seq<Op>, i: nat)
    requires count > 0 && capacity > 0 && i < count
    ensures RunSharded(count, capacity, ops)[i] == Run(capacity, Concerning(count, ops, i))
    decreases |ops|
  {
    if ops != [] {
      var before, op := ops[..|ops| - 1], ops[|ops| - 1];
      ShardsAreIndependent(count, capacity, before, i);
      var mine := Concerning(count, before, i);
      assert (mine + [op])[..|mine|] == mine;
    }
  }

  /**
    What a lookup answers after any history of the manager: yes exactly when
    the key was touched and fewer than `capacity` distinct keys of its own
    shard were touched since.
    */
  lemma LookupIff(count: nat, capacity: nat, ops: seq<Op>, k: nat)
    requires count > 0 && capacity > 0
    ensures var i := Shard(count, k);
            var h := Touched(capacity, Concerning(count, ops, i));
            k in RunSharded(count, capacity, ops)[i] <==>
            k in h && |Distinct(h[..FirstIndex(h, k)])| < capacity
  {
    var i := Shard(count, k);
    var mine := Concerning(count, ops, i);
    ShardsAreIndependent(count, capacity, ops, i);
    RunIsRecent(capacity, mine);
    HitIff(capacity, Touched(capacity, mine), k);
  }

  /** The value a 32-bit counter shows. */
  function Wrap(n: nat): nat {
    n % TWO_32
  }

  lemma WrapNext(n: nat)
    ensures Wrap(Wrap(n) + 1) == Wrap(n + 1)
  {
  }

  class Manager {
    var caches: seq<EtagCache>
    var getHit: nat
    var totalTimes: nat
    /** Lookups and hits, counted without wrapping. */
    ghost var lookups: nat
    ghost var hits: nat

    ghost predicate Valid()
      reads this, caches
    {
      && |caches| > 0
      && (forall i, j | 0 <= i < j < |caches| :: caches[i] != caches[j])
      && (forall i | 0 <= i < |caches| :: caches[i].Valid() && caches[i].capacity == caches[0].capacity)
      && Counted()
    }

    ghost predicate Counted()
      reads this
    {
      getHit == Wrap(hits) && totalTimes == Wrap(lookups) && hits <= lookups
    }

    ghost function Shards(): (r: seq<seq<nat>>)
      reads this, caches
      ensures |r| == |caches| && forall i | 0 <= i < |r| :: r[i] == caches[i].Keys()
    {
      seq(|caches|, i requires 0 <= i < |caches| reads this, caches => caches[i].Keys())
    }

    /** `Init` */
    constructor (cnt: nat, size: nat)
      requires cnt > 0 && size > 0
      ensures Valid() && |caches| == cnt && caches[0].capacity == size && fresh(caches)
      ensures Shards() == RunSharded(cnt, size, []) && lookups == 0 && hits == 0
    {
      caches, getHit, totalTimes, lookups, hits := [], 0, 0, 0, 0;
      new;
      var i := 0;
      while i < cnt
        invariant 0 <= i <= cnt && |caches| == i && fresh(caches)
        invariant getHit == 0 && totalTimes == 0 && lookups == 0 && hits == 0
        invariant forall j, k | 0 <= j < k < i :: caches[j] != caches[k]
        invariant forall j | 0 <= j < i :: caches[j].Valid() && caches[j].capacity == size && caches[j].Keys() == []
      {
        var cache := new EtagCache(size);
        caches := caches + [cache];
        i := i + 1;
      }
      assert Shards() == RunSharded(cnt, size, []);
    }

    /** `hash` is the 64-bit hash of the entity name; the sum with the timestamp wraps around. */
    method SetKey(hash: nat, timestamp: nat)
      requires Valid()
      modifies caches
      ensures Valid() && Shards() == DoSharded(caches[0].capacity, old(Shards()), Op.Set((hash + timestamp) % TWO_64))
      ensures caches[0].capacity == old(caches[0].capacity)
    {
      var hashkey := (hash + timestamp) % TWO_64;
      var i := Shard(|caches|, hashkey);
      caches[i].Set(hashkey);
    }

    method Lookup(hashkey: nat) returns (hit: bool)
      requires Valid()
      modifies caches
      ensures Valid() && caches[0].capacity == old(caches[0].capacity)
      ensures hit == (hashkey in old(Shards())[Shard(|caches|, hashkey)])
      ensures Shards() == DoSharded(caches[0].capacity, old(Shards()), Op.Get(hashkey))
    {
      var i := Shard(|caches|, hashkey);
      hit := caches[i].Get(hashkey);
    }

    method Count(hit: bool)
      requires Counted()
      modifies this`getHit, this`totalTimes, this`lookups, this`hits
      ensures Counted() && lookups == old(lookups) + 1 && hits == old(hits) + if hit then 1 else 0
    {
      WrapNext(lookups);
      WrapNext(hits);
      totalTimes := Wrap(totalTimes + 1);
      lookups := lookups + 1;
      if hit {
        getHit := Wrap(getHit + 1);
        hits := hits + 1;
      }
    }

    method GetKey(hash: nat, timestamp: nat) returns (hit: bool)
      requires Valid()
      modifies this`getHit, this`totalTimes, this`lookups, this`hits, caches
      ensures Valid() && caches[0].capacity == old(caches[0].capacity)
      ensures var k := (hash + timestamp) % TWO_64;
              hit == (k in old(Shards())[Shard(|caches|, k)]) &&
              Shards() == DoSharded(caches[0].capacity, old(Shards()), Op.Get(k))
      ensures lookups == old(lookups) + 1 && hits == old(hits) + if hit then 1 else 0
    {
      hit := Lookup((hash + timestamp) % TWO_64);
      ghost var shards := Shards();
      Count(hit);
      assert Shards() == shards;
    }

    /**
      The quotient is taken between integers: while the counters have not
      wrapped around, the rate is 1 when every lookup hit and 0 otherwise.
      */
    method GetHitRate() returns (rate: nat)
      requires Valid()
      ensures lookups < TWO_32 ==> rate == if lookups > 0 && hits == lookups then 1 else 0
    {
      rate := if totalTimes == 0 then 0 else getHit / totalTimes;
      if 0 < lookups < TWO_32 { QuotientOfCounters(hits, lookups); }
    }
  }

  lemma QuotientOfCounters(hits: nat, lookups: nat)
    requires hits <= lookups && lookups > 0
    ensures hits / lookups == if hits == lookups then 1 else 0
  {
  }
}
