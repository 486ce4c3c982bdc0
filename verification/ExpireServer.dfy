/**
  `ExpireManager` and the Redis command handlers that drive it, over the store
  and the sorted set. Each call is proved to be one step of the `Expiry` state
  machine on the abstract contents. The clock and the value timestamps are
  parameters.
  */
module ExpireServer {
  import opened Decimal
  import opened RowCodec
  import opened Entries
  import opened SortedSets
  import opened Expiry
  import opened ScoredRows
  import opened Database

  const EXPIRE_KEY: string := "expire"

  ghost predicate CanonicalAt(rows: Rows, m: string) {
    MemberRow(EXPIRE_KEY, m) in rows ==>
      rows[MemberRow(EXPIRE_KEY, m)] == SignedText(StrToInt64(rows[MemberRow(EXPIRE_KEY, m)]))
  }

  /** The deadlines in the expiry index were all printed by `%lld`. */
  ghost predicate Canonical(rows: Rows) {
    forall m :: CanonicalAt(rows, m)
  }

  ghost predicate Sound(rows: Rows) {
    Consistent(rows) && Canonical(rows)
  }

  ghost function Deadlines(rows: Rows): Scores {
    Index(rows, EXPIRE_KEY)
  }

  /** Comparing printed scores, as `Zset` does, compares the scores. */
  lemma TextComparison(rows: Rows, key: string, ttl: int)
    requires Canonical(rows) && IsInt64(ttl)
    ensures ZsetWritesRows(rows, EXPIRE_KEY, key, SignedText(ttl)) <==> ZsetWrites(Deadlines(rows), key, ttl)
  {
    Int64RoundTrip(ttl);
    assert CanonicalAt(rows, key) && IndexAt(rows, EXPIRE_KEY, Deadlines(rows), key);
  }

  lemma SoundAfterSet(rows: Rows, key: string, stored: string)
    requires Sound(rows)
    ensures Sound(SetRows(rows, key, stored))
    ensures Kv(SetRows(rows, key, stored)) == Kv(rows)[key := stored]
    ensures Deadlines(SetRows(rows, key, stored)) == Deadlines(rows)
  {
    KvOpsKeepConsistent(rows, key, stored);
    KvRowApart(key, EXPIRE_KEY);
    forall m ensures CanonicalAt(SetRows(rows, key, stored), m) { assert CanonicalAt(rows, m); }
    KvAfterSet(rows, key, stored);
    IndexAfterSet(rows, key, stored, EXPIRE_KEY);
  }

  lemma SoundAfterDel(rows: Rows, key: string)
    requires Sound(rows)
    ensures Sound(DelRows(rows, key))
    ensures Kv(DelRows(rows, key)) == Kv(rows) - {key}
    ensures Deadlines(DelRows(rows, key)) == Deadlines(rows)
  {
    KvOpsKeepConsistent(rows, key, "");
    forall m ensures CanonicalAt(DelRows(rows, key), m) { assert CanonicalAt(rows, m); }
    KvAfterDel(rows, key);
    IndexAfterDel(rows, key, EXPIRE_KEY);
  }

  lemma CanonicalAfterReplace(rows: Rows, key: string, ttl: int)
    requires Sound(rows) && IsInt64(ttl)
    ensures Canonical(ReplaceScore(rows, EXPIRE_KEY, key, SignedText(ttl)))
  {
    var after := ReplaceScore(rows, EXPIRE_KEY, key, SignedText(ttl));
    Int64RoundTrip(ttl);
    ReplacePairsOwn(rows, EXPIRE_KEY, key, SignedText(ttl), 0);
    forall m ensures CanonicalAt(after, m) {
      assert CanonicalAt(rows, m);
      if m != key { ReplacePairsOther(rows, EXPIRE_KEY, key, SignedText(ttl), EXPIRE_KEY, 0, m); }
    }
  }

  /** Writing a deadline updates the expiry index and nothing else. */
  lemma SoundAfterZset(rows: Rows, key: string, ttl: int)
    requires Sound(rows) && IsInt64(ttl)
    ensures var after := ZsetRows(rows, EXPIRE_KEY, key, SignedText(ttl));
            && Sound(after) && Kv(after) == Kv(rows)
            && Deadlines(after) == if ZsetWrites(Deadlines(rows), key, ttl) then Deadlines(rows)[key := ttl] else Deadlines(rows)
  {
    TextComparison(rows, key, ttl);
    if ZsetWrites(Deadlines(rows), key, ttl) {
      ApplyKeepsConsistent(rows, OpZset(EXPIRE_KEY, key, SignedText(ttl)));
      CanonicalAfterReplace(rows, key, ttl);
      KvAfterReplace(rows, EXPIRE_KEY, key, SignedText(ttl));
      IndexAfterReplace(rows, EXPIRE_KEY, key, SignedText(ttl));
      Int64RoundTrip(ttl);
    }
  }

  /** Removing a deadline removes its two rows and nothing else. */
  lemma SoundAfterZdel(rows: Rows, key: string)
    requires Sound(rows)
    ensures var after := ZdelRows(rows, EXPIRE_KEY, key);
            Sound(after) && Kv(after) == Kv(rows) && Deadlines(after) == ZdelIndex(Deadlines(rows), key)
  {
    ApplyKeepsConsistent(rows, OpZdel(EXPIRE_KEY, key));
    forall m ensures CanonicalAt(ZdelRows(rows, EXPIRE_KEY, key), m) { assert CanonicalAt(rows, m); }
    KvAfterZdel(rows, EXPIRE_KEY, key);
    if key != "" { IndexAfterZdel(rows, EXPIRE_KEY, key); }
  }

  class ExpireManager {
    const db: Store
    const sortSet: SortedSet
    var firstTimeout: int

    ghost predicate Valid()
      reads this, db, sortSet
    {
      Sound(db.rows) && sortSet.Valid()
    }

    ghost function Abs(): State
      reads this, db, sortSet
    {
      State(Kv(db.rows), Deadlines(db.rows), sortSet.Contents(), firstTimeout)
    }

    /** A server opening a store that earlier servers left sound. */
    constructor (db: Store)
      requires Sound(db.rows)
      ensures this.db == db && fresh(sortSet)
      ensures Valid() && Abs() == Start(Kv(db.rows), Deadlines(db.rows))
    {
      this.db := db;
      sortSet := new SortedSet();
      firstTimeout := 0;
    }

    method SetTTL(key: string, ttl: int)
      requires sortSet.Valid()
      modifies this, sortSet
      ensures sortSet.Valid()
      ensures sortSet.Contents() == TrackedWindow(old(sortSet.Contents()), key, ttl)
      ensures firstTimeout == if ttl < old(firstTimeout) then ttl else old(firstTimeout)
    {
      if ttl < firstTimeout {
        firstTimeout := ttl;
      }
      var size := sortSet.Size();
      var maxScore := sortSet.MaxScore();
      if size != 0 && ttl <= maxScore {
        var isNew := sortSet.Add(key, ttl);
        size := sortSet.Size();
        if size > BATCH_SIZE {
          var popped := sortSet.PopBack();
        }
      } else {
        var found := sortSet.Remove(key);
      }
    }

    /** `set key val` */
    method ProcessSet(key: string, stored: string)
      requires Valid()
      modifies db
      ensures Valid() && Abs() == DoSet(old(Abs()), key, stored)
    {
      SoundAfterSet(db.rows, key, stored);
      db.Set(key, stored);
    }

    /** `del key` */
    method ProcessDel(key: string)
      requires Valid()
      modifies db
      ensures Valid() && Abs() == DoDel(old(Abs()), key)
    {
      SoundAfterDel(db.rows, key);
      db.Del(key);
    }

    /** `set key val ex ttl`; replies OK exactly when the deadline was new. */
    method ProcessSetEx(key: string, stored: string, expired: int) returns (replyOk: bool)
      requires Valid() && Issuable(SetEx(key, stored, expired))
      modifies this, db, sortSet
      ensures Valid() && Abs() == DoSetEx(old(Abs()), key, stored, expired)
      ensures replyOk == ZsetWrites(old(Abs().index), key, expired)
    {
      SoundAfterSet(db.rows, key, stored);
      db.Set(key, stored);
      SetTTL(key, expired);
      SoundAfterZset(db.rows, key, expired);
      TextComparison(db.rows, key, expired);
      var code := db.Zset(EXPIRE_KEY, key, SignedText(expired));
      if code == Ok {
        SetTTL(key, expired);
      }
      replyOk := code == Ok;
    }

    /** `expire key ttl`; replies 1 exactly when the key exists and the deadline was new. */
    method ProcessExpire(key: string, expired: int) returns (reply: int)
      requires Valid() && IsInt64(expired)
      modifies this, db, sortSet
      ensures Valid() && Abs() == DoExpire(old(Abs()), key, expired)
      ensures reply == if key in old(Abs().kv) && ZsetWrites(old(Abs().index), key, expired) then 1 else 0
    {
      var val := db.Get(key);
      if val.Some? {
        SoundAfterZset(db.rows, key, expired);
        TextComparison(db.rows, key, expired);
        var code := db.Zset(EXPIRE_KEY, key, SignedText(expired));
        if code == Ok {
          SetTTL(key, expired);
          return 1;
        }
      }
      return 0;
    }

    /** The reload at the top of `ExpireLoop`. */
    method Refill() returns (empty: bool)
      requires Valid()
      modifies sortSet
      ensures Valid() && Abs() == Reload(old(Abs()))
      ensures empty == (sortSet.Contents() == map[])
    {
      var size := sortSet.Size();
      if size == 0 {
        db.LoadExpirationKeys(EXPIRE_KEY, sortSet, BATCH_SIZE);
        NothingLoaded(FirstEntries(LoadableEntries(Deadlines(db.rows)), BATCH_SIZE));
        size := sortSet.Size();
        assert sortSet.Contents() == FirstEntries(LoadableEntries(Deadlines(db.rows)), BATCH_SIZE);
      }
      empty := size == 0;
      assert Abs().window == Reload(old(Abs())).window;
    }

    /** Deleting an expired key: its row, its deadline, its place in the window. */
    method ExpireFront(key: string)
      requires Valid() && sortSet.Contents() != map[] && key == Least(sortSet.Contents())
      modifies db, sortSet
      ensures Valid()
      ensures Abs() == old(State(Abs().kv - {key}, ZdelIndex(Abs().index, key), Abs().window - {key}, firstTimeout))
    {
      SoundAfterDel(db.rows, key);
      db.Del(key);
      assert sortSet.Valid();
      SoundAfterZdel(db.rows, key);
      var code := db.Zdel(EXPIRE_KEY, key);
      assert sortSet.Valid();
      var popped := sortSet.PopFront();
    }

    method ExpireLoop(now: int)
      requires Valid()
      modifies this, db, sortSet
      ensures Valid() && Abs() == Expiry.ExpireLoop(old(Abs()), now)
    {
      var empty := Refill();
      if empty {
        firstTimeout := INT64_MAX;
        return;
      }
      var front := sortSet.Front();
      if front.Some? {
        firstTimeout := front.value.score;
        if front.value.score <= now {
          ExpireFront(front.value.key);
        }
      }
    }

    method RunSteps(now: int, ghost steps: nat)
      requires Valid() && QuietIn(Abs(), now, steps)
      modifies this, db, sortSet
      ensures Valid() && Abs() == Ticks(old(Abs()), now, steps)
    {
      ghost var n := steps;
      while firstTimeout <= now
        invariant Valid() && QuietIn(Abs(), now, n)
        invariant Ticks(Abs(), now, n) == Ticks(old(Abs()), now, steps)
        decreases n
      {
        ExpireLoop(now);
        n := n - 1;
      }
    }

    /** The `Dispatch` thread at a fixed clock reading, until it would sleep. */
    method RunUntilQuiet(now: int)
      requires Valid() && Inv(Abs()) && now < INT64_MAX
      modifies this, db, sortSet
      ensures Valid() && Abs() == Quiesce(old(Abs()), now)
    {
      ghost var steps := QuiesceInSteps(Abs(), now);
      RunSteps(now, steps);
    }
  }

  /** The invariant holds when the server opens a sound store. */
  lemma SoundIndexIsValid(rows: Rows)
    requires Consistent(rows)
    ensures ValidIndex(Deadlines(rows))
  {
    assert IndexAt(rows, EXPIRE_KEY, Deadlines(rows), "");
    forall k | k in Deadlines(rows) ensures IsInt64(Deadlines(rows)[k]) {
      assert IndexAt(rows, EXPIRE_KEY, Deadlines(rows), k);
    }
    if "" in Deadlines(rows) {
      var row := MemberRow(EXPIRE_KEY, "");
      assert row[0] == 's' && KnownRow(row);
      assert !IsKvRow(row) && !IsScoreRow(row);
      var key, m :| ValidName(key) && m != "" && row == MemberRow(key, m);
      MemberRowInjective(EXPIRE_KEY, "", key, m);
    }
  }
}
