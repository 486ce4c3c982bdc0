/**
  The imperative face of the store: each `xDataBase` call as a sequence of
  RocksDB puts, deletes and iterator moves, proved to have the effect the
  functions of `ScoredRows` describe.
  */
module Database {
  import opened Wrappers
  import opened ByteOrder
  import opened Decimal
  import opened RowCodec
  import opened Entries
  import opened Expiry
  import opened SortedSets
  import opened ScoredRows

  // ---- The range scan over score rows ------------------------------------------------

  predicate IsFirstRow(ahead: set<string>, row: string) {
    row in ahead && forall r | r in ahead :: LessEq(row, r)
  }

  lemma {:induction false} FirstRowExists(ahead: set<string>)
    requires ahead != {}
    ensures exists row :: IsFirstRow(ahead, row)
    decreases |ahead|
  {
    var x :| x in ahead;
    var rest := ahead - {x};
    if rest == {} {
      assert ahead == {x};
      assert IsFirstRow(ahead, x);
    } else {
      FirstRowExists(rest);
      var y :| IsFirstRow(rest, y);
      Trichotomy(x, y);
      var z := if Less(x, y) then x else y;
      forall r | r in ahead ensures LessEq(z, r) {
        if r != x {
          assert r in rest;
          if z == x && y != r { Transitive(x, y, r); }
        }
      }
      assert IsFirstRow(ahead, z);
    }
  }

  ghost predicate InRange(key: string, row: string) {
    LessEq(ScoreRow(key, 0, ""), row) && Less(row, ScoreRow(key, INT64_MAX, ""))
  }

  lemma ScoreRowInRange(key: string, s: int, m: string)
    requires IsInt64(s)
    ensures InRange(key, ScoreRow(key, s, m)) <==> Loadable(s)
  {
    hide ScoreRow, BigEndianBytes;
    UnsignedScoreRowOrder(key, 0, "", s, m);
    UnsignedScoreRowOrder(key, s, m, INT64_MAX, "");
    if ScoreRow(key, 0, "") == ScoreRow(key, s, m) {
      assert s == 0 by { ScoreRowShape(key, 0, ""); ScoreRowShape(key, s, m); SameScoreField(key, 0, "", s, m); }
    }
  }

  lemma SameScoreField(key: string, s: int, m: string, t: int, n: string)
    requires IsInt64(s) && IsInt64(t) && ScoreRow(key, s, m) == ScoreRow(key, t, n)
    ensures s == t
  {
    UnsignedScoreRowOrder(key, s, m, t, n);
    UnsignedScoreRowOrder(key, t, n, s, m);
    Irreflexive(ScoreRow(key, s, m));
  }

  lemma PrefixFixesName(key: string, name: string, tail: string)
    requires ValidName(key) && ValidName(name)
    requires ScorePrefix(key) <= ScorePrefix(name) + tail
    ensures name == key
  {
    var row, p := ScorePrefix(name) + tail, ScorePrefix(key);
    assert row[..|p|] == p;
    assert row[1] == LengthByte(name) && p[1] == LengthByte(key);
    LengthByteFixesLength(name, key);
    assert row[2..2 + |name|] == name && p[2..] == key;
  }

  /** Every stored row inside the scanned range is the score row of a loadable entry. */
  lemma RangeHoldsEntries(rows: Rows, key: string, row: string) returns (m: string)
    requires Consistent(rows) && 0 < |key| <= 255 && row in rows && InRange(key, row)
    ensures m in LoadableEntries(Index(rows, key))
    ensures row == ScoreRow(key, LoadableEntries(Index(rows, key))[m], m)
  {
    var p := ScorePrefix(key);
    ScoreRowShape(key, 0, "");
    ScoreRowShape(key, INT64_MAX, "");
    Between(p, BigEndianBytes(0, 8) + (":" + ""), BigEndianBytes(INT64_MAX, 8) + (":" + ""), row);
    assert row[0] == p[0] == 'z';
    m := NamedScoreRow(rows, key, row);
  }

  lemma NamedScoreRow(rows: Rows, key: string, row: string) returns (m: string)
    requires Consistent(rows) && 0 < |key| <= 255 && row in rows && InRange(key, row)
    requires ScorePrefix(key) <= row && row[0] == 'z'
    ensures m in LoadableEntries(Index(rows, key))
    ensures row == ScoreRow(key, LoadableEntries(Index(rows, key))[m], m)
  {
    assert KnownRow(row) && !IsKvRow(row) && !IsMemberRow(row);
    var name, s, member :| ValidName(name) && IsInt64(s) && row == ScoreRow(name, s, member);
    ScoreRowShape(name, s, member);
    PrefixFixesName(key, name, BigEndianBytes(ToUint64(s), 8) + (":" + member));
    ScoreRowInRange(key, s, member);
    assert PairedAt(rows, key, s, member) && IndexAt(rows, key, Index(rows, key), member);
    m := member;
  }

  lemma EntriesAreInRange(rows: Rows, key: string, m: string)
    requires Consistent(rows) && 0 < |key| <= 255 && m in LoadableEntries(Index(rows, key))
    ensures var row := ScoreRow(key, LoadableEntries(Index(rows, key))[m], m);
            row in rows && InRange(key, row)
  {
    ScoreRowInRange(key, LoadableEntries(Index(rows, key))[m], m);
    assert PairedAt(rows, key, Index(rows, key)[m], m) && IndexAt(rows, key, Index(rows, key), m);
  }

  /** The entries whose score rows the iterator has still ahead of it. */
  ghost function Pending(all: Scores, key: string, ahead: set<string>): Scores {
    map m | m in all && IsInt64(all[m]) && ScoreRow(key, all[m], m) in ahead :: all[m]
  }

  /** The first row in range belongs to the least pending entry. */
  lemma FirstRowIsLeastPending(all: Scores, key: string, ahead: set<string>, m: string)
    requires ValidName(key) && m in all && forall k | k in all :: Loadable(all[k])
    requires Loadable(all[m]) && IsFirstRow(ahead, ScoreRow(key, all[m], m))
    ensures m in Pending(all, key, ahead) && m == Least(Pending(all, key, ahead))
  {
    var todo := Pending(all, key, ahead);
    forall j | j in todo ensures Precedes(todo, m, j) {
      ScoreRowOrder(key, all[m], m, all[j], j);
      if ScoreRow(key, all[j], j) == ScoreRow(key, all[m], m) { ScoreRowInjective(key, all[m], m, key, all[j], j); }
    }
    LeastUnique(todo, m);
  }

  /** Moving past that row drops just that entry. */
  lemma PassingRowDropsEntry(all: Scores, key: string, ahead: set<string>, m: string)
    requires ValidName(key) && m in all && IsInt64(all[m])
    ensures Pending(all, key, ahead - {ScoreRow(key, all[m], m)}) == Pending(all, key, ahead) - {m}
  {
    hide ScoreRow;
    forall j | j in all && IsInt64(all[j]) && ScoreRow(key, all[j], j) == ScoreRow(key, all[m], m) ensures j == m {
      ScoreRowInjective(key, all[m], m, key, all[j], j);
    }
  }

  lemma TakeOneMore(loaded: Scores, todo: Scores, budget: nat)
    requires todo != map[] && budget > 0
    ensures var k := Least(todo);
            loaded[k := todo[k]] + FirstEntries(todo - {k}, budget - 1) == loaded + FirstEntries(todo, budget)
  {
    hide FirstEntries, Least;
    var k := Least(todo);
    LeastComesFirst(todo, budget);
    MoveToFront(loaded, FirstEntries(todo - {k}, budget - 1), k, todo[k]);
  }

  lemma LeastComesFirst(todo: Scores, budget: nat)
    requires todo != map[] && budget > 0
    ensures var k := Least(todo);
            var rest := FirstEntries(todo - {k}, budget - 1);
            k !in rest && FirstEntries(todo, budget) == rest[k := todo[k]]
  {
    hide FirstEntries, Least;
    FirstEntriesStep(todo, budget);
    FirstEntriesAreFirst(todo - {Least(todo)}, budget - 1);
  }

  lemma MoveToFront(loaded: Scores, rest: Scores, k: string, v: int)
    requires k !in rest
    ensures loaded[k := v] + rest == loaded + rest[k := v]
  {
  }

  ghost function Loadables(rows: Rows, key: string): Scores {
    LoadableEntries(Index(rows, key))
  }

  /** Invariant of the scan: what is loaded and what is still to load make up the requested entries. */
  ghost predicate Scanning(rows: Rows, key: string, ahead: set<string>, loaded: Scores, limit: nat, n: nat) {
    && n <= limit && ahead <= rows.Keys
    && (forall r | r in ahead :: LessEq(ScoreRow(key, 0, ""), r))
    && loaded + FirstEntries(Pending(Loadables(rows, key), key, ahead), limit - n) == FirstEntries(Loadables(rows, key), limit)
  }

  lemma AllPending(rows: Rows, key: string, ahead: set<string>)
    requires Consistent(rows) && 0 < |key| <= 255
    requires forall r | r in rows && LessEq(ScoreRow(key, 0, ""), r) :: r in ahead
    ensures Pending(Loadables(rows, key), key, ahead) == Loadables(rows, key)
  {
    var all := Loadables(rows, key);
    forall m | m in all ensures IsInt64(all[m]) && ScoreRow(key, all[m], m) in ahead {
      EntriesAreInRange(rows, key, m);
    }
  }

  lemma StartOfScan(rows: Rows, key: string, ahead: set<string>, limit: nat)
    requires Consistent(rows) && 0 < |key| <= 255
    requires ahead == set r | r in rows && LessEq(ScoreRow(key, 0, ""), r)
    ensures Scanning(rows, key, ahead, map[], limit, 0)
  {
    AllPending(rows, key, ahead);
    NothingLoaded(FirstEntries(Loadables(rows, key), limit));
  }

  lemma NothingLoaded(m: Scores)
    ensures map[] + m == m && m + map[] == m
  {
  }

  /** One turn: the row read decodes to the least pending entry, which moves to the loaded ones. */
  lemma ScanStep(rows: Rows, key: string, ahead: set<string>, row: string, loaded: Scores, limit: nat, n: nat)
    returns (m: string, score: int)
    requires Consistent(rows) && 0 < |key| <= 255 && Scanning(rows, key, ahead, loaded, limit, n) && n < limit
    requires IsFirstRow(ahead, row) && Less(row, ScoreRow(key, INT64_MAX, ""))
    ensures DecodeScoreRow(row) == Some(Decoded(key, m, SignedText(score)))
    ensures StrToInt64(SignedText(score)) == score
    ensures Scanning(rows, key, ahead - {row}, loaded[m := score], limit, n + 1)
  {
    m := RangeHoldsEntries(rows, key, row);
    var all := Loadables(rows, key);
    score := all[m];
    DecodeInvertsEncode(key, score, m);
    Int64RoundTrip(score);
    FirstRowIsLeastPending(all, key, ahead, m);
    PassingRowDropsEntry(all, key, ahead, m);
    TakeOneMore(loaded, Pending(all, key, ahead), limit - n);
  }

  lemma NonePending(rows: Rows, key: string, ahead: set<string>)
    requires Consistent(rows) && 0 < |key| <= 255
    requires forall row | IsFirstRow(ahead, row) :: !Less(row, ScoreRow(key, INT64_MAX, ""))
    ensures Pending(Loadables(rows, key), key, ahead) == map[]
  {
    var all := Loadables(rows, key);
    forall m | m in all ensures ScoreRow(key, all[m], m) !in ahead {
      EntriesAreInRange(rows, key, m);
      BoundIsBehind(ahead, ScoreRow(key, all[m], m), ScoreRow(key, INT64_MAX, ""));
    }
  }

  lemma BoundIsBehind(ahead: set<string>, r: string, bound: string)
    requires forall row | IsFirstRow(ahead, row) :: !Less(row, bound)
    requires Less(r, bound)
    ensures r !in ahead
  {
    if r in ahead {
      FirstRowExists(ahead);
      var row :| IsFirstRow(ahead, row);
      if row != r { Transitive(row, r, bound); }
    }
  }

  /** The scan ends with the limit reached or with the next row out of range. */
  lemma EndOfScan(rows: Rows, key: string, ahead: set<string>, loaded: Scores, limit: nat, n: nat)
    requires Consistent(rows) && 0 < |key| <= 255 && Scanning(rows, key, ahead, loaded, limit, n)
    requires n == limit || forall row | IsFirstRow(ahead, row) :: !Less(row, ScoreRow(key, INT64_MAX, ""))
    ensures loaded == FirstEntries(Loadables(rows, key), limit)
  {
    if n < limit { NonePending(rows, key, ahead); }
    NothingLoaded(loaded);
  }

  lemma AppendScores(base: Scores, loaded: Scores, m: string, score: int)
    ensures base + loaded[m := score] == (base + loaded)[m := score]
    ensures base + map[] == base
  {
  }

  class Store {
    var rows: Rows

    constructor (initial: Rows)
      ensures rows == initial
    {
      rows := initial;
    }

    method Set(key: string, stored: string)
      modifies this
      ensures rows == SetRows(old(rows), key, stored)
    {
      rows := rows[KvRow(key) := stored];
    }

    method Get(key: string) returns (r: Option<string>)
      ensures r == if key in Kv(rows) then Some(Kv(rows)[key]) else None
    {
      assert KvAt(rows, Kv(rows), key);
      r := if KvRow(key) in rows then Some(rows[KvRow(key)]) else None;
    }

    method Del(key: string)
      modifies this
      ensures rows == DelRows(old(rows), key)
    {
      rows := rows - {KvRow(key)};
    }

    /** None exactly for what is no member of the scored set, else a text of its score there. */
    method Zget(key: string, member: string) returns (r: Option<string>)
      ensures r == ZgetRows(rows, key, member)
      ensures r.Some? <==> member in Index(rows, key)
      ensures r.Some? ==> StrToInt64(r.value) == Index(rows, key)[member]
    {
      assert IndexAt(rows, key, Index(rows, key), member);
      r := if MemberRow(key, member) in rows then Some(rows[MemberRow(key, member)]) else None;
    }

    method Zset(key: string, member: string, score: string) returns (code: Code)
      modifies this
      ensures rows == ZsetRows(old(rows), key, member, score)
      ensures code == if ZsetWritesRows(old(rows), key, member, score) then Ok else Err
    {
      hide ScoreRow, MemberRow, StrToInt64;
      if key == "" || member == "" {
        return Err;
      }
      var oldScore := Zget(key, member);
      if oldScore != Some(score) {
        assert oldScore.None? ==> rows - StaleRow(rows, key, member) == rows;
        if oldScore.Some? {
          rows := rows - {ScoreRow(key, StrToInt64(oldScore.value), member)};
        }
        assert rows == old(rows) - StaleRow(old(rows), key, member);
        rows := rows[ScoreRow(key, StrToInt64(score), member) := ""];
        rows := rows[MemberRow(key, member) := score];
        return Ok;
      }
      return Err;
    }

    method Zdel(key: string, member: string) returns (code: Code)
      modifies this
      ensures rows == ZdelRows(old(rows), key, member)
      ensures code == if key != "" && member != "" && MemberRow(key, member) in old(rows) then Ok else Err
    {
      if key == "" || member == "" {
        return Err;
      }
      var oldScore := Zget(key, member);
      if oldScore.None? {
        return Err;
      }
      rows := rows - {ScoreRow(key, StrToInt64(oldScore.value), member)};
      rows := rows - {MemberRow(key, member)};
      return Ok;
    }

    method Flushall()
      modifies this
      ensures rows == map[]
    {
      var ahead := rows.Keys;
      while ahead != {}
        invariant ahead == rows.Keys
        decreases ahead
      {
        FirstRowExists(ahead);
        var row :| IsFirstRow(ahead, row);
        rows := rows - {row};
        ahead := ahead - {row};
      }
    }

    /** Adds the `limit` earliest loadable entries of the index to `keylist`. */
    method LoadExpirationKeys(key: string, keylist: SortedSet, limit: nat)
      requires Consistent(rows) && 0 < |key| <= 255 && keylist.Valid()
      modifies keylist
      ensures keylist.Valid()
      ensures keylist.Contents() == old(keylist.Contents()) + FirstEntries(LoadableEntries(Index(rows, key)), limit)
    {
      var first, bound := ScoreRow(key, 0, ""), ScoreRow(key, INT64_MAX, "");
      var ahead := set r | r in rows && LessEq(first, r);
      var n := 0;
      ghost var base, loaded: Scores := keylist.Contents(), map[];
      StartOfScan(rows, key, ahead, limit);
      AppendScores(base, loaded, "", 0);
      while ahead != {} && n < limit
        invariant keylist.Valid() && keylist.Contents() == base + loaded
        invariant Scanning(rows, key, ahead, loaded, limit, n)
        decreases ahead
      {
        FirstRowExists(ahead);
        var row :| IsFirstRow(ahead, row);
        if !Less(row, bound) {
          FirstRowUnique(ahead, row);
          break;
        }
        ghost var m, score := ScanStep(rows, key, ahead, row, loaded, limit, n);
        AppendScores(base, loaded, m, score);
        var decoded := DecodeScoreRow(row).value;
        var isNew := keylist.Add(decoded.member, StrToInt64(decoded.score));
        loaded := loaded[m := score];
        n := n + 1;
        ahead := ahead - {row};
      }
      EndOfScan(rows, key, ahead, loaded, limit, n);
    }
  }

  lemma FirstRowUnique(ahead: set<string>, row: string)
    requires IsFirstRow(ahead, row)
    ensures forall r | IsFirstRow(ahead, r) :: r == row
  {
    forall r | IsFirstRow(ahead, r) ensures r == row {
      Trichotomy(r, row);
    }
  }
}
