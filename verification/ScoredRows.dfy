/**
  `xDataBase` over RocksDB. The database is a map from row keys to row values
  whose calls all succeed; a scan visits its rows in byte order.
  A scored set keeps two rows per member: the member row holding the printed
  score, and the score row that sorts by score.
  */
module ScoredRows {
  import opened Wrappers
  import opened Decimal
  import opened RowCodec
  import opened Entries

  type Rows = map<string, string>

  /** `db_ok`, `db_err`, `db_null` */
  datatype Code = Ok | Err | NotFound

  // ---- What the row operations do, as functions of the rows ---------------------------

  function SetRows(rows: Rows, key: string, stored: string): Rows {
    rows[KvRow(key) := stored]
  }

  function DelRows(rows: Rows, key: string): Rows {
    rows - {KvRow(key)}
  }

  function ZgetRows(rows: Rows, key: string, member: string): Option<string> {
    if MemberRow(key, member) in rows then Some(rows[MemberRow(key, member)]) else None
  }

  predicate ZsetWritesRows(rows: Rows, key: string, member: string, score: string) {
    key != "" && member != "" && ZgetRows(rows, key, member) != Some(score)
  }

  /** The score row of the old score goes, the new one and the member row come. */
  function ReplaceScore(rows: Rows, key: string, member: string, score: string): Rows {
    (rows - StaleRow(rows, key, member))
      [ScoreRow(key, StrToInt64(score), member) := ""]
      [MemberRow(key, member) := score]
  }

  function StaleRow(rows: Rows, key: string, member: string): set<string> {
    match ZgetRows(rows, key, member)
    case None => {}
    case Some(score) => {ScoreRow(key, StrToInt64(score), member)}
  }

  function ZsetRows(rows: Rows, key: string, member: string, score: string): Rows {
    if ZsetWritesRows(rows, key, member, score) then ReplaceScore(rows, key, member, score) else rows
  }

  function ZdelRows(rows: Rows, key: string, member: string): Rows {
    if key == "" || member == "" then rows
    else if MemberRow(key, member) !in rows then rows
    else rows - StaleRow(rows, key, member) - {MemberRow(key, member)}
  }

  datatype Op =
    | OpSet(key: string, stored: string)
    | OpDel(key: string)
    | OpZset(key: string, member: string, score: string)
    | OpZdel(key: string, member: string)
    | OpFlushall

  function Apply(rows: Rows, op: Op): Rows {
    match op
    case OpSet(key, stored) => SetRows(rows, key, stored)
    case OpDel(key) => DelRows(rows, key)
    case OpZset(key, member, score) => ZsetRows(rows, key, member, score)
    case OpZdel(key, member) => ZdelRows(rows, key, member)
    case OpFlushall => map[]
  }

  function ApplyAll(rows: Rows, ops: seq<Op>): Rows
    decreases |ops|
  {
    if ops == [] then rows else ApplyAll(Apply(rows, ops[0]), ops[1..])
  }

  // ---- Consistency of the two indexes ---------------------------------------------------

  ghost predicate IsKvRow(r: string) {
    exists k :: r == KvRow(k)
  }

  ghost predicate IsMemberRow(r: string) {
    exists key, m | ValidName(key) && m != "" :: r == MemberRow(key, m)
  }

  ghost predicate IsScoreRow(r: string) {
    exists key, s, m | ValidName(key) && IsInt64(s) :: r == ScoreRow(key, s, m)
  }

  ghost predicate KnownRow(r: string) {
    IsKvRow(r) || IsMemberRow(r) || IsScoreRow(r)
  }

  ghost predicate KnownRows(rows: Rows) {
    forall r {:trigger KnownRow(r)} | r in rows :: KnownRow(r)
  }

  /** The score row for `s` exists exactly when the member row holds the score `s`. */
  ghost predicate PairedAt(rows: Rows, key: string, s: int, m: string)
    requires IsInt64(s)
  {
    ScoreRow(key, s, m) in rows <==> MemberRow(key, m) in rows && StrToInt64(rows[MemberRow(key, m)]) == s
  }

  /** So it is for all names of at most `bound` bytes. */
  ghost predicate PairedUpTo(rows: Rows, bound: nat) {
    forall key, s, m | 0 < |key| <= bound && IsInt64(s) :: PairedAt(rows, key, s, m)
  }

  ghost predicate Paired(rows: Rows) {
    PairedUpTo(rows, 256)
  }

  ghost predicate Consistent(rows: Rows) {
    KnownRows(rows) && Paired(rows)
  }

  /** The operation names no scored set by more than `bound` bytes. */
  predicate NameWithin(op: Op, bound: nat) {
    match op
    case OpZset(key, _, _) => |key| <= bound
    case OpZdel(key, _) => |key| <= bound
    case _ => true
  }

  ghost predicate NamesWithin(ops: seq<Op>, bound: nat) {
    forall i | 0 <= i < |ops| :: NameWithin(ops[i], bound)
  }

  lemma KvOpsKeepConsistent(rows: Rows, key: string, stored: string)
    requires Consistent(rows)
    ensures Consistent(SetRows(rows, key, stored)) && Consistent(DelRows(rows, key))
  {
    hide ScoreRow, MemberRow, StrToInt64;
    assert IsKvRow(KvRow(key));
    var a, b := SetRows(rows, key, stored), DelRows(rows, key);
    forall key', s, m | ValidName(key') && IsInt64(s) ensures PairedAt(a, key', s, m) && PairedAt(b, key', s, m) {
      assert PairedAt(rows, key', s, m);
      RowKindsDisjoint(key, key', m, key', s, m);
    }
  }

  /** Rows of other members are not touched by an operation on `(key, member)`. */
  lemma OtherRows(key: string, member: string, s: int, key': string, member': string, s': int)
    requires ValidName(key) && ValidName(key') && IsInt64(s) && IsInt64(s')
    ensures ScoreRow(key', s', member') == ScoreRow(key, s, member) ==> key' == key && member' == member && s' == s
    ensures MemberRow(key', member') == MemberRow(key, member) ==> key' == key && member' == member
    ensures ScoreRow(key', s', member') != MemberRow(key, member)
    ensures MemberRow(key', member') != ScoreRow(key, s, member)
  {
    hide ScoreRow, MemberRow, StrToInt64;
    if ScoreRow(key', s', member') == ScoreRow(key, s, member) {
      ScoreRowInjective(key', s', member', key, s, member);
    }
    if MemberRow(key', member') == MemberRow(key, member) {
      MemberRowInjective(key', member', key, member);
    }
    RowKindsDisjoint("", key, member, key', s', member');
    RowKindsDisjoint("", key', member', key, s, member);
  }

  /** Which rows a replacement leaves, for an arbitrary row key. */
  lemma ReplaceLookup(rows: Rows, key: string, member: string, score: string, r: string)
    ensures var after := ReplaceScore(rows, key, member, score);
            var m, s := MemberRow(key, member), ScoreRow(key, StrToInt64(score), member);
            && (r in after <==> r == m || r == s || (r in rows && r !in StaleRow(rows, key, member)))
            && (r in after ==> after[r] == if r == m then score else if r == s then "" else rows[r])
  {
    hide ScoreRow, MemberRow, StrToInt64;
  }

  lemma ReplacePairsOther(rows: Rows, key: string, member: string, score: string, key': string, s: int, m: string)
    requires Paired(rows) && ValidName(key) && ValidName(key') && IsInt64(s) && (key' != key || m != member)
    ensures var after := ReplaceScore(rows, key, member, score);
            && (ScoreRow(key', s, m) in after <==> ScoreRow(key', s, m) in rows)
            && (MemberRow(key', m) in after <==> MemberRow(key', m) in rows)
            && (MemberRow(key', m) in rows ==> after[MemberRow(key', m)] == rows[MemberRow(key', m)])
  {
    hide ScoreRow, MemberRow, StrToInt64;
    var was := match ZgetRows(rows, key, member) case None => 0 case Some(text) => StrToInt64(text);
    OtherRows(key, member, StrToInt64(score), key', m, s);
    OtherRows(key, member, was, key', m, s);
    ReplaceLookup(rows, key, member, score, ScoreRow(key', s, m));
    ReplaceLookup(rows, key, member, score, MemberRow(key', m));
  }

  lemma ReplacePairsOwn(rows: Rows, key: string, member: string, score: string, s: int)
    requires Paired(rows) && ValidName(key) && IsInt64(s)
    ensures var after := ReplaceScore(rows, key, member, score);
            && MemberRow(key, member) in after && after[MemberRow(key, member)] == score
            && (ScoreRow(key, s, member) in after <==> StrToInt64(score) == s)
  {
    hide ScoreRow, MemberRow, StrToInt64;
    assert PairedAt(rows, key, s, member);
    OtherRows(key, member, StrToInt64(score), key, member, s);
    ReplaceLookup(rows, key, member, score, ScoreRow(key, s, member));
    ReplaceLookup(rows, key, member, score, MemberRow(key, member));
  }

  lemma ReplaceKeepsPaired(rows: Rows, key: string, member: string, score: string)
    requires Paired(rows) && ValidName(key)
    ensures Paired(ReplaceScore(rows, key, member, score))
  {
    hide ScoreRow, MemberRow, StrToInt64;
    var after := ReplaceScore(rows, key, member, score);
    forall key', s, m | ValidName(key') && IsInt64(s) ensures PairedAt(after, key', s, m) {
      assert PairedAt(rows, key', s, m);
      if key' == key && m == member {
        ReplacePairsOwn(rows, key, member, score, s);
      } else {
        ReplacePairsOther(rows, key, member, score, key', s, m);
      }
    }
  }

  lemma ReplaceKeepsKnown(rows: Rows, key: string, member: string, score: string)
    requires KnownRows(rows) && ValidName(key) && member != ""
    ensures KnownRows(ReplaceScore(rows, key, member, score))
  {
    hide ScoreRow, MemberRow, StrToInt64;
    assert IsScoreRow(ScoreRow(key, StrToInt64(score), member));
    assert IsMemberRow(MemberRow(key, member));
  }

  lemma ZdelKeepsPaired(rows: Rows, key: string, member: string)
    requires Paired(rows) && |key| <= 256
    ensures Paired(ZdelRows(rows, key, member))
  {
    hide ScoreRow, MemberRow, StrToInt64;
    if key != "" && member != "" && MemberRow(key, member) in rows {
      var after := ZdelRows(rows, key, member);
      forall key', s, m | ValidName(key') && IsInt64(s) ensures PairedAt(after, key', s, m) {
        assert PairedAt(rows, key', s, m);
        ZdelPairsAt(rows, key, member, key', s, m);
      }
    }
  }

  lemma ZdelPairsAt(rows: Rows, key: string, member: string, key': string, s: int, m: string)
    requires ValidName(key) && ValidName(key') && IsInt64(s) && PairedAt(rows, key', s, m)
    requires member != "" && MemberRow(key, member) in rows
    ensures PairedAt(ZdelRows(rows, key, member), key', s, m)
  {
    hide ScoreRow, MemberRow;
    OtherRows(key, member, StrToInt64(rows[MemberRow(key, member)]), key', m, s);
  }

  lemma ApplyKeepsConsistent(rows: Rows, op: Op)
    requires Consistent(rows) && NameWithin(op, 256)
    ensures Consistent(Apply(rows, op))
  {
    hide ScoreRow, MemberRow, StrToInt64;
    match op
    case OpSet(key, stored) => KvOpsKeepConsistent(rows, key, stored);
    case OpDel(key) => KvOpsKeepConsistent(rows, key, "");
    case OpZset(key, member, score) =>
      if ZsetWritesRows(rows, key, member, score) {
        ReplaceKeepsPaired(rows, key, member, score);
        ReplaceKeepsKnown(rows, key, member, score);
      }
    case OpZdel(key, member) => ZdelKeepsPaired(rows, key, member);
    case OpFlushall =>
  }

  /** After every sequence of store operations the member rows and the score rows still pair up. */
  lemma {:induction false} ApplyAllKeepsConsistent(rows: Rows, ops: seq<Op>)
    requires Consistent(rows) && NamesWithin(ops, 256)
    ensures Consistent(ApplyAll(rows, ops))
    decreases |ops|
  {
    if ops != [] {
      ApplyKeepsConsistent(rows, ops[0]);
      ApplyAllKeepsConsistent(Apply(rows, ops[0]), ops[1..]);
    }
  }

  /** From the empty store, with set names of at most `bound` bytes, whatever the operations. */
  ghost predicate AlwaysPaired(bound: nat) {
    forall ops | NamesWithin(ops, bound) :: PairedUpTo(ApplyAll(map[], ops), bound)
  }

  /** The member rows and the score rows always pair up exactly while set names stay within 256 bytes. */
  lemma PairedIff(bound: nat)
    ensures AlwaysPaired(bound) <==> bound <= 256
  {
    if bound <= 256 {
      forall ops | NamesWithin(ops, bound) ensures PairedUpTo(ApplyAll(map[], ops), bound) {
        assert NamesWithin(ops, 256) by {
          forall i | 0 <= i < |ops| ensures NameWithin(ops[i], 256) { assert NameWithin(ops[i], bound); }
        }
        ApplyAllKeepsConsistent(map[], ops);
      }
    } else {
      LongNameBreaksPairs(bound, "");
    }
  }

  /** One write under a name of 257 bytes leaves a member row of another set without its score row. */
  lemma LongNameBreaksPairs(bound: nat, score: string)
    requires bound > 256
    ensures NamesWithin([OpZset(LongName(), "b", score)], bound)
    ensures !PairedUpTo(ApplyAll(map[], [OpZset(LongName(), "b", score)]), bound)
  {
    hide MemberRow, ScoreRow, LongMember, StrToInt64;
    var op := OpZset(LongName(), "b", score);
    var n := StrToInt64(score);
    LongNameCollides();
    LongNameScoreRow(n);
    ApplyOne(map[], op);
    RowKindsDisjoint("", "a", LongMember(), "a", n, LongMember());
    assert |LongName()| == 257 && NameWithin(op, bound);
    assert !PairedAt(ReplaceScore(map[], LongName(), "b", score), "a", n, LongMember());
  }

  lemma ApplyOne(rows: Rows, op: Op)
    ensures ApplyAll(rows, [op]) == Apply(rows, op)
  {
  }

  /** The tenth byte of the long name is where the other set's row has its colon. */
  lemma LongNameScoreRow(n: int)
    requires IsInt64(n)
    ensures ScoreRow("a", n, LongMember()) != ScoreRow(LongName(), n, "b")
  {
    hide ScoreImage;
    var p, q := ScoreRow("a", n, LongMember()), ScoreRow(LongName(), n, "b");
    assert p[11] == ':';
    assert q[11] == LongName()[9] == 'x';
  }

  /** In a consistent store a member has a score if and only if exactly one score row names it. */
  lemma ExactlyOneScoreRow(rows: Rows, key: string, m: string)
    requires Consistent(rows) && ValidName(key)
    ensures MemberRow(key, m) in rows <==> exists s | IsInt64(s) :: ScoreRow(key, s, m) in rows
    ensures forall s, t | IsInt64(s) && IsInt64(t) && ScoreRow(key, s, m) in rows && ScoreRow(key, t, m) in rows :: s == t
  {
    hide ScoreRow, MemberRow, StrToInt64;
    if MemberRow(key, m) in rows {
      assert PairedAt(rows, key, StrToInt64(rows[MemberRow(key, m)]), m);
      assert ScoreRow(key, StrToInt64(rows[MemberRow(key, m)]), m) in rows;
    }
    forall s | IsInt64(s) && ScoreRow(key, s, m) in rows
      ensures MemberRow(key, m) in rows && s == StrToInt64(rows[MemberRow(key, m)])
    {
      assert PairedAt(rows, key, s, m);
    }
  }

  // ---- The abstract contents ----------------------------------------------------------------

  ghost predicate KvAt(rows: Rows, m: map<string, string>, k: string) {
    && (k in m <==> KvRow(k) in rows)
    && (k in m ==> rows[KvRow(k)] == m[k])
  }

  ghost predicate IsKv(rows: Rows, m: map<string, string>) {
    forall k :: KvAt(rows, m, k)
  }

  /** The plain keys and their stored values. */
  ghost function Kv(rows: Rows): (m: map<string, string>)
    ensures IsKv(rows, m)
  {
    KvExists(rows);
    var m :| IsKv(rows, m);
    m
  }

  lemma KvExists(rows: Rows)
    ensures exists m :: IsKv(rows, m)
  {
    var keys := set r | r in rows && |r| > 0 && r[0] == 'k' :: r[1..];
    forall k ensures k in keys <==> KvRow(k) in rows {
      if k in keys {
        var r :| r in rows && |r| > 0 && r[0] == 'k' && r[1..] == k;
        assert r == KvRow(k);
      }
      if KvRow(k) in rows { assert KvRow(k)[1..] == k; }
    }
    var m := map k | k in keys :: rows[KvRow(k)];
    assert forall k :: KvAt(rows, m, k);
    assert IsKv(rows, m);
  }

  lemma KvUnique(rows: Rows, m: map<string, string>)
    requires IsKv(rows, m)
    ensures m == Kv(rows)
  {
    var n := Kv(rows);
    forall k ensures k in m <==> k in n
             ensures k in m ==> m[k] == n[k]
    {
      assert KvAt(rows, m, k) && KvAt(rows, n, k);
    }
  }

  ghost predicate IndexAt(rows: Rows, key: string, m: Scores, k: string) {
    && (k in m <==> MemberRow(key, k) in rows)
    && (k in m ==> StrToInt64(rows[MemberRow(key, k)]) == m[k])
  }

  ghost predicate IsIndex(rows: Rows, key: string, m: Scores) {
    forall k :: IndexAt(rows, key, m, k)
  }

  /** The scored set stored under `key`. */
  ghost function Index(rows: Rows, key: string): (m: Scores)
    ensures IsIndex(rows, key, m)
  {
    IndexExists(rows, key);
    var m :| IsIndex(rows, key, m);
    m
  }

  lemma IndexExists(rows: Rows, key: string)
    ensures exists m :: IsIndex(rows, key, m)
  {
    var n := |key| + 3;
    var members := set r | r in rows && |r| >= n && r == MemberRow(key, r[n..]) :: r[n..];
    forall k ensures k in members <==> MemberRow(key, k) in rows {
      if MemberRow(key, k) in rows { assert MemberRow(key, k)[n..] == k; }
    }
    var m := map k | k in members :: StrToInt64(rows[MemberRow(key, k)]);
    assert forall k :: IndexAt(rows, key, m, k);
    assert IsIndex(rows, key, m);
  }

  lemma IndexUnique(rows: Rows, key: string, m: Scores)
    requires IsIndex(rows, key, m)
    ensures m == Index(rows, key)
  {
    var n := Index(rows, key);
    forall k ensures k in m <==> k in n
             ensures k in m ==> m[k] == n[k]
    {
      assert IndexAt(rows, key, m, k) && IndexAt(rows, key, n, k);
    }
  }

  lemma KvRowOnce(key: string)
    ensures forall k :: KvRow(k) == KvRow(key) <==> k == key
  {
    forall k | KvRow(k) == KvRow(key) ensures k == key { KvRowInjective(k, key); }
  }

  lemma KvAfterSet(rows: Rows, key: string, stored: string)
    ensures Kv(SetRows(rows, key, stored)) == Kv(rows)[key := stored]
  {
    KvRowOnce(key);
    var after, m := SetRows(rows, key, stored), Kv(rows)[key := stored];
    forall k ensures KvAt(after, m, k) { assert KvAt(rows, Kv(rows), k); }
    KvUnique(after, m);
  }

  lemma KvAfterDel(rows: Rows, key: string)
    ensures Kv(DelRows(rows, key)) == Kv(rows) - {key}
  {
    KvRowOnce(key);
    var after, m := DelRows(rows, key), Kv(rows) - {key};
    forall k ensures KvAt(after, m, k) { assert KvAt(rows, Kv(rows), k); }
    KvUnique(after, m);
  }

  /** Two stores with the same member rows under `key` hold the same set there. */
  lemma SameIndex(rows: Rows, after: Rows, key: string)
    requires forall m :: MemberRow(key, m) in after <==> MemberRow(key, m) in rows
    requires forall m | MemberRow(key, m) in rows :: after[MemberRow(key, m)] == rows[MemberRow(key, m)]
    ensures Index(after, key) == Index(rows, key)
  {
    forall k ensures IndexAt(after, key, Index(rows, key), k) { assert IndexAt(rows, key, Index(rows, key), k); }
    IndexUnique(after, key, Index(rows, key));
  }

  lemma KvRowApart(key: string, name: string)
    ensures forall m :: MemberRow(name, m) != KvRow(key)
  {
    forall m ensures MemberRow(name, m) != KvRow(key) {
      RowKindsDisjoint(key, name, m, name, 0, m);
    }
  }

  lemma IndexAfterSet(rows: Rows, key: string, stored: string, name: string)
    ensures Index(SetRows(rows, key, stored), name) == Index(rows, name)
  {
    KvRowApart(key, name);
    SameIndex(rows, SetRows(rows, key, stored), name);
  }

  lemma IndexAfterDel(rows: Rows, key: string, name: string)
    ensures Index(DelRows(rows, key), name) == Index(rows, name)
  {
    KvRowApart(key, name);
    SameIndex(rows, DelRows(rows, key), name);
  }

  lemma KvRowsApart(key: string, member: string)
    ensures forall k, s | IsInt64(s) :: KvRow(k) != ScoreRow(key, s, member)
    ensures forall k :: KvRow(k) != MemberRow(key, member)
  {
    hide ScoreRow, MemberRow, StrToInt64;
    forall k, s | IsInt64(s) ensures KvRow(k) != ScoreRow(key, s, member) {
      RowKindsDisjoint(k, key, member, key, s, member);
    }
    forall k ensures KvRow(k) != MemberRow(key, member) {
      RowKindsDisjoint(k, key, member, key, 0, member);
    }
  }

  lemma SameKv(rows: Rows, after: Rows)
    requires forall k :: KvRow(k) in after <==> KvRow(k) in rows
    requires forall k | KvRow(k) in rows :: after[KvRow(k)] == rows[KvRow(k)]
    ensures Kv(after) == Kv(rows)
  {
    forall k ensures KvAt(after, Kv(rows), k) { assert KvAt(rows, Kv(rows), k); }
    KvUnique(after, Kv(rows));
  }

  lemma KvAfterReplace(rows: Rows, key: string, member: string, score: string)
    ensures Kv(ReplaceScore(rows, key, member, score)) == Kv(rows)
  {
    hide ScoreRow, MemberRow, StrToInt64;
    KvRowsApart(key, member);
    SameKv(rows, ReplaceScore(rows, key, member, score));
  }

  lemma KvAfterZdel(rows: Rows, key: string, member: string)
    ensures Kv(ZdelRows(rows, key, member)) == Kv(rows)
  {
    hide ScoreRow, MemberRow, StrToInt64;
    KvRowsApart(key, member);
    SameKv(rows, ZdelRows(rows, key, member));
  }

  lemma IndexUpdated(rows: Rows, after: Rows, key: string, member: string, n: int)
    requires MemberRow(key, member) in after && StrToInt64(after[MemberRow(key, member)]) == n
    requires forall m | m != member :: MemberRow(key, m) in after <==> MemberRow(key, m) in rows
    requires forall m | m != member && MemberRow(key, m) in rows :: after[MemberRow(key, m)] == rows[MemberRow(key, m)]
    ensures Index(after, key) == Index(rows, key)[member := n]
  {
    hide ScoreRow, MemberRow, StrToInt64;
    var i := Index(rows, key)[member := n];
    forall k ensures IndexAt(after, key, i, k) { assert IndexAt(rows, key, Index(rows, key), k); }
    IndexUnique(after, key, i);
  }

  lemma IndexAfterReplace(rows: Rows, key: string, member: string, score: string)
    requires ValidName(key) && Paired(rows)
    ensures Index(ReplaceScore(rows, key, member, score), key) == Index(rows, key)[member := StrToInt64(score)]
  {
    hide ScoreRow, MemberRow, StrToInt64;
    var after := ReplaceScore(rows, key, member, score);
    ReplacePairsOwn(rows, key, member, score, 0);
    forall m | m != member
      ensures MemberRow(key, m) in after <==> MemberRow(key, m) in rows
      ensures MemberRow(key, m) in rows ==> after[MemberRow(key, m)] == rows[MemberRow(key, m)]
    {
      ReplacePairsOther(rows, key, member, score, key, 0, m);
    }
    IndexUpdated(rows, after, key, member, StrToInt64(score));
  }

  /** What `Zset` wrote is what `Zget` finds, and every other member keeps its text. */
  lemma ZgetAfterZset(rows: Rows, key: string, member: string, score: string, key': string, member': string)
    requires ValidName(key) && ValidName(key') && member != ""
    ensures ZgetRows(ZsetRows(rows, key, member, score), key', member')
         == if key' == key && member' == member then Some(score) else ZgetRows(rows, key', member')
  {
    hide ScoreRow, MemberRow, StrToInt64;
    var was := match ZgetRows(rows, key, member) case None => 0 case Some(text) => StrToInt64(text);
    OtherRows(key, member, StrToInt64(score), key', member', 0);
    OtherRows(key, member, was, key', member', 0);
    ReplaceLookup(rows, key, member, score, MemberRow(key', member'));
  }

  lemma ZgetAfterZdel(rows: Rows, key: string, member: string, key': string, member': string)
    requires ValidName(key) && ValidName(key') && member != ""
    ensures ZgetRows(ZdelRows(rows, key, member), key', member')
         == if key' == key && member' == member then None else ZgetRows(rows, key', member')
  {
    hide ScoreRow, MemberRow, StrToInt64;
    var was := match ZgetRows(rows, key, member) case None => 0 case Some(text) => StrToInt64(text);
    OtherRows(key, member, was, key', member', 0);
  }

  lemma MemberRowsApart(key: string, member: string)
    requires ValidName(key)
    ensures forall m, s | IsInt64(s) :: MemberRow(key, m) != ScoreRow(key, s, member)
    ensures forall m :: MemberRow(key, m) == MemberRow(key, member) <==> m == member
  {
    hide ScoreRow, MemberRow, StrToInt64;
    forall m, s | IsInt64(s) ensures MemberRow(key, m) != ScoreRow(key, s, member) {
      OtherRows(key, member, s, key, m, s);
    }
    forall m | MemberRow(key, m) == MemberRow(key, member) ensures m == member {
      MemberRowInjective(key, m, key, member);
    }
  }

  lemma IndexAfterZdel(rows: Rows, key: string, member: string)
    requires ValidName(key) && member != ""
    ensures Index(ZdelRows(rows, key, member), key) == Index(rows, key) - {member}
  {
    hide ScoreRow, MemberRow, StrToInt64;
    MemberRowsApart(key, member);
    var after, i := ZdelRows(rows, key, member), Index(rows, key) - {member};
    forall k ensures IndexAt(after, key, i, k) { assert IndexAt(rows, key, Index(rows, key), k); }
    IndexUnique(after, key, i);
  }
}
