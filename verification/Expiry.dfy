/**
  The key-expiry engine as a state machine. One state holds the visible keys,
  the persistent expiry index (deadline per key), the in-memory window over that
  index (`ExpireManager::sort_set`) and `first_timeout`. Every Redis command and
  every `ExpireLoop` call is one atomic step.
  */
module Expiry {
  import opened Decimal
  import opened Entries

  const BATCH_SIZE: nat := 1000

  datatype State = State(kv: map<string, string>, index: Scores, window: Scores, firstTimeout: int)

  datatype Step =
    | Set(key: string, val: string)
    | SetEx(key: string, val: string, deadline: int)
    | Expire(key: string, deadline: int)
    | Del(key: string)
    | Tick(now: int)

  /** Deadlines the index scan of `LoadExpirationKeys` can see. */
  predicate Loadable(score: int) {
    0 <= score < INT64_MAX
  }

  ghost function LoadableEntries(index: Scores): Scores {
    map k | k in index && Loadable(index[k]) :: index[k]
  }

  ghost function MaxScore(window: Scores): int
    requires window != map[]
  {
    window[Greatest(window)]
  }

  // ---- The steps --------------------------------------------------------------

  ghost function TrackedWindow(window: Scores, key: string, ttl: int): Scores {
    if window != map[] && ttl <= MaxScore(window) then
      var w := window[key := ttl];
      if |w| > BATCH_SIZE then w - {Greatest(w)} else w
    else
      window - {key}
  }

  /** `ExpireManager::SetTTL` */
  ghost function SetTTL(s: State, key: string, ttl: int): State {
    s.(window := TrackedWindow(s.window, key, ttl),
       firstTimeout := if ttl < s.firstTimeout then ttl else s.firstTimeout)
  }

  /** `Zset` writes unless the member name is empty or the score is already stored. */
  predicate ZsetWrites(index: Scores, key: string, ttl: int) {
    key != "" && !(key in index && index[key] == ttl)
  }

  function DoSet(s: State, key: string, val: string): State {
    s.(kv := s.kv[key := val])
  }

  function DoDel(s: State, key: string): State {
    s.(kv := s.kv - {key})
  }

  ghost function DoSetEx(s: State, key: string, val: string, ttl: int): State {
    var s1 := SetTTL(s.(kv := s.kv[key := val]), key, ttl);
    if ZsetWrites(s1.index, key, ttl) then
      SetTTL(s1.(index := s1.index[key := ttl]), key, ttl)
    else
      s1
  }

  ghost function DoExpire(s: State, key: string, ttl: int): State {
    if key in s.kv && ZsetWrites(s.index, key, ttl) then
      SetTTL(s.(index := s.index[key := ttl]), key, ttl)
    else
      s
  }

  ghost function Reload(s: State): State {
    if s.window == map[] then
      s.(window := FirstEntries(LoadableEntries(s.index), BATCH_SIZE))
    else s
  }

  /** `Zdel` refuses the empty member name. */
  function ZdelIndex(index: Scores, key: string): Scores {
    if key == "" then index else index - {key}
  }

  /** `ExpireManager::ExpireLoop` with the clock reading `now`. */
  ghost function ExpireLoop(s: State, now: int): State {
    var r := Reload(s);
    if r.window == map[] then r.(firstTimeout := INT64_MAX)
    else
      var k := Least(r.window);
      var score := r.window[k];
      if score <= now then State(r.kv - {k}, ZdelIndex(r.index, k), r.window - {k}, score)
      else r.(firstTimeout := score)
  }

  ghost function Do(s: State, step: Step): State {
    match step
    case Set(key, val) => DoSet(s, key, val)
    case SetEx(key, val, deadline) => DoSetEx(s, key, val, deadline)
    case Expire(key, deadline) => DoExpire(s, key, deadline)
    case Del(key) => DoDel(s, key)
    case Tick(now) => ExpireLoop(s, now)
  }

  ghost function Run(s: State, steps: seq<Step>): State
    decreases |steps|
  {
    if steps == [] then s else Run(Do(s, steps[0]), steps[1..])
  }

  /** The engine starts with an empty window over whatever index the disk holds. */
  function Start(kv: map<string, string>, index: Scores): State {
    State(kv, index, map[], 0)
  }

  // ---- The cache invariant ------------------------------------------------------

  ghost predicate ValidIndex(index: Scores) {
    "" !in index && forall k | k in index :: IsInt64(index[k])
  }

  /** Entries whose deadline the engine will act on without another command. */
  ghost predicate Tracked(s: State, k: string) {
    k in s.index && (k in s.window || Loadable(s.index[k]))
  }

  /** A window entry has exactly its index score. */
  ghost predicate AgreesAt(s: State, k: string) {
    k in s.window ==> k in s.index && s.window[k] == s.index[k]
  }

  /** An entry left out of a non-empty window is no earlier than the latest entry in it. */
  ghost predicate EarliestAt(s: State, k: string) {
    s.window != map[] && Tracked(s, k) && k !in s.window ==> MaxScore(s.window) <= s.index[k]
  }

  /** `first_timeout` is no later than any tracked deadline. */
  ghost predicate TimeoutAt(s: State, k: string) {
    Tracked(s, k) ==> s.firstTimeout <= s.index[k]
  }

  ghost predicate WindowAgrees(s: State) {
    forall k :: AgreesAt(s, k)
  }

  ghost predicate WindowIsEarliest(s: State) {
    forall k :: EarliestAt(s, k)
  }

  ghost predicate TimeoutIsEarly(s: State) {
    forall k :: TimeoutAt(s, k)
  }

  ghost predicate Inv(s: State) {
    && ValidIndex(s.index)
    && WindowAgrees(s)
    && WindowIsEarliest(s)
    && |s.window| <= BATCH_SIZE
    && TimeoutIsEarly(s)
  }

  /** Commands the Redis front end can issue: argument strings are never empty, deadlines are int64. */
  predicate Issuable(step: Step) {
    match step
    case SetEx(key, _, deadline) => key != "" && IsInt64(deadline)
    case Expire(_, deadline) => IsInt64(deadline)
    case _ => true
  }

  lemma StartInv(kv: map<string, string>, index: Scores)
    requires ValidIndex(index)
    ensures Inv(Start(kv, index))
  {
  }

  lemma {:induction false} MaxScoreBounds(window: Scores)
    requires window != map[]
    ensures forall k | k in window :: window[k] <= MaxScore(window)
  {
    var g := Greatest(window);
    forall k | k in window ensures window[k] <= MaxScore(window) {
      assert Precedes(window, k, g);
    }
  }

  /** What `SetTTL` does to the window, said without the branches. */
  lemma TrackedWindowFacts(window: Scores, key: string, ttl: int)
    requires |window| <= BATCH_SIZE
    ensures var w := TrackedWindow(window, key, ttl);
            && |w| <= BATCH_SIZE
            && w.Keys <= window.Keys + {key}
            && (forall k | k in w :: w[k] == if k == key then ttl else window[k])
            && (w != map[] ==>
                  && window != map[]
                  && MaxScore(w) <= MaxScore(window)
                  && (forall k | k in window && k !in w && k != key :: MaxScore(w) <= window[k])
                  && (key !in w ==> MaxScore(w) <= ttl))
  {
    var w := TrackedWindow(window, key, ttl);
    if window != map[] && ttl <= MaxScore(window) {
      MaxScoreBounds(window);
      var full := window[key := ttl];
      MaxScoreBounds(full);
      assert full.Keys == window.Keys + {key};
      if |full| > BATCH_SIZE {
        var g := Greatest(full);
        assert w == full - {g} && w.Keys == full.Keys - {g};
        assert forall k | k in w :: full[k] <= full[g];
      }
      if w != map[] { MaxScoreBounds(w); }
    } else {
      assert w == window - {key};
      assert |w| <= |window| by { assert w.Keys <= window.Keys; SubsetSize(w.Keys, window.Keys); }
      if w != map[] { MaxScoreBounds(w); MaxScoreBounds(window); }
    }
  }

  lemma SubsetSize<T>(a: set<T>, b: set<T>)
    requires a <= b
    ensures |a| <= |b|
  {
    assert |b| == |a| + |b - a| by { assert b == a + (b - a); }
  }

  lemma SetTTLKeepsTimeout(s: State, key: string, ttl: int)
    requires Inv(s)
    ensures TimeoutIsEarly(SetTTL(s.(index := s.index[key := ttl]), key, ttl))
  {
    TrackedWindowFacts(s.window, key, ttl);
    var t := SetTTL(s.(index := s.index[key := ttl]), key, ttl);
    forall k ensures TimeoutAt(t, k) { assert TimeoutAt(s, k); }
  }

  lemma SetTTLKeepsWindow(s: State, key: string, ttl: int)
    requires Inv(s)
    ensures WindowIsEarliest(SetTTL(s.(index := s.index[key := ttl]), key, ttl))
    ensures WindowAgrees(SetTTL(s.(index := s.index[key := ttl]), key, ttl))
  {
    TrackedWindowFacts(s.window, key, ttl);
    var t := SetTTL(s.(index := s.index[key := ttl]), key, ttl);
    forall k ensures AgreesAt(t, k) { assert AgreesAt(s, k); }
    forall k ensures EarliestAt(t, k) { assert EarliestAt(s, k) && AgreesAt(s, k); }
  }

  /** Recording a deadline in the index and telling the window about it keeps the invariant. */
  lemma SetTTLKeepsInv(s: State, key: string, ttl: int)
    requires Inv(s) && IsInt64(ttl) && key != ""
    ensures Inv(SetTTL(s.(index := s.index[key := ttl]), key, ttl))
  {
    TrackedWindowFacts(s.window, key, ttl);
    SetTTLKeepsTimeout(s, key, ttl);
    SetTTLKeepsWindow(s, key, ttl);
  }

  lemma InvIgnoresKv(s: State, kv: map<string, string>)
    requires Inv(s)
    ensures Inv(s.(kv := kv))
  {
    var t := s.(kv := kv);
    forall k ensures AgreesAt(t, k) && EarliestAt(t, k) && TimeoutAt(t, k) {
      assert AgreesAt(s, k) && EarliestAt(s, k) && TimeoutAt(s, k);
    }
  }

  lemma SetExKeepsInv(s: State, key: string, val: string, ttl: int)
    requires Inv(s) && IsInt64(ttl) && key != ""
    ensures Inv(DoSetEx(s, key, val, ttl))
  {
    // The window is told before the index; both orders give the same state.
    var s0 := s.(kv := s.kv[key := val]);
    InvIgnoresKv(s, s.kv[key := val]);
    SetTTLKeepsInv(s0, key, ttl);
    var s1 := SetTTL(s0.(index := s.index[key := ttl]), key, ttl);
    if ZsetWrites(s.index, key, ttl) {
      SetTTLKeepsInv(s1, key, ttl);
      RewriteSame(s1.index, key);
    } else {
      RewriteSame(s.index, key);
    }
  }

  lemma RewriteSame(m: Scores, k: string)
    requires k in m
    ensures m[k := m[k]] == m
  {
  }

  /** A reload changes which entries are cached but not which are tracked. */
  lemma ReloadTracks(s: State)
    requires Inv(s)
    ensures forall k :: Tracked(Reload(s), k) == Tracked(s, k)
    ensures Reload(s).window == map[] ==> LoadableEntries(s.index) == map[]
  {
    if s.window == map[] {
      FirstEntriesAreFirst(LoadableEntries(s.index), BATCH_SIZE);
    }
  }

  lemma ReloadKeepsInv(s: State)
    requires Inv(s)
    ensures Inv(Reload(s))
  {
    if s.window == map[] {
      var m := LoadableEntries(s.index);
      var r := Reload(s);
      FirstEntriesAreFirst(m, BATCH_SIZE);
      forall k ensures AgreesAt(r, k) && TimeoutAt(r, k) && EarliestAt(r, k) {
        assert TimeoutAt(s, k);
        if r.window != map[] && Tracked(r, k) && k !in r.window {
          assert Precedes(m, Greatest(r.window), k);
        }
      }
    }
  }

  /** After a reload, the front of the window has the earliest deadline of all tracked entries. */
  lemma FrontIsEarliest(r: State, k: string)
    requires Inv(r) && r.window != map[] && Tracked(r, k)
    ensures r.window[Least(r.window)] <= r.index[k]
  {
    var f := Least(r.window);
    MaxScoreBounds(r.window);
    assert EarliestAt(r, k) && AgreesAt(r, k);
    if k in r.window { assert Precedes(r.window, f, k); }
  }

  /** Dropping the front and moving `first_timeout` up to it keeps the invariant. */
  lemma PopFrontKeepsInv(r: State, t: State)
    requires Inv(r) && r.window != map[] && Least(r.window) != ""
    requires var f := Least(r.window);
             t == State(r.kv - {f}, r.index - {f}, r.window - {f}, r.window[f])
    ensures Inv(t)
  {
    var f := Least(r.window);
    assert t.window.Keys <= r.window.Keys;
    SubsetSize(t.window.Keys, r.window.Keys);
    MaxScoreBounds(r.window);
    forall k ensures AgreesAt(t, k) && TimeoutAt(t, k) && EarliestAt(t, k) {
      assert AgreesAt(r, k) && EarliestAt(r, k);
      if Tracked(r, k) { FrontIsEarliest(r, k); }
    }
  }

  lemma FrontTimeoutKeepsInv(r: State)
    requires Inv(r) && r.window != map[]
    ensures Inv(r.(firstTimeout := r.window[Least(r.window)]))
  {
    var t := r.(firstTimeout := r.window[Least(r.window)]);
    forall k ensures AgreesAt(t, k) && TimeoutAt(t, k) && EarliestAt(t, k) {
      assert AgreesAt(r, k) && EarliestAt(r, k);
      if Tracked(r, k) { FrontIsEarliest(r, k); }
    }
  }

  lemma FrontIsNamed(r: State)
    requires Inv(r) && r.window != map[]
    ensures Least(r.window) != "" && Least(r.window) in r.index
  {
    assert AgreesAt(r, Least(r.window));
  }

  lemma NothingTracked(s: State)
    requires Inv(s) && Reload(s).window == map[]
    ensures Inv(Reload(s).(firstTimeout := INT64_MAX))
  {
    ReloadTracks(s);
    var t := Reload(s).(firstTimeout := INT64_MAX);
    forall k ensures AgreesAt(t, k) && TimeoutAt(t, k) && EarliestAt(t, k) {
      assert k in s.index && Loadable(s.index[k]) ==> k in LoadableEntries(s.index);
    }
  }

  lemma ExpireLoopKeepsInv(s: State, now: int)
    requires Inv(s)
    ensures Inv(ExpireLoop(s, now))
  {
    ReloadKeepsInv(s);
    var r := Reload(s);
    if r.window == map[] {
      NothingTracked(s);
    } else {
      FrontIsNamed(r);
      if r.window[Least(r.window)] <= now {
        PopFrontKeepsInv(r, ExpireLoop(s, now));
      } else {
        FrontTimeoutKeepsInv(r);
      }
    }
  }

  lemma DoKeepsInv(s: State, step: Step)
    requires Inv(s) && Issuable(step)
    ensures Inv(Do(s, step))
  {
    match step
    case Set(key, val) => InvIgnoresKv(s, s.kv[key := val]);
    case Del(key) => InvIgnoresKv(s, s.kv - {key});
    case SetEx(key, val, deadline) => SetExKeepsInv(s, key, val, deadline);
    case Expire(key, deadline) =>
      if key in s.kv && ZsetWrites(s.index, key, deadline) { SetTTLKeepsInv(s, key, deadline); }
    case Tick(now) => ExpireLoopKeepsInv(s, now);
  }

  /** The window agrees with the index it caches after every run of commands and expiry steps. */
  lemma {:induction false} RunKeepsInv(s: State, steps: seq<Step>)
    requires Inv(s) && forall i | 0 <= i < |steps| :: Issuable(steps[i])
    ensures Inv(Run(s, steps))
    decreases |steps|
  {
    if steps != [] {
      DoKeepsInv(s, steps[0]);
      RunKeepsInv(Do(s, steps[0]), steps[1..]);
    }
  }

  // ---- Running to quiescence --------------------------------------------------------

  ghost function Work(s: State, now: int): nat {
    |s.index| + if s.firstTimeout <= now then 1 else 0
  }

  lemma ExpireLoopProgress(s: State, now: int)
    requires Inv(s) && s.firstTimeout <= now < INT64_MAX
    ensures Work(ExpireLoop(s, now), now) < Work(s, now)
  {
    ReloadKeepsInv(s);
    var r := Reload(s);
    if r.window != map[] && r.window[Least(r.window)] <= now {
      FrontIsNamed(r);
      SizeOfRemoval(s.index, Least(r.window));
    }
  }

  lemma SizeOfRemoval(m: Scores, k: string)
    requires k in m
    ensures |m - {k}| == |m| - 1
  {
    assert (m - {k}).Keys == m.Keys - {k};
  }

  /** The loop of `Dispatch` at a fixed clock: call `ExpireLoop` until the next timeout lies ahead. */
  ghost function Quiesce(s: State, now: int): State
    requires Inv(s) && now < INT64_MAX
    decreases Work(s, now)
  {
    if s.firstTimeout > now then s
    else
      ExpireLoopKeepsInv(s, now);
      ExpireLoopProgress(s, now);
      Quiesce(ExpireLoop(s, now), now)
  }

  ghost function Ticks(s: State, now: int, n: nat): State
    decreases n
  {
    if n == 0 then s else Ticks(ExpireLoop(s, now), now, n - 1)
  }

  /** The loop of `Dispatch` makes exactly `n` calls of `ExpireLoop` before it sleeps. */
  ghost predicate QuietIn(s: State, now: int, n: nat)
    decreases n
  {
    (s.firstTimeout <= now <==> n > 0) && (n > 0 ==> QuietIn(ExpireLoop(s, now), now, n - 1))
  }

  lemma {:induction false} QuiesceInSteps(s: State, now: int) returns (n: nat)
    requires Inv(s) && now < INT64_MAX
    ensures QuietIn(s, now, n) && Ticks(s, now, n) == Quiesce(s, now)
    decreases Work(s, now)
  {
    if s.firstTimeout > now {
      n := 0;
    } else {
      ExpireLoopKeepsInv(s, now);
      ExpireLoopProgress(s, now);
      n := QuiesceInSteps(ExpireLoop(s, now), now);
      n := n + 1;
    }
  }

  /** The keys whose tracked deadline has passed. */
  ghost function Due(s: State, now: int): set<string> {
    set k | k in s.index && Tracked(s, k) && s.index[k] <= now :: k
  }

  /** The keys one expiry step removes: the front of the window, if its deadline has passed. */
  ghost function Removed(s: State, now: int): set<string> {
    var w := Reload(s).window;
    if w != map[] && w[Least(w)] <= now then {Least(w)} else {}
  }

  lemma ExpireLoopRemoves(s: State, now: int)
    requires Reload(s).window != map[] ==> Least(Reload(s).window) != ""
    ensures ExpireLoop(s, now).kv == s.kv - Removed(s, now)
    ensures ExpireLoop(s, now).index == s.index - Removed(s, now)
    ensures ExpireLoop(s, now).window == Reload(s).window - Removed(s, now)
  {
    RemoveNone(s.kv);
    RemoveNone(s.index);
    RemoveNone(Reload(s).window);
  }

  lemma RemoveNone<V>(m: map<string, V>)
    ensures m - {} == m
  {
  }

  lemma ExpireLoopRemovesNamed(s: State, now: int)
    requires Inv(s)
    ensures ExpireLoop(s, now).kv == s.kv - Removed(s, now)
    ensures ExpireLoop(s, now).index == s.index - Removed(s, now)
    ensures forall k :: Tracked(ExpireLoop(s, now), k) <==> Tracked(s, k) && k !in Removed(s, now)
    ensures forall k | k in Removed(s, now) :: Tracked(s, k) && s.index[k] <= now
  {
    ReloadKeepsInv(s);
    ReloadTracks(s);
    var r, t, gone := Reload(s), ExpireLoop(s, now), Removed(s, now);
    if r.window != map[] { FrontIsNamed(r); }
    ExpireLoopRemoves(s, now);
    forall k ensures Tracked(t, k) <==> Tracked(s, k) && k !in gone {
      assert Tracked(r, k) == Tracked(s, k);
    }
    forall k | k in gone ensures Tracked(s, k) && s.index[k] <= now {
      assert Tracked(r, k) == Tracked(s, k) && AgreesAt(r, k);
    }
  }

  /** One expiry step removes at most one key, and only a due one; what it leaves is still tracked. */
  lemma ExpireLoopRemovesDue(s: State, now: int)
    requires Inv(s)
    ensures Removed(s, now) <= Due(s, now)
    ensures Due(ExpireLoop(s, now), now) == Due(s, now) - Removed(s, now)
    ensures ExpireLoop(s, now).kv == s.kv - Removed(s, now)
    ensures ExpireLoop(s, now).index == s.index - Removed(s, now)
  {
    ExpireLoopRemovesNamed(s, now);
  }

  /**
    Run to quiescence removes from the visible keys and from the index exactly
    the keys whose tracked deadline has passed, across any number of reloads,
    and leaves the invariant in place.
    */
  lemma {:induction false} QuiesceRemovesDue(s: State, now: int)
    requires Inv(s) && now < INT64_MAX
    ensures var q := Quiesce(s, now);
            && Inv(q) && q.firstTimeout > now
            && q.kv == s.kv - Due(s, now)
            && q.index == s.index - Due(s, now)
            && Due(q, now) == {}
    decreases Work(s, now)
  {
    if s.firstTimeout > now {
      NothingDue(s, now);
    } else {
      ExpireLoopKeepsInv(s, now);
      ExpireLoopProgress(s, now);
      ExpireLoopRemovesDue(s, now);
      var gone := Removed(s, now);
      var t := ExpireLoop(s, now);
      QuiesceRemovesDue(t, now);
      RemoveTwice(s.kv, gone, Due(s, now));
      RemoveTwice(s.index, gone, Due(s, now));
    }
  }

  lemma NothingDue(s: State, now: int)
    requires Inv(s) && s.firstTimeout > now
    ensures Due(s, now) == {} && s.kv - Due(s, now) == s.kv && s.index - Due(s, now) == s.index
  {
    forall k ensures k !in Due(s, now) { assert TimeoutAt(s, k); }
    RemoveNone(s.kv);
    RemoveNone(s.index);
  }

  lemma RemoveTwice<V>(m: map<string, V>, a: set<string>, b: set<string>)
    requires a <= b
    ensures (m - a) - (b - a) == m - b
  {
  }

  ghost function Expired(s: State, now: int): set<string> {
    set k | k in s.index && s.index[k] <= now
  }

  ghost predicate NoLostDeadline(s: State, now: int) {
    forall k | k in s.index && k !in s.window && s.index[k] <= now :: 0 <= s.index[k]
  }

  lemma DueIsExpiredIff(s: State, now: int)
    requires now < INT64_MAX
    ensures Due(s, now) <= Expired(s, now)
    ensures Due(s, now) == Expired(s, now) <==> NoLostDeadline(s, now)
  {
    if !NoLostDeadline(s, now) {
      var k :| k in s.index && k !in s.window && s.index[k] <= now && s.index[k] < 0;
      assert k !in Due(s, now) && k in Expired(s, now);
    }
  }

  lemma RemovedSetsAgree(index: Scores, a: set<string>, b: set<string>)
    requires a <= b <= index.Keys
    ensures index - a == index - b <==> a == b
  {
    if index - a == index - b {
      assert (index - a).Keys == index.Keys - a && (index - b).Keys == index.Keys - b;
    }
  }

  /**
    Every key past its deadline is removed, and no other, if and only if no
    negative deadline that has passed sits in the index outside the window.
    */
  lemma QuiesceIsExactIff(s: State, now: int)
    requires Inv(s) && now < INT64_MAX
    ensures Quiesce(s, now).index == s.index - Expired(s, now) <==> NoLostDeadline(s, now)
  {
    QuiesceRemovesDue(s, now);
    DueIsExpiredIff(s, now);
    RemovedSetsAgree(s.index, Due(s, now), Expired(s, now));
  }

  predicate NonNegative(step: Step) {
    match step
    case SetEx(_, _, deadline) => deadline >= 0
    case Expire(_, deadline) => deadline >= 0
    case _ => true
  }

  ghost predicate NoNegative(index: Scores) {
    forall k | k in index :: 0 <= index[k]
  }

  lemma DoKeepsNonNegative(s: State, step: Step)
    requires NonNegative(step) && NoNegative(s.index)
    ensures NoNegative(Do(s, step).index)
  {
  }

  lemma {:induction false} RunKeepsNonNegative(s: State, steps: seq<Step>)
    requires Inv(s) && forall i | 0 <= i < |steps| :: Issuable(steps[i]) && NonNegative(steps[i])
    requires NoNegative(s.index)
    ensures NoNegative(Run(s, steps).index)
    decreases |steps|
  {
    if steps != [] {
      DoKeepsInv(s, steps[0]);
      DoKeepsNonNegative(s, steps[0]);
      RunKeepsNonNegative(Do(s, steps[0]), steps[1..]);
    }
  }

  /**
    From the disk state the server starts with, after any commands whose
    deadlines are not negative, letting the expiry thread run removes exactly
    the keys whose deadline has passed.
    */
  lemma ExpiryIsExact(kv: map<string, string>, index: Scores, steps: seq<Step>, now: int)
    requires ValidIndex(index) && NoNegative(index)
    requires forall i | 0 <= i < |steps| :: Issuable(steps[i]) && NonNegative(steps[i])
    requires now < INT64_MAX
    ensures Inv(Run(Start(kv, index), steps))
    ensures var s := Run(Start(kv, index), steps);
            var q := Quiesce(s, now);
            q.kv == s.kv - Expired(s, now) && q.index == s.index - Expired(s, now)
  {
    StartInv(kv, index);
    RunKeepsInv(Start(kv, index), steps);
    RunKeepsNonNegative(Start(kv, index), steps);
    var s := Run(Start(kv, index), steps);
    QuiesceRemovesDue(s, now);
    DueIsExpiredIff(s, now);
  }

  /** A deadline before the epoch, given while the window is empty, is not acted on at any time. */
  lemma NegativeDeadlineIsMissed(now: int)
    requires 0 <= now < INT64_MAX
    ensures var s := Run(Start(map[], map[]), [SetEx("a", "v", -1)]);
            && Inv(s)
            && Quiesce(s, now).kv == s.kv && "a" in s.kv && s.index["a"] <= now
  {
    var s0 := Start(map[], map[]);
    var step := SetEx("a", "v", -1);
    StartInv(map[], map[]);
    DoKeepsInv(s0, step);
    var s := Do(s0, step);
    assert Run(s0, [step]) == s by { assert [step][1..] == []; assert Run(s, []) == s; }
    QuiesceRemovesDue(s, now);
    assert s.window == map[] && s.index == map["a" := -1];
    assert Due(s, now) == {};
  }

  /** The empty key stays in the window it is put into: it precedes every key of the same score. */
  lemma EmptyKeyStays(window: Scores, ttl: int)
    requires window != map[] && "" !in window && ttl <= MaxScore(window)
    ensures "" in TrackedWindow(window, "", ttl)
  {
    var w, g := window["" := ttl], Greatest(window);
    assert g in w && w[g] == MaxScore(window) && g != "";
    assert Precedes(w, "", g) && !Precedes(w, g, "");
  }

  lemma EarlierTimeoutKeepsInv(s: State, kv: map<string, string>, timeout: int)
    requires Inv(s) && timeout <= s.firstTimeout
    ensures Inv(s.(kv := kv, firstTimeout := timeout))
  {
    var t := s.(kv := kv, firstTimeout := timeout);
    forall k ensures AgreesAt(t, k) { assert AgreesAt(s, k); }
    forall k ensures EarliestAt(t, k) { assert EarliestAt(s, k); }
    forall k ensures TimeoutAt(t, k) { assert TimeoutAt(s, k); }
  }

  /**
    `set` with a deadline and the empty key, which the index refuses: window and
    index still agree if and only if the window does not take the key, because
    it is empty or the deadline lies behind all of it.
    */
  lemma EmptyKeyIff(s: State, val: string, ttl: int)
    requires Inv(s)
    ensures Inv(DoSetEx(s, "", val, ttl)) <==> s.window == map[] || MaxScore(s.window) < ttl
  {
    var t := DoSetEx(s, "", val, ttl);
    assert AgreesAt(s, "");
    if s.window != map[] && ttl <= MaxScore(s.window) {
      EmptyKeyStays(s.window, ttl);
      assert !AgreesAt(t, "");
    } else {
      assert s.window - {""} == s.window;
      EarlierTimeoutKeepsInv(s, t.kv, t.firstTimeout);
      assert t == s.(kv := t.kv, firstTimeout := t.firstTimeout);
    }
  }

  /** `flushall` empties the store but not the window: the two still agree exactly when the window was empty. */
  lemma FlushallIff(s: State)
    requires Inv(s)
    ensures Inv(s.(kv := map[], index := map[])) <==> s.window == map[]
  {
    var t := s.(kv := map[], index := map[]);
    if s.window != map[] {
      var k :| k in s.window;
      assert !AgreesAt(t, k);
    }
  }

  lemma OneDeadline(key: string, val: string, ttl: int)
    requires key != ""
    ensures var s := DoSetEx(Start(map[], map[]), key, val, ttl);
            s.kv == map[key := val] && s.index == map[key := ttl] && s.window == map[]
  {
  }

  lemma OneEntryIsLoaded(key: string, ttl: int)
    requires Loadable(ttl)
    ensures FirstEntries(LoadableEntries(map[key := ttl]), BATCH_SIZE) == map[key := ttl]
  {
    hide FirstEntries;
    var m := map[key := ttl];
    assert LoadableEntries(m) == m;
    FirstEntriesAreFirst(m, BATCH_SIZE);
    var r := FirstEntries(m, BATCH_SIZE);
    assert m.Keys == {key};
    assert |m| == 1;
    assert r == map[] || key in r;
  }

  lemma WaitingDeadlineIsLoaded(s: State, key: string, ttl: int, now: int)
    requires s.index == map[key := ttl] && s.window == map[] && now < ttl && Loadable(ttl)
    ensures ExpireLoop(s, now) == s.(window := map[key := ttl], firstTimeout := ttl)
  {
    hide FirstEntries, Least, LoadableEntries;
    OneEntryIsLoaded(key, ttl);
    var w := map[key := ttl];
    assert key in w && w != map[];
    assert Reload(s) == s.(window := w);
    assert Least(w) in w;
  }

  lemma TwoSteps(s: State, a: Step, b: Step)
    ensures Run(s, [a, b]) == Do(Do(s, a), b)
  {
    hide Do;
    assert [a, b][1..] == [b] && [b][1..] == [];
    assert Run(Do(s, a), [b]) == Run(Do(Do(s, a), b), []);
  }

  /**
    Such states are reached: after one `set` with a deadline that lies ahead and
    one turn of the loop, `flushall` breaks the invariant.
    */
  lemma FlushallWitness(key: string, val: string, ttl: int, now: int)
    requires key != "" && 0 <= now < ttl < INT64_MAX
    ensures var s := Run(Start(map[], map[]), [SetEx(key, val, ttl), Tick(now)]);
            Inv(s) && s.window == map[key := ttl] && !Inv(s.(kv := map[], index := map[]))
  {
    hide ExpireLoop, DoSetEx, Run, Inv;
    var s0 := Start(map[], map[]);
    var a, b := SetEx(key, val, ttl), Tick(now);
    StartInv(map[], map[]);
    RunKeepsInv(s0, [a, b]);
    TwoSteps(s0, a, b);
    OneDeadline(key, val, ttl);
    WaitingDeadlineIsLoaded(Do(s0, a), key, ttl, now);
    FlushallIff(Do(Do(s0, a), b));
  }
}
