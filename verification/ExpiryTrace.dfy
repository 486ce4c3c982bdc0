/**
  What a client sees of the expiry engine, told from the trace of commands and
  expiry steps alone: which deadline and which value a key has is decided by
  the last step that named the key and by the removals behind it.
  */
module ExpiryTrace {
  import opened Decimal
  import opened Entries
  import opened Expiry

  /** The state after the first `i` steps. */
  ghost function After(s: State, steps: seq<Step>, i: nat): State
    requires i <= |steps|
  {
    Run(s, steps[..i])
  }

  ghost predicate AllIssuable(steps: seq<Step>) {
    forall i | 0 <= i < |steps| :: Issuable(steps[i])
  }

  // ---- What a step does to one key ----------------------------------------------------------

  /** The command gives `k` a deadline: `set` with one always does, `expire` only to a key that is there. */
  predicate Schedules(step: Step, there: bool, k: string) {
    match step
    case SetEx(key, _, _) => key == k && k != ""
    case Expire(key, _) => key == k && k != "" && there
    case _ => false
  }

  function DeadlineIn(step: Step): int
    requires step.SetEx? || step.Expire?
  {
    step.deadline
  }

  /** The command writes or deletes the value of `k`. */
  predicate Writes(step: Step, k: string) {
    match step
    case Set(key, _) => key == k
    case SetEx(key, _, _) => key == k
    case Del(key) => key == k
    case _ => false
  }

  /** What it leaves there: a value, unless it deletes. */
  predicate Leaves(step: Step, v: string) {
    match step
    case Set(_, val) => val == v
    case SetEx(_, val, _) => val == v
    case _ => false
  }

  ghost predicate HasDeadline(s: State, k: string, d: int) {
    k in s.index && s.index[k] == d
  }

  ghost predicate HasValue(s: State, k: string, v: string) {
    k in s.kv && s.kv[k] == v
  }

  /** An expiry step that takes the deadline of `k` away. */
  ghost predicate Takes(s: State, step: Step, k: string) {
    step.Tick? && k in s.index && k !in Do(s, step).index
  }

  lemma TickEffect(s: State, now: int, k: string)
    requires Inv(s)
    ensures var t := ExpireLoop(s, now);
            && (Takes(s, Tick(now), k) ==> k !in t.kv && s.index[k] <= now)
            && (!Takes(s, Tick(now), k) ==>
                  && (k in t.index <==> k in s.index) && (k in s.index ==> t.index[k] == s.index[k])
                  && (k in t.kv <==> k in s.kv) && (k in s.kv ==> t.kv[k] == s.kv[k]))
  {
    hide ExpireLoop, Removed;
    ExpireLoopRemovesDue(s, now);
  }

  lemma DeadlineEffect(s: State, step: Step, k: string, d: int)
    requires Inv(s) && Issuable(step)
    ensures HasDeadline(Do(s, step), k, d) <==>
            if Schedules(step, k in s.kv, k) then DeadlineIn(step) == d
            else HasDeadline(s, k, d) && !Takes(s, step, k)
  {
    hide ExpireLoop, Inv;
    if step.Tick? { TickEffect(s, step.now, k); }
  }

  lemma ValueEffect(s: State, step: Step, k: string, v: string)
    requires Inv(s) && Issuable(step)
    ensures HasValue(Do(s, step), k, v) <==>
            if Writes(step, k) then Leaves(step, v) else HasValue(s, k, v) && !Takes(s, step, k)
  {
    hide ExpireLoop, Inv;
    if step.Tick? { TickEffect(s, step.now, k); }
  }

  // ---- Along a trace ----------------------------------------------------------------------------

  ghost predicate SchedulesAt(s: State, steps: seq<Step>, i: nat, k: string)
    requires i < |steps|
  {
    Schedules(steps[i], k in After(s, steps, i).kv, k)
  }

  ghost predicate TakesAt(s: State, steps: seq<Step>, i: nat, k: string)
    requires i < |steps|
  {
    Takes(After(s, steps, i), steps[i], k)
  }

  /** Behind step `i` and up to step `to`, `k` gets no deadline and loses none. */
  ghost predicate DeadlineRests(s: State, steps: seq<Step>, i: int, to: nat, k: string)
    requires to <= |steps|
  {
    forall j: nat | i < j < to :: !SchedulesAt(s, steps, j, k) && !TakesAt(s, steps, j, k)
  }

  ghost predicate ValueRests(s: State, steps: seq<Step>, i: int, to: nat, k: string)
    requires to <= |steps|
  {
    forall j: nat | i < j < to :: !Writes(steps[j], k) && !TakesAt(s, steps, j, k)
  }

  /** Step `i` gives `k` the deadline `d`, which then rests. */
  ghost predicate DeadlineFrom(s: State, steps: seq<Step>, i: nat, n: nat, k: string, d: int)
    requires i < n <= |steps|
  {
    SchedulesAt(s, steps, i, k) && DeadlineIn(steps[i]) == d && DeadlineRests(s, steps, i, n, k)
  }

  /** The last command that scheduled `k` said `d`, and no expiry step has taken it since. */
  ghost predicate LastScheduled(s: State, steps: seq<Step>, n: nat, k: string, d: int)
    requires n <= |steps|
  {
    || (DeadlineRests(s, steps, -1, n, k) && HasDeadline(s, k, d))
    || exists i: nat | i < n :: DeadlineFrom(s, steps, i, n, k, d)
  }

  /** Step `i` leaves `v` under `k`, which then rests. */
  ghost predicate ValueFrom(s: State, steps: seq<Step>, i: nat, n: nat, k: string, v: string)
    requires i < n <= |steps|
  {
    Writes(steps[i], k) && Leaves(steps[i], v) && ValueRests(s, steps, i, n, k)
  }

  /** The last command that wrote `k` left `v`, and no expiry step has taken it since. */
  ghost predicate LastWritten(s: State, steps: seq<Step>, n: nat, k: string, v: string)
    requires n <= |steps|
  {
    || (ValueRests(s, steps, -1, n, k) && HasValue(s, k, v))
    || exists i: nat | i < n :: ValueFrom(s, steps, i, n, k, v)
  }

  lemma {:induction false} RunSnoc(s: State, steps: seq<Step>, step: Step)
    ensures Run(s, steps + [step]) == Do(Run(s, steps), step)
    decreases |steps|
  {
    hide Do;
    if steps == [] {
      assert steps + [step] == [step] && [step][1..] == [];
      assert Run(Do(s, step), []) == Do(s, step);
    } else {
      assert (steps + [step])[1..] == steps[1..] + [step];
      RunSnoc(Do(s, steps[0]), steps[1..], step);
    }
  }

  lemma AfterNext(s: State, steps: seq<Step>, i: nat)
    requires i < |steps|
    ensures After(s, steps, i + 1) == Do(After(s, steps, i), steps[i])
  {
    hide Do, Run;
    RunSnoc(s, steps[..i], steps[i]);
    assert steps[..i + 1] == steps[..i] + [steps[i]];
  }

  lemma AfterKeepsInv(s: State, steps: seq<Step>, i: nat)
    requires Inv(s) && AllIssuable(steps) && i <= |steps|
    ensures Inv(After(s, steps, i))
  {
    RunKeepsInv(s, steps[..i]);
  }

  lemma AfterNone(s: State, steps: seq<Step>)
    ensures After(s, steps, 0) == s
  {
    assert steps[..0] == [];
  }

  lemma RestsOn(s: State, steps: seq<Step>, i: int, n: nat, k: string)
    requires i < n < |steps|
    ensures DeadlineRests(s, steps, i, n + 1, k) <==>
            DeadlineRests(s, steps, i, n, k) && !SchedulesAt(s, steps, n, k) && !TakesAt(s, steps, n, k)
    ensures ValueRests(s, steps, i, n + 1, k) <==>
            ValueRests(s, steps, i, n, k) && !Writes(steps[n], k) && !TakesAt(s, steps, n, k)
  {
  }

  lemma NothingLater(s: State, steps: seq<Step>, n: nat, k: string)
    requires n < |steps|
    ensures DeadlineRests(s, steps, n, n + 1, k) && ValueRests(s, steps, n, n + 1, k)
  {
  }

  lemma FromNext(s: State, steps: seq<Step>, i: nat, n: nat, k: string, d: int, v: string)
    requires i <= n < |steps|
    ensures DeadlineFrom(s, steps, i, n + 1, k, d) <==>
            if i == n then SchedulesAt(s, steps, n, k) && DeadlineIn(steps[n]) == d
            else DeadlineFrom(s, steps, i, n, k, d) && !SchedulesAt(s, steps, n, k) && !TakesAt(s, steps, n, k)
    ensures ValueFrom(s, steps, i, n + 1, k, v) <==>
            if i == n then Writes(steps[n], k) && Leaves(steps[n], v)
            else ValueFrom(s, steps, i, n, k, v) && !Writes(steps[n], k) && !TakesAt(s, steps, n, k)
  {
    hide SchedulesAt, TakesAt, Writes, Leaves, DeadlineRests, ValueRests;
    if i == n {
      NothingLater(s, steps, n, k);
    } else {
      RestsOn(s, steps, i, n, k);
    }
  }

  lemma LastScheduledNext(s: State, steps: seq<Step>, n: nat, k: string, d: int)
    requires n < |steps|
    ensures LastScheduled(s, steps, n + 1, k, d) <==>
            if SchedulesAt(s, steps, n, k) then DeadlineIn(steps[n]) == d
            else LastScheduled(s, steps, n, k, d) && !TakesAt(s, steps, n, k)
  {
    hide SchedulesAt, TakesAt, DeadlineRests, HasDeadline, DeadlineFrom;
    RestsOn(s, steps, -1, n, k);
    FromNext(s, steps, n, n, k, d, "");
    var m := n + 1;
    if exists i: nat | i < m :: DeadlineFrom(s, steps, i, m, k, d) {
      var i: nat :| i < m && DeadlineFrom(s, steps, i, m, k, d);
      FromNext(s, steps, i, n, k, d, "");
    }
    if exists i: nat | i < n :: DeadlineFrom(s, steps, i, n, k, d) {
      var i: nat :| i < n && DeadlineFrom(s, steps, i, n, k, d);
      FromNext(s, steps, i, n, k, d, "");
    }
  }

  lemma LastWrittenNext(s: State, steps: seq<Step>, n: nat, k: string, v: string)
    requires n < |steps|
    ensures LastWritten(s, steps, n + 1, k, v) <==>
            if Writes(steps[n], k) then Leaves(steps[n], v)
            else LastWritten(s, steps, n, k, v) && !TakesAt(s, steps, n, k)
  {
    hide Writes, Leaves, TakesAt, ValueRests, HasValue, ValueFrom;
    RestsOn(s, steps, -1, n, k);
    FromNext(s, steps, n, n, k, 0, v);
    var m := n + 1;
    if exists i: nat | i < m :: ValueFrom(s, steps, i, m, k, v) {
      var i: nat :| i < m && ValueFrom(s, steps, i, m, k, v);
      FromNext(s, steps, i, n, k, 0, v);
    }
    if exists i: nat | i < n :: ValueFrom(s, steps, i, n, k, v) {
      var i: nat :| i < n && ValueFrom(s, steps, i, n, k, v);
      FromNext(s, steps, i, n, k, 0, v);
    }
  }

  /**
    After any commands and expiry steps, `k` has the deadline `d` if and only if
    `d` is what the last command that scheduled `k` said (or what the index held
    from the start) and no expiry step has taken it since.
    */
  lemma {:induction false} DeadlineIff(s: State, steps: seq<Step>, n: nat, k: string, d: int)
    requires Inv(s) && AllIssuable(steps) && n <= |steps|
    ensures HasDeadline(After(s, steps, n), k, d) <==> LastScheduled(s, steps, n, k, d)
    decreases n
  {
    if n == 0 {
      AfterNone(s, steps);
    } else {
      hide After, Do, LastScheduled, HasDeadline, Takes;
      var m := n - 1;
      DeadlineIff(s, steps, m, k, d);
      AfterNext(s, steps, m);
      AfterKeepsInv(s, steps, m);
      DeadlineEffect(After(s, steps, m), steps[m], k, d);
      LastScheduledNext(s, steps, m, k, d);
    }
  }

  /** Likewise for the value: what the last `set` or `del` of `k` left, unless an expiry step has taken it since. */
  lemma {:induction false} ValueIff(s: State, steps: seq<Step>, n: nat, k: string, v: string)
    requires Inv(s) && AllIssuable(steps) && n <= |steps|
    ensures HasValue(After(s, steps, n), k, v) <==> LastWritten(s, steps, n, k, v)
    decreases n
  {
    if n == 0 {
      AfterNone(s, steps);
    } else {
      hide After, Do, LastWritten, HasValue, Takes;
      var m := n - 1;
      ValueIff(s, steps, m, k, v);
      AfterNext(s, steps, m);
      AfterKeepsInv(s, steps, m);
      ValueEffect(After(s, steps, m), steps[m], k, v);
      LastWrittenNext(s, steps, m, k, v);
    }
  }

  // ---- Expiry, told from the trace -----------------------------------------------------------------

  /** The last deadline `k` was given has passed. */
  ghost predicate RunOut(s: State, steps: seq<Step>, k: string, now: int) {
    exists d :: LastScheduled(s, steps, |steps|, k, d) && d <= now
  }

  lemma RunOutIff(s: State, steps: seq<Step>, k: string, now: int)
    requires Inv(s) && AllIssuable(steps)
    ensures RunOut(s, steps, k, now) <==> k in Expired(Run(s, steps), now)
  {
    hide LastScheduled, Run, Inv;
    var t := Run(s, steps);
    assert steps[..|steps|] == steps;
    forall d ensures HasDeadline(t, k, d) <==> LastScheduled(s, steps, |steps|, k, d) {
      DeadlineIff(s, steps, |steps|, k, d);
    }
    if k in t.index { assert HasDeadline(t, k, t.index[k]); }
  }

  /**
    From the disk state the server starts with, after any commands whose
    deadlines are not negative, once the expiry thread sleeps at `now`: a key has
    the value last written to it if and only if the deadline it was last given,
    if any, lies ahead; and it has that deadline if and only if it lies ahead.
    */
  lemma ExpiryOnTrace(kv: map<string, string>, index: Scores, steps: seq<Step>, now: int, k: string)
    requires ValidIndex(index) && NoNegative(index) && now < INT64_MAX
    requires AllIssuable(steps) && forall i | 0 <= i < |steps| :: NonNegative(steps[i])
    ensures Inv(Run(Start(kv, index), steps))
    ensures forall v ::
              HasValue(Quiesce(Run(Start(kv, index), steps), now), k, v) <==>
              LastWritten(Start(kv, index), steps, |steps|, k, v) && !RunOut(Start(kv, index), steps, k, now)
    ensures forall d ::
              HasDeadline(Quiesce(Run(Start(kv, index), steps), now), k, d) <==>
              LastScheduled(Start(kv, index), steps, |steps|, k, d) && now < d
  {
    hide LastScheduled, LastWritten, Run, Inv, RunOut;
    var s := Start(kv, index);
    StartInv(kv, index);
    ExpiryIsExact(kv, index, steps, now);
    assert steps[..|steps|] == steps;
    RunOutIff(s, steps, k, now);
    forall v ensures HasValue(Run(s, steps), k, v) <==> LastWritten(s, steps, |steps|, k, v) {
      ValueIff(s, steps, |steps|, k, v);
    }
    forall d ensures HasDeadline(Run(s, steps), k, d) <==> LastScheduled(s, steps, |steps|, k, d) {
      DeadlineIff(s, steps, |steps|, k, d);
    }
  }
}
