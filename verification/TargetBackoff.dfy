/** Admission and retry timing for background database access (cli/shared/target_backoff.py).
    A call that reads the clock gets its readings, in seconds, as parameters. */
module TargetBackoff {
  import opened Wrappers

  type Target = string

  datatype State = State(failures: nat, due: real, active: bool)

  type Table = map<Target, State>

  const FRESH := State(0, 0.0, false)
  const MAX_TARGETS := 1024
  const MAX_FAILURES := 6

  function Min(a: real, b: real): real {
    if a <= b then a else b
  }

  function Pow2(n: nat): (p: nat)
    ensures p >= 1
  {
    if n == 0 then 1 else 2 * Pow2(n - 1)
  }

  /** The wait after the given failure in a row. */
  function Delay(failures: nat): (d: real)
    requires failures > 0
    ensures 30.0 <= d <= 900.0
  {
    Min((30 * Pow2(failures - 1)) as real, 900.0)
  }

  function Failing(s: State, now: real, later: real): State {
    if now < s.due then s
    else
      var failures := if s.failures + 1 < MAX_FAILURES then s.failures + 1 else MAX_FAILURES;
      State(failures, later + Delay(failures), s.active)
  }

  function Lookup(table: Table, target: Target): State {
    if target in table then table[target] else FRESH
  }

  predicate Full(table: Table) {
    |table| >= MAX_TARGETS
  }

  datatype Action =
    | Acquire
    | Finish(success: bool)
    | RecordFailure
    | LimitRetry(seconds: real)
    | Release
    | Forget

  predicate Grants(table: Table, target: Target, now: real) {
    (target in table || !Full(table)) && !Lookup(table, target).active && Lookup(table, target).due <= now
  }

  /** What one call leaves stored for its target; None when nothing is. */
  function Stored(tracked: bool, room: bool, s: State, action: Action, now: real, later: real): Option<State> {
    match action
    case Acquire =>
      if !tracked && !room then None else Some(if s.active || now < s.due then s else s.(active := true))
    case Finish(success) =>
      if !tracked || success then None else Some(Failing(s.(active := false), now, later))
    case RecordFailure =>
      if !tracked && !room then None else Some(Failing(s, now, later))
    case LimitRetry(seconds) =>
      if !tracked then None else Some(s.(due := Min(s.due, now + seconds)))
    case Release =>
      if !tracked || s.failures == 0 then None else Some(s.(active := false))
    case Forget =>
      if !tracked || !s.active then None else Some(s)
  }

  function Put(table: Table, target: Target, stored: Option<State>): Table {
    if stored.Some? then table[target := stored.value] else table - {target}
  }

  /** The table after one call. */
  function Step(table: Table, target: Target, action: Action, now: real, later: real): Table {
    Put(table, target, Stored(target in table, !Full(table), Lookup(table, target), action, now, later))
  }

  class TargetBackoffObject {
    var states: Table

    constructor ()
      ensures states == map[]
    {
      states := map[];
    }

    method Acquire(target: Target, now: real) returns (granted: bool)
      modifies this
      ensures states == Step(old(states), target, Action.Acquire, now, now)
      ensures granted == Grants(old(states), target, now)
    {
      if target !in states {
        if |states| >= MAX_TARGETS {
          return false;
        }
        states := states[target := FRESH];
      }
      var state := states[target];
      if state.active || now < state.due {
        return false;
      }
      states := states[target := state.(active := true)];
      granted := true;
    }

    method Finish(target: Target, success: bool, now: real, later: real)
      modifies this
      ensures states == Step(old(states), target, Action.Finish(success), now, later)
      ensures success ==> states == old(states) - {target}
    {
      if target !in states {
        return;
      }
      states := states[target := states[target].(active := false)];
      if success {
        states := states - {target};
      } else {
        Fail(target, now, later);
      }
    }

    method RecordFailure(target: Target, now: real, later: real)
      modifies this
      ensures states == Step(old(states), target, Action.RecordFailure, now, later)
    {
      if target !in states {
        if |states| >= MAX_TARGETS {
          return;
        }
        states := states[target := FRESH];
      }
      Fail(target, now, later);
    }

    method Fail(target: Target, now: real, later: real)
      requires target in states
      modifies this
      ensures states == old(states)[target := Failing(old(states)[target], now, later)]
    {
      var state := states[target];
      if now < state.due {
        return;
      }
      var failures := if state.failures + 1 < MAX_FAILURES then state.failures + 1 else MAX_FAILURES;
      states := states[target := State(failures, later + Delay(failures), state.active)];
    }

    method Busy(target: Target, now: real) returns (busy: bool)
      ensures busy <==> target in states && states[target].active && states[target].due <= now
    {
      busy := target in states && states[target].active && now >= states[target].due;
    }

    method Failed(target: Target) returns (failed: bool)
      ensures failed <==> target in states && states[target].failures > 0
    {
      failed := target in states && states[target].failures > 0;
    }

    method RetryAfter(target: Target, now: real) returns (seconds: real)
      ensures seconds == Retry(states, target, now)
    {
      seconds := if target in states && states[target].due - now > 0.0 then states[target].due - now else 0.0;
    }

    method LimitRetry(target: Target, seconds: real, now: real)
      modifies this
      ensures states == Step(old(states), target, Action.LimitRetry(seconds), now, now)
    {
      if target in states {
        var state := states[target];
        states := states[target := state.(due := Min(state.due, now + seconds))];
      }
    }

    method Release(target: Target)
      modifies this
      ensures forall now :: states == Step(old(states), target, Action.Release, now, now)
    {
      if target in states {
        states := states[target := states[target].(active := false)];
        if states[target].failures == 0 {
          states := states - {target};
        }
      }
    }

    method Forget(target: Target)
      modifies this
      ensures forall now :: states == Step(old(states), target, Action.Forget, now, now)
    {
      if target in states && !states[target].active {
        states := states - {target};
      }
    }
  }

  /** How long the target is still told to wait. */
  function Retry(table: Table, target: Target, now: real): (seconds: real)
    ensures seconds >= 0.0
  {
    if target in table && table[target].due > now then table[target].due - now else 0.0
  }

  // ---------- Whole runs ----------

  type Caller = nat

  /** One call, with the times of its first and last clock reading. */
  datatype Call = Call(caller: Caller, target: Target, action: Action, now: real, later: real)

  /** The calls made on the object since its construction and its table before and after each. */
  datatype Run = Run(calls: seq<Call>, tables: seq<Table>)

  predicate Shaped(run: Run) {
    |run.tables| == |run.calls| + 1
  }

  ghost predicate Taken(run: Run, i: nat)
    requires Shaped(run) && i < |run.calls|
  {
    var c := run.calls[i];
    run.tables[i + 1] == Step(run.tables[i], c.target, c.action, c.now, c.later)
  }

  /** The clock never runs backwards and starts at a non-negative time. */
  predicate Monotone(calls: seq<Call>) {
    (forall i :: 0 <= i < |calls| ==> 0.0 <= calls[i].now <= calls[i].later) &&
    (forall i, j :: 0 <= i < j < |calls| ==> calls[i].later <= calls[j].now)
  }

  ghost predicate Valid(run: Run) {
    Shaped(run) && run.tables[0] == map[] && (forall i :: 0 <= i < |run.calls| ==> Taken(run, i)) &&
    Monotone(run.calls)
  }

  /** The run with one more call. */
  function Extended(run: Run, c: Call): Run
    requires Shaped(run)
  {
    Run(run.calls + [c], run.tables + [Step(run.tables[|run.calls|], c.target, c.action, c.now, c.later)])
  }

  lemma ExtendedValid(run: Run, c: Call, after: Run)
    requires Valid(run) && after == Extended(run, c) && Monotone(run.calls + [c])
    ensures Valid(after)
  {
    forall i | 0 <= i < |after.calls| ensures Taken(after, i) {
      if i < |run.calls| {
        assert Taken(run, i);
      }
    }
  }

  /** Every sequence of calls has its run. */
  ghost function RunOf(calls: seq<Call>): (run: Run)
    requires Monotone(calls)
    ensures Valid(run) && run.calls == calls
    decreases |calls|
  {
    if calls == [] then Run([], [map[]])
    else
      var before, last := RunOf(calls[..|calls| - 1]), calls[|calls| - 1];
      assert before.calls + [last] == calls;
      ExtendedValid(before, last, Extended(before, last));
      Extended(before, last)
  }

  /** The time by which the first `n` calls are over. */
  function TimeAt(run: Run, n: nat): real
    requires n <= |run.calls|
  {
    if n == 0 then 0.0 else run.calls[n - 1].later
  }

  predicate GoodState(s: State, time: real) {
    s.failures <= MAX_FAILURES && s.due <= time + 900.0 && (s.active || s.failures > 0) &&
    (s.failures == 0 ==> s.due <= 0.0)
  }

  ghost predicate GoodTable(table: Table, time: real) {
    |table| <= MAX_TARGETS && forall target :: target in table ==> GoodState(table[target], time)
  }

  lemma SizeAfterUpdate(table: Table, target: Target, s: State)
    ensures |table[target := s]| == if target in table then |table| else |table| + 1
  {
    assert table[target := s].Keys == table.Keys + {target};
    assert |table[target := s]| == |table[target := s].Keys| && |table| == |table.Keys|;
  }

  lemma SizeAfterRemoval(table: Table, target: Target)
    ensures |table - {target}| <= |table|
  {
    assert (table - {target}).Keys == table.Keys - {target};
    assert |table - {target}| == |(table - {target}).Keys| && |table| == |table.Keys|;
    if target in table {
      assert |table.Keys - {target}| == |table.Keys| - 1;
    } else {
      assert table.Keys - {target} == table.Keys;
    }
  }

  lemma StoredGood(tracked: bool, room: bool, s: State, c: Call, time: real)
    requires if tracked then GoodState(s, time) else s == FRESH
    requires 0.0 <= time <= c.now <= c.later
    ensures var stored := Stored(tracked, room, s, c.action, c.now, c.later);
            stored.Some? ==> (tracked || room) && GoodState(stored.value, c.later)
  {
  }

  lemma PutKeepsGood(table: Table, target: Target, stored: Option<State>, time: real, later: real)
    requires GoodTable(table, time) && time <= later
    requires stored.Some? ==> (target in table || !Full(table)) && GoodState(stored.value, later)
    ensures GoodTable(Put(table, target, stored), later)
  {
    if stored.Some? {
      SizeAfterUpdate(table, target, stored.value);
    } else {
      SizeAfterRemoval(table, target);
    }
  }

  lemma StepKeepsGood(table: Table, c: Call, time: real, after: Table)
    requires GoodTable(table, time) && 0.0 <= time <= c.now <= c.later
    requires after == Step(table, c.target, c.action, c.now, c.later)
    ensures GoodTable(after, c.later)
  {
    var s := Lookup(table, c.target);
    StoredGood(c.target in table, !Full(table), s, c, time);
    PutKeepsGood(table, c.target, Stored(c.target in table, !Full(table), s, c.action, c.now, c.later), time, c.later);
  }

  /** No target is ever told to wait longer than 900 s. */
  lemma RetryBounded(run: Run, n: nat, target: Target, now: real)
    requires Valid(run) && n <= |run.calls| && TimeAt(run, n) <= now
    ensures Retry(run.tables[n], target, now) <= 900.0
  {
    AlwaysBounded(run, n);
  }

  /** After any calls: at most 1024 targets, six failures and 900 s of waiting, and nothing is stored for a target
      that is neither in use nor failed. */
  lemma {:induction false} AlwaysBounded(run: Run, n: nat)
    requires Valid(run) && n <= |run.calls|
    ensures GoodTable(run.tables[n], TimeAt(run, n))
  {
    if n > 0 {
      AlwaysBounded(run, n - 1);
      BoundedStep(run, n - 1);
    }
  }

  lemma BoundedStep(run: Run, n: nat)
    requires Valid(run) && n < |run.calls| && GoodTable(run.tables[n], TimeAt(run, n))
    ensures GoodTable(run.tables[n + 1], TimeAt(run, n + 1))
  {
    assert Taken(run, n);
    StepKeepsGood(run.tables[n], run.calls[n], TimeAt(run, n), run.tables[n + 1]);
  }

  // ---------- Admission ----------

  predicate Granted(run: Run, i: nat)
    requires Shaped(run) && i < |run.calls|
  {
    run.calls[i].action.Acquire? && Grants(run.tables[i], run.calls[i].target, run.calls[i].now)
  }

  predicate HandsBack(c: Call, target: Target) {
    c.target == target && (c.action.Finish? || c.action.Release?)
  }

  /** The callers that were granted the target and have not handed it back. */
  function Holders(run: Run, target: Target, n: nat): set<Caller>
    requires Shaped(run) && n <= |run.calls|
  {
    if n == 0 then {}
    else
      var c, before := run.calls[n - 1], Holders(run, target, n - 1);
      if c.target == target && Granted(run, n - 1) then before + {c.caller}
      else if HandsBack(c, target) then before - {c.caller}
      else before
  }

  /** Only a holder hands a target back. */
  ghost predicate Disciplined(run: Run)
    requires Shaped(run)
  {
    forall i :: 0 <= i < |run.calls| && HandsBack(run.calls[i], run.calls[i].target) ==>
      run.calls[i].caller in Holders(run, run.calls[i].target, i)
  }

  ghost predicate HeldOnce(run: Run, target: Target, n: nat)
    requires Shaped(run) && n <= |run.calls|
  {
    (Active(run.tables[n], target) <==> Holders(run, target, n) != {}) &&
    forall a, b :: a in Holders(run, target, n) && b in Holders(run, target, n) ==> a == b
  }

  predicate Active(table: Table, target: Target) {
    target in table && table[target].active
  }

  lemma ActivityStep(table: Table, c: Call, target: Target)
    ensures Active(Step(table, c.target, c.action, c.now, c.later), target) ==
      if c.target == target && c.action.Acquire? && Grants(table, target, c.now) then true
      else if HandsBack(c, target) then false
      else Active(table, target)
  {
  }

  lemma HoldersStep(run: Run, target: Target, n: nat)
    requires Shaped(run) && Disciplined(run) && n < |run.calls| && HeldOnce(run, target, n)
    requires Active(run.tables[n + 1], target) ==
      if run.calls[n].target == target && Granted(run, n) then true
      else if HandsBack(run.calls[n], target) then false
      else Active(run.tables[n], target)
    ensures HeldOnce(run, target, n + 1)
  {
    var c, before := run.calls[n], Holders(run, target, n);
    if HandsBack(c, target) {
      assert HandsBack(c, c.target);
      assert c.caller in before;
      assert before - {c.caller} == {};
    }
  }

  /** At most one caller holds a target, and the target is active exactly while one does. */
  lemma {:induction false} OneHolder(run: Run, target: Target, n: nat)
    requires Valid(run) && Disciplined(run) && n <= |run.calls|
    ensures HeldOnce(run, target, n)
  {
    if n > 0 {
      OneHolder(run, target, n - 1);
      assert Taken(run, n - 1);
      ActivityStep(run.tables[n - 1], run.calls[n - 1], target);
      HoldersStep(run, target, n - 1);
    }
  }

  /** A call is granted exactly when nobody holds the target, its wait is over and there is room for it. */
  lemma GrantedExactlyWhen(run: Run, i: nat)
    requires Valid(run) && Disciplined(run) && i < |run.calls| && run.calls[i].action.Acquire?
    ensures var c := run.calls[i];
            Granted(run, i) <==>
            Holders(run, c.target, i) == {} && Retry(run.tables[i], c.target, c.now) == 0.0 &&
            (c.target in run.tables[i] || |run.tables[i]| < MAX_TARGETS)
  {
    OneHolder(run, run.calls[i].target, i);
    assert 0.0 <= run.calls[i].now;
  }

  // ---------- Spacing ----------

  /** Call `i` reports a failure of the target that is counted: one that falls in the wait for the last is not. */
  predicate Counted(run: Run, target: Target, i: nat)
    requires Shaped(run) && i < |run.calls|
  {
    var c, table := run.calls[i], run.tables[i];
    c.target == target && Lookup(table, target).due <= c.now &&
    ((c.action.Finish? && !c.action.success && target in table) ||
     (c.action.RecordFailure? && (target in table || !Full(table))))
  }

  /** The counted failures among the calls from `a` up to `n`. */
  function CountFrom(run: Run, target: Target, a: nat, n: nat): nat
    requires Shaped(run) && n <= |run.calls|
  {
    if n <= a then 0 else CountFrom(run, target, a, n - 1) + if Counted(run, target, n - 1) then 1 else 0
  }

  /** The call neither clears the target's failures nor shortens its wait. */
  predicate KeepsBackoff(c: Call, target: Target) {
    c.target == target ==> !(c.action.Finish? && c.action.success) && !c.action.Forget? && !c.action.LimitRetry?
  }

  /** The least time from the first to the k-th counted failure. */
  function Spacing(k: nat): real
    requires k > 0
  {
    if k <= 6 then (30 * (Pow2(k - 1) - 1)) as real else (930 + 900 * (k - 6)) as real
  }

  lemma SpacingStep(k: nat, failures: nat)
    requires 0 < k && (k <= failures <= 6 || k > 6 == failures)
    ensures Spacing(k) + Delay(failures) >= Spacing(k + 1)
  {
    assert Pow2(0) == 1 && Pow2(1) == 2 && Pow2(2) == 4 && Pow2(3) == 8 && Pow2(4) == 16 && Pow2(5) == 32;
    if k <= 6 {
      PowGrows(k - 1, failures - 1);
    }
  }

  lemma {:induction false} PowGrows(m: nat, n: nat)
    requires m <= n
    ensures Pow2(m) <= Pow2(n)
    decreases n
  {
    if m < n {
      PowGrows(m, n - 1);
    }
  }

  /** After k counted failures the target waits out at least the time of the next one. */
  ghost predicate BackedOff(run: Run, target: Target, a: nat, n: nat, k: nat)
    requires Shaped(run) && a < |run.calls| && n <= |run.calls| && k > 0
  {
    target in run.tables[n] && run.tables[n][target].failures >= (if k < 6 then k else 6) &&
    run.tables[n][target].due >= run.calls[a].later + Spacing(k + 1)
  }

  lemma BackedOffStep(run: Run, target: Target, a: nat, n: nat, k: nat)
    requires Valid(run) && a < n < |run.calls| && k > 0 && BackedOff(run, target, a, n, k)
    requires KeepsBackoff(run.calls[n], target)
    ensures BackedOff(run, target, a, n + 1, if Counted(run, target, n) then k + 1 else k)
    ensures Counted(run, target, n) ==> run.calls[n].now >= run.calls[a].later + Spacing(k + 1)
  {
    assert Taken(run, n);
    AlwaysBounded(run, n);
    if Counted(run, target, n) {
      var s := run.tables[n][target];
      SpacingStep(k + 1, if s.failures + 1 < 6 then s.failures + 1 else 6);
    }
  }

  lemma {:induction false} BackedOffAfter(run: Run, target: Target, a: nat, n: nat)
    requires Valid(run) && a < n <= |run.calls| && Counted(run, target, a)
    requires forall i :: a <= i < n ==> KeepsBackoff(run.calls[i], target)
    ensures CountFrom(run, target, a, n) > 0
    ensures BackedOff(run, target, a, n, CountFrom(run, target, a, n))
  {
    if n == a + 1 {
      assert Taken(run, a);
      assert CountFrom(run, target, a, a) == 0;
      SpacingStep(1, run.tables[n][target].failures);
    } else {
      BackedOffAfter(run, target, a, n - 1);
      BackedOffStep(run, target, a, n - 1, CountFrom(run, target, a, n - 1));
    }
  }

  /** However the calls fall, the k-th counted failure comes at least 30 * (2^(k-1) - 1) seconds after the first for
      k <= 6 and 930 + 900 * (k - 6) after that, unless a success, forget or limit_retry came between. */
  lemma FailuresSpaced(run: Run, target: Target, a: nat, b: nat, k: nat)
    requires Valid(run) && a < b < |run.calls| && Counted(run, target, a) && Counted(run, target, b)
    requires forall i :: a <= i < b ==> KeepsBackoff(run.calls[i], target)
    requires k == CountFrom(run, target, a, b) + 1
    ensures run.calls[b].now - run.calls[a].later >= Spacing(k)
  {
    BackedOffAfter(run, target, a, b);
  }

  /** The failures in a row after a counted one. */
  function FailuresAfter(run: Run, target: Target, a: nat): (f: nat)
    requires Shaped(run) && a < |run.calls|
    ensures f > 0
  {
    var before := Lookup(run.tables[a], target).failures;
    if before + 1 < MAX_FAILURES then before + 1 else MAX_FAILURES
  }

  lemma {:induction false} WaitUnchanged(run: Run, target: Target, a: nat, n: nat)
    requires Valid(run) && a < n <= |run.calls| && Counted(run, target, a)
    requires forall i :: a < i < n ==> KeepsBackoff(run.calls[i], target) && !Counted(run, target, i)
    ensures target in run.tables[n] && run.tables[n][target].failures == FailuresAfter(run, target, a)
    ensures run.tables[n][target].due == run.calls[a].later + Delay(FailuresAfter(run, target, a))
    decreases n
  {
    if n == a + 1 {
      CountedStarts(run, target, a);
    } else {
      WaitUnchanged(run, target, a, n - 1);
      WaitStep(run, target, n - 1);
    }
  }

  lemma CountedStarts(run: Run, target: Target, a: nat)
    requires Valid(run) && a < |run.calls| && Counted(run, target, a)
    ensures target in run.tables[a + 1] && run.tables[a + 1][target].failures == FailuresAfter(run, target, a)
    ensures run.tables[a + 1][target].due == run.calls[a].later + Delay(FailuresAfter(run, target, a))
  {
    assert Taken(run, a);
  }

  lemma WaitStep(run: Run, target: Target, n: nat)
    requires Valid(run) && n < |run.calls| && target in run.tables[n] && run.tables[n][target].failures > 0
    requires KeepsBackoff(run.calls[n], target) && !Counted(run, target, n)
    ensures target in run.tables[n + 1] && run.tables[n + 1][target].failures == run.tables[n][target].failures
    ensures run.tables[n + 1][target].due == run.tables[n][target].due
  {
    assert Taken(run, n);
  }

  predicate Reports(c: Call, target: Target) {
    c.target == target && ((c.action.Finish? && !c.action.success) || c.action.RecordFailure?)
  }

  /** The next report of a failing target is counted exactly when the wait for the last counted one, of at least 30 s,
      is over: the tunnel and its database caller reporting one failure count once. */
  lemma ReportCountedExactlyWhen(run: Run, target: Target, a: nat, b: nat)
    requires Valid(run) && a < b < |run.calls| && Counted(run, target, a) && Reports(run.calls[b], target)
    requires forall i :: a < i < b ==> KeepsBackoff(run.calls[i], target) && !Counted(run, target, i)
    ensures Counted(run, target, b) <==>
            run.calls[b].now - run.calls[a].later >= Delay(FailuresAfter(run, target, a))
  {
    WaitUnchanged(run, target, a, b);
  }

  // ---------- What each call leaves ----------

  /** The call ends the target's failures: a success, or a forget of a target that is not in use. */
  predicate Clears(run: Run, target: Target, i: nat)
    requires Shaped(run) && i < |run.calls|
  {
    var c := run.calls[i];
    c.target == target &&
    ((c.action.Finish? && c.action.success) || (c.action.Forget? && !Active(run.tables[i], target)))
  }

  /** After a success, or a forget of a target not in use, nothing is stored for the target. */
  lemma ClearedIsGone(run: Run, target: Target, i: nat)
    requires Valid(run) && i < |run.calls| && Clears(run, target, i)
    ensures target !in run.tables[i + 1]
  {
    assert Taken(run, i);
  }

  lemma FailuresStep(run: Run, target: Target, i: nat)
    requires Valid(run) && i < |run.calls| && !Clears(run, target, i)
    ensures Lookup(run.tables[i + 1], target).failures ==
      if !Counted(run, target, i) then Lookup(run.tables[i], target).failures
      else if Lookup(run.tables[i], target).failures < 6 then Lookup(run.tables[i], target).failures + 1
      else 6
  {
    assert Taken(run, i);
    AlwaysBounded(run, i);
  }

  /** The failures stored for a target are those counted since it was last cleared, up to six. */
  lemma {:induction false} FailuresSinceCleared(run: Run, target: Target, a: nat, n: nat)
    requires Valid(run) && a <= n <= |run.calls| && (a == 0 || Clears(run, target, a - 1))
    requires forall i :: a <= i < n ==> !Clears(run, target, i)
    ensures var k := CountFrom(run, target, a, n);
            Lookup(run.tables[n], target).failures == if k < 6 then k else 6
    decreases n
  {
    if n > a {
      FailuresSinceCleared(run, target, a, n - 1);
      FailuresStep(run, target, n - 1);
    } else if a > 0 {
      ClearedIsGone(run, target, a - 1);
    }
  }

  /** So the k-th failure counted since the target was cleared makes it wait 30 * 2^(k-1) s, at most 900 s: the first
      one 30 s. */
  lemma KthFailureWaits(run: Run, target: Target, a: nat, b: nat, k: nat)
    requires Valid(run) && a <= b < |run.calls| && (a == 0 || Clears(run, target, a - 1))
    requires forall i :: a <= i < b ==> !Clears(run, target, i)
    requires Counted(run, target, b) && k == CountFrom(run, target, a, b) + 1
    ensures target in run.tables[b + 1]
    ensures run.tables[b + 1][target].due - run.calls[b].later ==
      if k == 1 then 30.0 else if k == 2 then 60.0 else if k == 3 then 120.0 else if k == 4 then 240.0
      else if k == 5 then 480.0 else 900.0
  {
    FailuresSinceCleared(run, target, a, b);
    CountedStarts(run, target, b);
    assert Pow2(0) == 1 && Pow2(1) == 2 && Pow2(2) == 4 && Pow2(3) == 8 && Pow2(4) == 16 && Pow2(5) == 32;
  }

  /** limit_retry leaves the target the smaller of its wait and the given one, and its failures and holder alone. */
  lemma RetryLimited(run: Run, target: Target, i: nat, seconds: real)
    requires Valid(run) && i < |run.calls| && run.calls[i].target == target
    requires run.calls[i].action == Action.LimitRetry(seconds)
    ensures var before, after, now := run.tables[i], run.tables[i + 1], run.calls[i].now;
            (target in after <==> target in before) &&
            Lookup(after, target).failures == Lookup(before, target).failures &&
            Active(after, target) == Active(before, target) &&
            Retry(after, target, now) ==
            if seconds <= 0.0 then 0.0
            else if seconds <= Retry(before, target, now) then seconds
            else Retry(before, target, now)
  {
    assert Taken(run, i);
  }

  /** A release hands the target back: with failures they and the wait stay, without any the target is dropped. */
  lemma ReleasedIsKeptExactlyWhen(run: Run, target: Target, i: nat)
    requires Valid(run) && i < |run.calls| && run.calls[i].target == target && run.calls[i].action.Release?
    ensures var before, after := run.tables[i], run.tables[i + 1];
            !Active(after, target) && (target in after <==> target in before && before[target].failures > 0) &&
            (target in after ==>
               after[target].failures == before[target].failures && after[target].due == before[target].due)
  {
    assert Taken(run, i);
  }

  /** A failed operation hands the target back; within the wait for an earlier failure nothing else changes. */
  lemma FailedHandsBack(run: Run, target: Target, i: nat)
    requires Valid(run) && i < |run.calls| && run.calls[i].target == target
    requires run.calls[i].action == Action.Finish(false)
    ensures var before, after := run.tables[i], run.tables[i + 1];
            (target in after <==> target in before) && !Active(after, target) &&
            (target in before && before[target].due > run.calls[i].now ==>
               after[target] == before[target].(active := false))
  {
    assert Taken(run, i);
  }

  /** A call leaves every other target as it was. */
  lemma OthersUntouched(run: Run, other: Target, i: nat)
    requires Valid(run) && i < |run.calls| && run.calls[i].target != other
    ensures var before, after := run.tables[i], run.tables[i + 1];
            (other in after <==> other in before) && (other in before ==> after[other] == before[other])
  {
    assert Taken(run, i);
  }

  /** An acquire, granted or not, changes neither failures nor wait, and stores nothing that it does not grant. */
  lemma AcquireKeepsBackoff(run: Run, target: Target, i: nat)
    requires Valid(run) && i < |run.calls| && run.calls[i].target == target && run.calls[i].action.Acquire?
    ensures var before, after := run.tables[i], run.tables[i + 1];
            (target in after <==> target in before || Granted(run, i)) &&
            Lookup(after, target).failures == Lookup(before, target).failures &&
            Lookup(after, target).due == Lookup(before, target).due &&
            (Active(after, target) <==> Active(before, target) || Granted(run, i))
  {
    assert Taken(run, i);
    assert 0.0 <= run.calls[i].now;
  }
}
