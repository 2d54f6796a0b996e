/** The client-side bound on a block of database calls (cli/shared/db_connection.py, IoDeadline). Each method runs
    under the object's lock and is one step; a timer, cancelled or not, may come to fire at any time past its wait. */
module IoDeadline {
  import opened Wrappers

  /** `timer` is the generation the current timer was started for; `aborts` counts the calls of abort_connection. */
  datatype State = State(generation: nat, timer: Option<nat>, expired: bool, aborts: nat)

  const INITIAL := State(0, None, false, 0)

  function Armed(s: State, active: bool): State {
    State(s.generation + 1, if active && !s.expired then Some(s.generation + 1) else None, s.expired, s.aborts)
  }

  function Fired(s: State, generation: nat): State {
    if generation != s.generation then s else s.(expired := true, aborts := s.aborts + 1)
  }

  /** How control leaves the block: an exception that is no `Exception` is a KeyboardInterrupt or the like. */
  datatype Leaving = Normally | WithException | WithBaseException

  class IoDeadlineObject {
    const seconds: real
    var generation: nat
    var timer: Option<nat>
    var expired: bool
    var aborts: nat

    ghost function Value(): State
      reads this
    {
      State(generation, timer, expired, aborts)
    }

    constructor (seconds: real)
      ensures this.seconds == seconds && Value() == INITIAL
    {
      this.seconds := seconds;
      generation, timer, expired, aborts := 0, None, false, 0;
    }

    method Renew()
      modifies this
      ensures Value() == Armed(old(Value()), true)
    {
      Arm(true);
    }

    method Arm(active: bool)
      modifies this
      ensures Value() == Armed(old(Value()), active)
    {
      if timer != None {
        timer := None;
      }
      generation := generation + 1;
      if active && !expired {
        timer := Some(generation);
      }
    }

    method Expire(generation: nat)
      modifies this
      ensures Value() == Fired(old(Value()), generation)
    {
      if generation != this.generation {
        return;
      }
      expired := true;
      aborts := aborts + 1;
    }

    /** Returns whether ServerNotAnsweringError is raised. */
    method Exit(leaving: Leaving) returns (raises: bool)
      modifies this
      ensures Value() == Armed(old(Value()), false)
      ensures raises <==> old(expired) && leaving != WithBaseException
    {
      Arm(false);
      raises := expired && (leaving == Normally || leaving == WithException);
    }
  }

  // ---------- Every interleaving ----------

  /** Fire(j) is the timer that the renewal at step j started. */
  datatype Action = Renew | Exit(leaving: Leaving) | Fire(started: nat)

  datatype Step = Step(action: Action, now: real)

  /** The steps taken on one object, and its state before and after each. */
  datatype Run = Run(seconds: real, steps: seq<Step>, states: seq<State>)

  predicate Shaped(run: Run) {
    |run.states| == |run.steps| + 1
  }

  predicate Arms(run: Run, i: nat)
    requires i < |run.steps|
  {
    !run.steps[i].action.Fire?
  }

  /** The renewal at step j started a timer whose wait is over at step i, and it has not fired yet. */
  predicate MayFire(run: Run, j: nat, i: nat)
    requires Shaped(run) && i < |run.steps|
  {
    j < i && run.steps[j].action.Renew? && run.states[j + 1].timer.Some? &&
    run.steps[i].now >= run.steps[j].now + run.seconds &&
    forall k :: j < k < i ==> run.steps[k].action != Fire(j)
  }

  ghost predicate Taken(run: Run, i: nat)
    requires Shaped(run) && i < |run.steps|
  {
    match run.steps[i].action
    case Renew => run.states[i + 1] == Armed(run.states[i], true)
    case Exit(leaving) => run.states[i + 1] == Armed(run.states[i], false)
    case Fire(j) => MayFire(run, j, i) && run.states[i + 1] == Fired(run.states[i], run.states[j + 1].generation)
  }

  ghost predicate Valid(run: Run) {
    Shaped(run) && run.states[0] == INITIAL && forall i :: 0 <= i < |run.steps| ==> Taken(run, i)
  }

  /** Step i aborts the connection. */
  predicate Aborts(run: Run, i: nat)
    requires Shaped(run) && i < |run.steps|
  {
    run.states[i + 1].aborts != run.states[i].aborts
  }

  predicate ArmedBetween(run: Run, j: nat, i: nat)
    requires i <= |run.steps|
  {
    exists k :: j < k < i && Arms(run, k)
  }

  lemma {:induction false} GenerationCounts(run: Run, j: nat, n: nat)
    requires Valid(run) && j < n <= |run.steps|
    ensures run.states[j + 1].generation <= run.states[n].generation
    ensures run.states[j + 1].generation < run.states[n].generation <==> ArmedBetween(run, j, n)
    decreases n
  {
    if j + 1 < n {
      GenerationCounts(run, j, n - 1);
      assert Taken(run, n - 1);
      assert ArmedBetween(run, j, n) <==> ArmedBetween(run, j, n - 1) || Arms(run, n - 1);
    }
  }

  /** A timer aborts the connection exactly when it fires with no renewal and no exit since it was started. */
  lemma FireAbortsExactlyWhen(run: Run, i: nat)
    requires Valid(run) && i < |run.steps| && run.steps[i].action.Fire?
    ensures Aborts(run, i) <==> !ArmedBetween(run, run.steps[i].action.started, i)
  {
    assert Taken(run, i);
    GenerationCounts(run, run.steps[i].action.started, i);
  }

  /** An abort comes from the timer of the latest renewal, at least `seconds` after it, with no exit in between. */
  lemma AbortIsLate(run: Run, i: nat)
    requires Valid(run) && i < |run.steps| && Aborts(run, i)
    ensures run.steps[i].action.Fire?
    ensures var j := run.steps[i].action.started;
            j < i && run.steps[j].action.Renew? && !ArmedBetween(run, j, i) &&
            run.steps[i].now - run.steps[j].now >= run.seconds
  {
    assert Taken(run, i);
    if run.steps[i].action.Fire? {
      FireAbortsExactlyWhen(run, i);
    }
  }

  /** Once expired, only a timer still running could abort again; none of the current generation is left. */
  ghost predicate Settled(run: Run, n: nat)
    requires Shaped(run) && n <= |run.steps|
  {
    run.states[n].aborts == (if run.states[n].expired then 1 else 0) &&
    (run.states[n].expired ==>
       forall j :: 0 <= j < n && IsCurrentTimer(run, j, n) ==>
         exists k :: j < k < n && run.steps[k].action == Fire(j))
  }

  /** The renewal at step j started a timer, and its generation is the one after n steps. */
  predicate IsCurrentTimer(run: Run, j: nat, n: nat)
    requires Shaped(run) && j < n <= |run.steps|
  {
    run.steps[j].action.Renew? && run.states[j + 1].timer.Some? &&
    run.states[j + 1].generation == run.states[n].generation
  }

  lemma GenerationOnce(run: Run, j: nat, k: nat)
    requires Valid(run) && j < |run.steps| && k < |run.steps| && Arms(run, j) && Arms(run, k) && j != k
    ensures run.states[j + 1].generation != run.states[k + 1].generation
  {
    if j < k {
      GenerationCounts(run, j, k + 1);
    } else {
      GenerationCounts(run, k, j + 1);
    }
  }

  lemma {:induction false} AlwaysSettled(run: Run, n: nat)
    requires Valid(run) && n <= |run.steps|
    ensures Settled(run, n)
  {
    if n > 0 {
      AlwaysSettled(run, n - 1);
      SettledStep(run, n - 1);
    }
  }

  lemma SettledStep(run: Run, n: nat)
    requires Valid(run) && n < |run.steps| && Settled(run, n)
    ensures Settled(run, n + 1)
  {
    assert Taken(run, n);
    if run.states[n + 1].expired {
      forall j | 0 <= j < n + 1 && IsCurrentTimer(run, j, n + 1)
        ensures exists k :: j < k < n + 1 && run.steps[k].action == Fire(j)
      {
        if Arms(run, n) {
          assert j != n;
          GenerationOnce(run, j, n);
        } else if run.states[n].expired {
          assert IsCurrentTimer(run, j, n);
          var k :| j < k < n && run.steps[k].action == Fire(j);
        } else if j != run.steps[n].action.started {
          GenerationOnce(run, j, run.steps[n].action.started);
        }
      }
    }
  }

  /** Over all interleavings the connection is aborted at most once, and `expired` says exactly that it was; it never
      goes back. */
  lemma AbortedAtMostOnce(run: Run, m: nat, n: nat)
    requires Valid(run) && m <= n <= |run.steps|
    ensures run.states[n].aborts == if run.states[n].expired then 1 else 0
    ensures run.states[m].expired ==> run.states[n].expired
    decreases n
  {
    AlwaysSettled(run, n);
    if m < n {
      AbortedAtMostOnce(run, m, n - 1);
      assert Taken(run, n - 1);
    }
  }

  predicate Raises(run: Run, i: nat)
    requires Shaped(run) && i < |run.steps|
  {
    run.steps[i].action.Exit? && run.states[i].expired && run.steps[i].action.leaving != WithBaseException
  }

  /** An exit raises exactly when the connection was aborted before it and the block is left normally or on an
      `Exception`; no timer that fires after the exit changes that. */
  lemma ExitRaisesExactlyWhen(run: Run, i: nat, n: nat)
    requires Valid(run) && i < n <= |run.steps| && run.steps[i].action.Exit?
    requires forall k :: i < k < n ==> !Arms(run, k)
    ensures Raises(run, i) <==>
      run.steps[i].action.leaving != WithBaseException && exists k :: 0 <= k < i && Aborts(run, k)
    ensures run.states[n].expired == run.states[i].expired && run.states[n].aborts == run.states[i].aborts
  {
    ExpiredExactlyWhen(run, i);
    NoAbortAfterExit(run, i, n);
  }

  lemma {:induction false} ExpiredExactlyWhen(run: Run, n: nat)
    requires Valid(run) && n <= |run.steps|
    ensures run.states[n].expired <==> exists k :: 0 <= k < n && Aborts(run, k)
  {
    if n > 0 {
      ExpiredExactlyWhen(run, n - 1);
      assert Taken(run, n - 1);
      assert (exists k :: 0 <= k < n && Aborts(run, k)) <==>
        (Aborts(run, n - 1) || exists k :: 0 <= k < n - 1 && Aborts(run, k));
    }
  }

  lemma {:induction false} NoAbortAfterExit(run: Run, i: nat, n: nat)
    requires Valid(run) && i < n <= |run.steps| && run.steps[i].action.Exit?
    requires forall k :: i < k < n ==> !Arms(run, k)
    ensures run.states[n].expired == run.states[i].expired && run.states[n].aborts == run.states[i].aborts
    decreases n
  {
    if n == i + 1 {
      assert Taken(run, i);
    } else {
      NoAbortAfterExit(run, i, n - 1);
      assert Taken(run, n - 1) && !Arms(run, n - 1);
      var j := run.steps[n - 1].action.started;
      FireAbortsExactlyWhen(run, n - 1);
      assert MayFire(run, j, n - 1) && Arms(run, j) && Arms(run, i);
      assert j < i;
      assert ArmedBetween(run, j, n - 1);
    }
  }

  /** A renewal starts a timer exactly when the connection has not been aborted; an exit leaves none running. */
  lemma RenewalStartsTimerExactlyWhen(run: Run, i: nat)
    requires Valid(run) && i < |run.steps| && Arms(run, i)
    ensures run.states[i + 1].timer.Some? <==>
      run.steps[i].action.Renew? && !exists k :: 0 <= k < i && Aborts(run, k)
    ensures run.states[i + 1].timer.Some? ==> run.states[i + 1].timer.value == run.states[i + 1].generation
  {
    assert Taken(run, i);
    ExpiredExactlyWhen(run, i);
  }

  /** Once the wait is over such a timer can come to fire, and if nothing re-armed it the connection is aborted then. */
  lemma OverdueTimerAborts(run: Run, j: nat, i: nat)
    requires Valid(run) && j < i < |run.steps| && run.steps[j].action.Renew? && run.steps[i].action == Fire(j)
    requires !ArmedBetween(run, j, i)
    ensures Aborts(run, i) && run.states[i + 1].expired
  {
    FireAbortsExactlyWhen(run, i);
    assert Taken(run, i);
  }

  /** A timer that was started, is overdue and has not fired can fire next. */
  lemma OverdueTimerMayFire(run: Run, j: nat, now: real) returns (next: Run)
    requires Valid(run) && j < |run.steps| && run.steps[j].action.Renew?
    requires !exists k :: 0 <= k < j && Aborts(run, k)
    requires now >= run.steps[j].now + run.seconds
    requires forall k :: j < k < |run.steps| ==> run.steps[k].action != Fire(j)
    ensures Valid(next) && next.seconds == run.seconds && next.steps == run.steps + [Step(Fire(j), now)]
  {
    RenewalStartsTimerExactlyWhen(run, j);
    var n := |run.steps|;
    next := Run(run.seconds, run.steps + [Step(Fire(j), now)],
                run.states + [Fired(run.states[n], run.states[j + 1].generation)]);
    forall i | 0 <= i < n + 1 ensures Taken(next, i) {
      if i < n {
        assert Taken(run, i);
        if run.steps[i].action.Fire? {
          assert MayFire(run, run.steps[i].action.started, i);
        }
      }
    }
  }
}
