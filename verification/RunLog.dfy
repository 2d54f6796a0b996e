/** One background run: its event log, its driver and how its outcome is judged
    (cli/shared/run_registry.py, _RunHandle, _drive, _append). */
module RunLog {
  import opened Wrappers
  import opened Text

  const NEEDS_KEY_EVENT := "needs_key"
  const RUN_END_EVENT := "run_end"

  datatype Status = Running | NeedsKey | Done | Partial | Failed | Cancelled {
    predicate Terminal() {
      Done? || Partial? || Failed? || Cancelled?
    }
  }

  /** The parts of an event's data the registry looks at or writes. */
  datatype Payload = Payload(success: Option<bool>, code: Option<string>, status: Option<Status>)

  datatype Record = Record(seqNo: nat, event: string, data: Payload)

  /** Which way the driver left its event loop. */
  datatype Ending = Exhausted | Raised | Interrupted

  /** Where the driver task is suspended, or how it ended. `Unstarted` is a task that was cancelled before its
      first step; `Settled` is any finished task whose done-callback has run; one that never started was interrupted. */
  datatype Phase = Scheduled | Driving | Closing(ending: Ending) | Finished(ending: Ending) | Unstarted |
    Settled(ending: Ending)

  type FutureId = nat

  datatype Handle = Handle(
    target: string,
    childErrorEvents: set<string>,
    status: Status,
    events: seq<Record>,
    waiters: seq<FutureId>,
    cancelRequested: bool,
    phase: Phase,
    outcome: Status)

  function NewHandle(target: string, childErrorEvents: set<string>): Handle {
    Handle(target, childErrorEvents, Running, [], [], false, Scheduled, Done)
  }

  // ---------- Judging the outcome ----------

  predicate IsErrorName(name: string) {
    name == "error" || EndsWith(name, "_error")
  }

  predicate HasCacheResult(events: seq<Record>) {
    exists i :: 0 <= i < |events| && events[i].event in ["cache_run_complete", "cache_compare_complete"]
  }

  /** The driver's running verdict after the last record of `events` was appended. */
  function JudgeLast(childErrorEvents: set<string>, events: seq<Record>, outcome: Status): Status
    requires events != []
  {
    var record := events[|events| - 1];
    if record.event == "complete" && childErrorEvents != {} then
      if record.data.success == Some(false) then Failed else outcome
    else if record.event !in childErrorEvents && IsErrorName(record.event) then
      var preserved := record.data.code == Some("speed_test_cleanup_failed") && HasCacheResult(events);
      if preserved && outcome != Failed then Partial else Failed
    else outcome
  }

  /** Record `i` is an error this run does not isolate. */
  predicate CountsAsError(childErrorEvents: set<string>, events: seq<Record>, i: nat)
    requires i < |events|
  {
    var name := events[i].event;
    !(name == "complete" && childErrorEvents != {}) && name !in childErrorEvents && IsErrorName(name)
  }

  /** A failed cleanup after a cache result was already reported. */
  predicate CleanupError(childErrorEvents: set<string>, events: seq<Record>, i: nat)
    requires i < |events|
  {
    CountsAsError(childErrorEvents, events, i) && events[i].data.code == Some("speed_test_cleanup_failed") &&
    HasCacheResult(events[..i + 1])
  }

  /** Any other error, or an orchestrated run reporting that it did not succeed. */
  predicate HardError(childErrorEvents: set<string>, events: seq<Record>, i: nat)
    requires i < |events|
  {
    (events[i].event == "complete" && childErrorEvents != {} && events[i].data.success == Some(false)) ||
    (CountsAsError(childErrorEvents, events, i) && !CleanupError(childErrorEvents, events, i))
  }

  /** What the whole log says, looked at all at once. */
  ghost function Verdict(childErrorEvents: set<string>, events: seq<Record>): Status {
    if exists i :: 0 <= i < |events| && HardError(childErrorEvents, events, i) then Failed
    else if exists i :: 0 <= i < |events| && CleanupError(childErrorEvents, events, i) then Partial
    else Done
  }

  /** The driver's fold over the events computes the verdict. */
  lemma JudgedIncrementally(childErrorEvents: set<string>, events: seq<Record>, record: Record)
    ensures JudgeLast(childErrorEvents, events + [record], Verdict(childErrorEvents, events)) ==
            Verdict(childErrorEvents, events + [record])
  {
    var all, n := events + [record], |events|;
    forall i | 0 <= i < n
      ensures HardError(childErrorEvents, all, i) == HardError(childErrorEvents, events, i)
      ensures CleanupError(childErrorEvents, all, i) == CleanupError(childErrorEvents, events, i)
    {
      assert all[..i + 1] == events[..i + 1];
    }
    assert all[..n + 1] == all;
    if exists i :: 0 <= i < n && HardError(childErrorEvents, events, i) {
      var i :| 0 <= i < n && HardError(childErrorEvents, events, i);
      assert HardError(childErrorEvents, all, i);
    } else if HardError(childErrorEvents, all, n) {
    } else {
      assert !exists i :: 0 <= i < |all| && HardError(childErrorEvents, all, i);
      if exists i :: 0 <= i < n && CleanupError(childErrorEvents, events, i) {
        var i :| 0 <= i < n && CleanupError(childErrorEvents, events, i);
        assert CleanupError(childErrorEvents, all, i);
      }
    }
  }

  function Severity(s: Status): nat {
    match s
    case Failed => 2
    case Partial => 1
    case _ => 0
  }

  /** Later events never improve the verdict. */
  lemma VerdictNeverImproves(childErrorEvents: set<string>, events: seq<Record>, more: seq<Record>)
    ensures Severity(Verdict(childErrorEvents, events)) <= Severity(Verdict(childErrorEvents, events + more))
  {
    var all := events + more;
    forall i | 0 <= i < |events|
      ensures HardError(childErrorEvents, all, i) == HardError(childErrorEvents, events, i)
      ensures CleanupError(childErrorEvents, all, i) == CleanupError(childErrorEvents, events, i)
    {
      assert all[..i + 1] == events[..i + 1];
    }
  }

  // ---------- Steps of one handle ----------

  /** The log with one more record; every future waiting on it is resolved by the caller. */
  function Logged(h: Handle, name: string, data: Payload): Handle {
    h.(events := h.events + [Record(|h.events| + 1, name, data)], waiters := [])
  }

  /** The driver consumed one event and awaits the next. */
  function Consumed(h: Handle, name: string, data: Payload): Handle {
    var logged := Logged(h, name, data);
    logged.(status := if name == NEEDS_KEY_EVENT then NeedsKey else Running,
            outcome := JudgeLast(h.childErrorEvents, logged.events, h.outcome))
  }

  /** The terminal status together with its record. */
  function Terminated(h: Handle, status: Status): Handle {
    Logged(h, RUN_END_EVENT, Payload(None, None, Some(status))).(status := status)
  }

  ghost predicate Numbered(events: seq<Record>) {
    forall i :: 0 <= i < |events| ==> events[i].seqNo == i + 1
  }

  /** What every reachable handle satisfies. */
  ghost predicate ValidHandle(h: Handle) {
    Numbered(h.events) &&
    (h.status.Terminal() <==> h.phase.Finished? || h.phase.Settled?) &&
    (h.status.Terminal() ==>
       h.waiters == [] && h.events != [] &&
       h.events[|h.events| - 1].event == RUN_END_EVENT && h.events[|h.events| - 1].data.status == Some(h.status)) &&
    (h.phase.Scheduled? || h.phase.Unstarted? ==> h.events == [] && h.outcome == Done) &&
    (h.phase.Driving? || h.phase == Closing(Exhausted) ==> h.outcome == Verdict(h.childErrorEvents, h.events)) &&
    (h.phase.Closing? ==> h.outcome.Terminal()) &&
    (h.phase == Closing(Raised) ==> h.outcome == Failed) &&
    (h.phase == Closing(Interrupted) ==> h.outcome == Cancelled) &&
    (h.phase.Finished? || h.phase.Settled? ==>
       h.status == match h.phase.ending
                   case Exhausted => Verdict(h.childErrorEvents, h.events[..|h.events| - 1])
                   case Raised => Failed
                   case Interrupted => Cancelled)
  }

  function CountEnds(events: seq<Record>): nat
    decreases |events|
  {
    if events == [] then 0
    else CountEnds(events[..|events| - 1]) + if events[|events| - 1].event == RUN_END_EVENT then 1 else 0
  }
}
