/** The registry as the object the adapters share; every method is one atomic step on the event loop
    (cli/shared/run_registry.py, RunRegistry). */
module RegistryObject {
  import opened Wrappers
  import opened Ordering
  import opened RunLog
  import opened RunRegistry

  /** dict deletion. */
  function Remove(order: seq<RunId>, id: RunId): seq<RunId>
    decreases |order|
  {
    if order == [] then []
    else if order[0] == id then Remove(order[1..], id)
    else [order[0]] + Remove(order[1..], id)
  }

  lemma {:induction false} RemoveAbsent(order: seq<RunId>, id: RunId)
    requires id !in order
    ensures Remove(order, id) == order
    decreases |order|
  {
    if order != [] {
      RemoveAbsent(order[1..], id);
    }
  }

  lemma {:induction false} FinishedInWithin(r: Registry, order: seq<RunId>)
    ensures forall id :: id in FinishedIn(r, order) ==> id in order
    decreases |order|
  {
    if order != [] {
      FinishedInWithin(r, order[1..]);
      assert order == [order[0]] + order[1..];
    }
  }

  /** Deleting the listed finished runs one by one drops the oldest ones first. */
  lemma {:induction false} DropNext(r: Registry, order: seq<RunId>, i: nat)
    requires Distinct(order) && i < |FinishedIn(r, order)|
    ensures Remove(DropOldest(r, order, i), FinishedIn(r, order)[i]) == DropOldest(r, order, i + 1)
    decreases |order|
  {
    var first, rest := order[0], order[1..];
    assert order == [first] + rest && first !in rest;
    if IsFinished(r, first) {
      if i == 0 {
        RemoveAbsent(rest, first);
      } else {
        DropNext(r, rest, i - 1);
      }
    } else {
      DropNext(r, rest, i);
      FinishedInWithin(r, rest);
      assert DropOldest(r, order, i) == [first] + DropOldest(r, rest, i);
    }
  }

  /** The live runs among the first `n` of the registry's keys. */
  function LiveUpTo(r: Registry, target: Option<string>, n: nat): set<RunId>
    requires n <= |r.order|
  {
    if n == 0 then {}
    else if Matches(r, target, r.order[n - 1]) then LiveUpTo(r, target, n - 1) + {r.order[n - 1]}
    else LiveUpTo(r, target, n - 1)
  }

  lemma {:induction false} LiveUpToMembers(r: Registry, target: Option<string>, n: nat)
    requires n <= |r.order|
    ensures forall id :: id in LiveUpTo(r, target, n) <==> id in r.order[..n] && Matches(r, target, id)
  {
    if n > 0 {
      LiveUpToMembers(r, target, n - 1);
      assert r.order[..n] == r.order[..n - 1] + [r.order[n - 1]];
    }
  }

  lemma LiveUpToFresh(r: Registry, target: Option<string>, n: nat)
    requires Distinct(r.order) && n < |r.order|
    ensures r.order[n] !in LiveUpTo(r, target, n)
  {
    LiveUpToMembers(r, target, n);
  }

  lemma LiveUpToAll(r: Registry, target: Option<string>)
    ensures LiveUpTo(r, target, |r.order|) == LiveMatching(r, target)
  {
    LiveUpToMembers(r, target, |r.order|);
    assert r.order[..|r.order|] == r.order;
  }

  lemma SignalledNext(r: Registry, ids: set<RunId>, id: RunId)
    requires id in r.handles
    ensures var handles := Signalled(r, ids).handles;
            handles[id := handles[id].(cancelRequested := true)] == Signalled(r, ids + {id}).handles
    ensures Signalled(r, ids).handles[id].status == r.handles[id].status
    ensures Signalled(r, ids).handles[id].target == r.handles[id].target
  {
  }

  lemma SignalledNone(r: Registry)
    ensures Signalled(r, {}) == r
  {
    assert Signalled(r, {}).handles == r.handles;
  }

  /** Turning the status first and writing the record afterwards is the one step `Terminated` describes. */
  lemma TerminatedLast(r: Registry, turned: Registry, id: RunId, status: Status, phase: Phase)
    requires id in r.handles
    requires turned == r.(handles := r.handles[id := r.handles[id].(status := status, phase := phase)])
    ensures Woken(turned, id, Logged(turned.handles[id], RUN_END_EVENT, Payload(None, None, Some(status)))) ==
            Woken(r, id, Terminated(r.handles[id], status).(phase := phase))
  {
  }

  /** The event is the next record, the run waits for a key exactly on `needs_key`, and a verdict on the log so far
      becomes that on the longer one. */
  ghost predicate TakesIn(before: Handle, after: Handle, name: string, data: Payload) {
    after.events == before.events + [Record(|before.events| + 1, name, data)] &&
    after.status == (if name == "needs_key" then NeedsKey else Running) &&
    (before.outcome == Verdict(before.childErrorEvents, before.events) ==>
       after.outcome == Verdict(before.childErrorEvents, after.events))
  }

  lemma TakenIn(h: Handle, name: string, data: Payload)
    ensures TakesIn(h, Consumed(h, name, data), name, data)
  {
    JudgedIncrementally(h.childErrorEvents, h.events, Record(|h.events| + 1, name, data));
  }

  class RunRegistryObject {
    var handles: map<RunId, Handle>
    var order: seq<RunId>
    var settled: set<FutureId>
    var nextFuture: FutureId
    const maxFinished: nat

    function View(): Registry
      reads this
    {
      Registry(handles, order, settled, nextFuture, maxFinished)
    }

    constructor (maxFinished: nat)
      ensures View() == Empty(maxFinished).reg
    {
      this.maxFinished := maxFinished;
      handles, order, settled, nextFuture := map[], [], {}, 0;
    }

    method Start(id: RunId, target: string, childErrorEvents: set<string>)
      requires id !in handles
      modifies this
      ensures View() == RegistryStep(old(View()), Action.Start(id, target, childErrorEvents))
    {
      handles := handles[id := NewHandle(target, childErrorEvents)];
      order := order + [id];
    }

    method Cancel(id: RunId) returns (signalled: bool)
      modifies this
      ensures signalled <==> id in old(order) && IsLive(old(View()), id)
      ensures View() == RegistryStep(old(View()), Action.Cancel(id))
    {
      if id !in order || id !in handles || handles[id].status.Terminal() {
        return false;
      }
      ghost var before := View();
      handles := handles[id := handles[id].(cancelRequested := true)];
      assert handles == Signalled(before, {id}).handles;
      return true;
    }

    method CancelMatching(target: Option<string>) returns (cancelled: nat)
      requires Known(View()) && Distinct(order)
      modifies this
      ensures View() == Signalled(old(View()), LiveMatching(old(View()), target))
      ensures cancelled == |LiveMatching(old(View()), target)|
    {
      ghost var before, ids := View(), LiveUpTo(View(), target, 0);
      SignalledNone(before);
      cancelled := 0;
      var i := 0;
      while i < |order|
        invariant i <= |order| && order == before.order && settled == before.settled && nextFuture == before.nextFuture
        invariant ids == LiveUpTo(before, target, i) && cancelled == |ids|
        invariant handles == Signalled(before, ids).handles
      {
        var id := order[i];
        LiveUpToFresh(before, target, i);
        SignalledNext(before, ids, id);
        assert IsLive(before, id) <==> !handles[id].status.Terminal();
        if !handles[id].status.Terminal() && (target == None || target == Some(handles[id].target)) {
          assert Matches(before, target, id);
          handles := handles[id := handles[id].(cancelRequested := true)];
          cancelled := cancelled + 1;
          ids := ids + {id};
        }
        i := i + 1;
      }
      LiveUpToAll(before, target);
    }

    method CancelTarget(target: string) returns (cancelled: nat)
      requires Known(View()) && Distinct(order)
      modifies this
      ensures View() == RegistryStep(old(View()), Action.CancelTarget(target))
      ensures cancelled == |LiveMatching(old(View()), Some(target))|
    {
      cancelled := CancelMatching(Some(target));
    }

    method Reset() returns (cancelled: nat)
      requires Known(View()) && Distinct(order)
      modifies this
      ensures View() == RegistryStep(old(View()), Action.Reset)
      ensures cancelled == |LiveMatching(old(View()), None)|
    {
      cancelled := CancelMatching(None);
      order := [];
    }

    /** Appends one record and wakes everyone waiting on the log. */
    method Append(id: RunId, name: string, data: Payload)
      requires id in handles
      modifies this
      ensures View() == Woken(old(View()), id, Logged(old(handles)[id], name, data))
      ensures var before := old(handles)[id];
              handles == old(handles)[id := before.(
                events := before.events + [Record(|before.events| + 1, name, data)], waiters := [])] &&
              settled == old(settled) + (set f | f in before.waiters) &&
              order == old(order) && nextFuture == old(nextFuture)
    {
      var h := handles[id];
      var record := Record(|h.events| + 1, name, data);
      handles := handles[id := h.(events := h.events + [record], waiters := [])];
      var i := 0;
      while i < |h.waiters|
        invariant i <= |h.waiters|
        invariant handles == old(handles)[id := Logged(h, name, data)]
        invariant order == old(order) && nextFuture == old(nextFuture)
        invariant settled == old(settled) + set j | 0 <= j < i :: h.waiters[j]
      {
        settled := settled + {h.waiters[i]};
        i := i + 1;
      }
      assert (set j | 0 <= j < i :: h.waiters[j]) == WaitingOn(h);
    }

    /** Forgets the oldest finished runs beyond the retention cap. */
    method EvictFinished()
      requires Known(View()) && Distinct(order)
      modifies this`order
      ensures View() == Evicted(old(View()))
    {
      ghost var before := View();
      var finished := [];
      var i := 0;
      while i < |order|
        invariant i <= |order| && order == before.order
        invariant FinishedIn(before, order) == finished + FinishedIn(before, order[i..])
      {
        if handles[order[i]].status.Terminal() {
          finished := finished + [order[i]];
        }
        i := i + 1;
      }
      assert finished == FinishedIn(before, before.order);
      var excess := if |finished| > maxFinished then |finished| - maxFinished else 0;
      i := 0;
      while i < excess
        invariant i <= excess && order == DropOldest(before, before.order, i)
      {
        DropNext(before, before.order, i);
        order := Remove(order, finished[i]);
        i := i + 1;
      }
    }

    /** One turn of the driver's loop. */
    method Consume(id: RunId, name: string, data: Payload)
      requires InPhase(View(), id, Driving)
      modifies this
      ensures View() == RegistryStep(old(View()), Yielded(id, name, data))
      ensures TakesIn(old(handles)[id], handles[id], name, data)
    {
      TakenIn(handles[id], name, data);
      var status := handles[id].outcome;
      Append(id, name, data);
      var h := handles[id];
      if name == "complete" && h.childErrorEvents != {} {
        if data.success == Some(false) {
          status := Failed;
        }
      } else if name !in h.childErrorEvents && IsErrorName(name) {
        var preservedSpeedResult := data.code == Some("speed_test_cleanup_failed") && HasCacheResult(h.events);
        status := if preservedSpeedResult && status != Failed then Partial else Failed;
      }
      handles := handles[id := h.(status := if name == NEEDS_KEY_EVENT then NeedsKey else Running, outcome := status)];
    }

    /** The generator raised: the failure itself becomes a record. */
    method Fail(id: RunId)
      requires InPhase(View(), id, Driving)
      modifies this
      ensures View() == RegistryStep(old(View()), GeneratorRaised(id))
    {
      Append(id, "error", Payload(None, Some("RUN_FAILED"), None));
      handles := handles[id := handles[id].(outcome := Failed, phase := Closing(Raised))];
    }

    /** The driver's finally block after the generator was closed. */
    method Finish(id: RunId)
      requires Known(View()) && Distinct(order) && id in handles && handles[id].phase.Closing?
      modifies this
      ensures View() == RegistryStep(old(View()), Closed(id))
    {
      var h := handles[id];
      handles := handles[id := h.(status := h.outcome, phase := Finished(h.phase.ending))];
      ghost var turned := View();
      Append(id, RUN_END_EVENT, Payload(None, None, Some(h.outcome)));
      TerminatedLast(old(View()), turned, id, h.outcome, Finished(h.phase.ending));
      EvictFinished();
    }

    /** The done-callback of the driver's task. */
    method TerminalizeCancelledBeforeStart(id: RunId)
      requires Known(View()) && Distinct(order) && id in handles
      requires handles[id].phase.Unstarted? ==> !handles[id].status.Terminal()
      requires handles[id].phase.Finished? || handles[id].phase.Unstarted?
      modifies this
      ensures View() == RegistryStep(old(View()), DoneCallback(id))
    {
      var h := handles[id];
      var cancelled := h.phase.Unstarted?;
      if !cancelled || h.status.Terminal() {
        handles := handles[id := h.(phase := Settled(h.phase.ending))];
        return;
      }
      handles := handles[id := h.(status := Cancelled, phase := Settled(Interrupted))];
      ghost var turned := View();
      Append(id, RUN_END_EVENT, Payload(None, None, Some(Cancelled)));
      TerminatedLast(old(View()), turned, id, Cancelled, Settled(Interrupted));
      EvictFinished();
    }

    /** One step of the subscription generator. */
    method NextRecord(sub: Subscriber) returns (next: Subscriber)
      requires sub.run in handles && CanResume(View(), sub)
      modifies this
      ensures (View(), next) == Resumed(old(View()), sub)
    {
      var h := handles[sub.run];
      if sub.index < |h.events| {
        return sub.(index := sub.index + 1, delivered := sub.delivered + [h.events[sub.index]], waiting := Ready);
      }
      if h.status.Terminal() {
        return sub.(waiting := Returned);
      }
      var future := nextFuture;
      nextFuture := nextFuture + 1;
      handles := handles[sub.run := h.(waiters := h.waiters + [future])];
      return sub.(waiting := Parked(future));
    }
  }
}
