/** The registry of background runs: detached drivers, replay to live subscribers, cancellation and
    eviction (cli/shared/run_registry.py). Code between two awaits is one atomic step. */
module RunRegistry {
  import opened Wrappers
  import opened RunLog
  import opened Ordering

  type RunId = string
  type SubscriberId = nat

  /** `handles` holds every handle some task or subscriber still refers to; `order` is the insertion-ordered
      key list of the registry's own dictionary. */
  datatype Registry = Registry(
    handles: map<RunId, Handle>,
    order: seq<RunId>,
    settled: set<FutureId>,
    nextFuture: FutureId,
    maxFinished: nat)

  predicate Known(r: Registry) {
    forall id :: id in r.order ==> id in r.handles
  }

  predicate IsLive(r: Registry, id: RunId) {
    id in r.handles && !r.handles[id].status.Terminal()
  }

  predicate IsFinished(r: Registry, id: RunId) {
    id in r.handles && r.handles[id].status.Terminal()
  }

  // ---------- Steps of the registry ----------

  function Started(r: Registry, id: RunId, target: string, childErrorEvents: set<string>): Registry {
    r.(handles := r.handles[id := NewHandle(target, childErrorEvents)], order := r.order + [id])
  }

  function WaitingOn(h: Handle): set<FutureId> {
    set f | f in h.waiters
  }

  /** Replaces one handle after its log grew: every future waiting on it is settled. */
  function Woken(r: Registry, id: RunId, h: Handle): Registry
    requires id in r.handles
  {
    r.(handles := r.handles[id := h], settled := r.settled + WaitingOn(r.handles[id]))
  }

  /** The order without its oldest `excess` finished runs. */
  function DropOldest(r: Registry, order: seq<RunId>, excess: nat): seq<RunId>
    decreases |order|
  {
    if order == [] || excess == 0 then order
    else if IsFinished(r, order[0]) then DropOldest(r, order[1..], excess - 1)
    else [order[0]] + DropOldest(r, order[1..], excess)
  }

  function FinishedIn(r: Registry, order: seq<RunId>): seq<RunId>
    decreases |order|
  {
    if order == [] then []
    else (if IsFinished(r, order[0]) then [order[0]] else []) + FinishedIn(r, order[1..])
  }

  function Excess(r: Registry): nat {
    var n := |FinishedIn(r, r.order)|;
    if n > r.maxFinished then n - r.maxFinished else 0
  }

  function Evicted(r: Registry): Registry {
    r.(order := DropOldest(r, r.order, Excess(r)))
  }

  /** The run turns terminal: status, terminal record and eviction in one step. */
  function Ended(r: Registry, id: RunId, status: Status, phase: Phase): Registry
    requires id in r.handles
  {
    Evicted(Woken(r, id, Terminated(r.handles[id], status).(phase := phase)))
  }

  predicate Matches(r: Registry, target: Option<string>, id: RunId) {
    IsLive(r, id) && (target == None || target == Some(r.handles[id].target))
  }

  /** task.cancel() on every registered live run (of one target, or of all). */
  function Signalled(r: Registry, ids: set<RunId>): Registry {
    r.(handles := map id | id in r.handles ::
                    if id in ids then r.handles[id].(cancelRequested := true) else r.handles[id])
  }

  function LiveMatching(r: Registry, target: Option<string>): set<RunId> {
    set id | id in r.order && Matches(r, target, id)
  }

  // ---------- Subscribers ----------

  /** A subscriber is between two records, awaits a future, has returned, or was dropped by its consumer. */
  datatype Waiting = Ready | Parked(future: FutureId) | Returned | Dropped

  datatype Subscriber = Subscriber(run: RunId, afterSeq: nat, index: nat, delivered: seq<Record>, waiting: Waiting)

  predicate CanResume(r: Registry, sub: Subscriber) {
    sub.waiting.Ready? || (sub.waiting.Parked? && sub.waiting.future in r.settled)
  }

  /** One step of the subscription generator: deliver the next record, return, or park. */
  function Resumed(r: Registry, sub: Subscriber): (Registry, Subscriber)
    requires sub.run in r.handles
  {
    var h := r.handles[sub.run];
    if sub.index < |h.events| then
      (r, sub.(index := sub.index + 1, delivered := sub.delivered + [h.events[sub.index]], waiting := Ready))
    else if h.status.Terminal() then
      (r, sub.(waiting := Returned))
    else
      (r.(handles := r.handles[sub.run := h.(waiters := h.waiters + [r.nextFuture])], nextFuture := r.nextFuture + 1),
       sub.(waiting := Parked(r.nextFuture)))
  }

  // ---------- The whole system ----------

  datatype System = System(reg: Registry, subs: map<SubscriberId, Subscriber>)

  datatype Action =
    | Start(id: RunId, target: string, childErrorEvents: set<string>)
    | FirstStep(id: RunId)
    | Yielded(id: RunId, name: string, data: Payload)
    | GeneratorDone(id: RunId)
    | GeneratorRaised(id: RunId)
    | GeneratorCancelled(id: RunId)
    | Closed(id: RunId)
    | DoneCallback(id: RunId)
    | Cancel(id: RunId)
    | CancelTarget(target: string)
    | Reset
    | Attach(sub: SubscriberId, id: RunId, afterSeq: nat)
    | Resume(sub: SubscriberId)
    | Drop(sub: SubscriberId)

  predicate InPhase(r: Registry, id: RunId, phase: Phase) {
    id in r.handles && r.handles[id].phase == phase
  }

  /** The registry after an action of a driver, a canceller or a caller; an action that cannot happen now
      changes nothing. */
  function RegistryStep(r: Registry, a: Action): Registry {
    match a
    case Start(id, target, childErrorEvents) =>
      if id in r.handles then r else Started(r, id, target, childErrorEvents)
    case FirstStep(id) =>
      if !InPhase(r, id, Scheduled) then r
      else
        var h := r.handles[id];
        r.(handles := r.handles[id := h.(phase := if h.cancelRequested then Unstarted else Driving)])
    case Yielded(id, name, data) =>
      if !InPhase(r, id, Driving) then r else Woken(r, id, Consumed(r.handles[id], name, data))
    case GeneratorDone(id) =>
      if !InPhase(r, id, Driving) then r
      else r.(handles := r.handles[id := r.handles[id].(phase := Closing(Exhausted))])
    case GeneratorRaised(id) =>
      if !InPhase(r, id, Driving) then r
      else
        var h := Logged(r.handles[id], "error", Payload(None, Some("RUN_FAILED"), None));
        Woken(r, id, h.(outcome := Failed, phase := Closing(Raised)))
    case GeneratorCancelled(id) =>
      if !InPhase(r, id, Driving) then r
      else r.(handles := r.handles[id := r.handles[id].(outcome := Cancelled, phase := Closing(Interrupted))])
    case Closed(id) =>
      if id in r.handles && r.handles[id].phase.Closing?
      then Ended(r, id, r.handles[id].outcome, Finished(r.handles[id].phase.ending)) else r
    case DoneCallback(id) =>
      if InPhase(r, id, Unstarted) then Ended(r, id, Cancelled, Settled(Interrupted))
      else if id in r.handles && r.handles[id].phase.Finished? then
        r.(handles := r.handles[id := r.handles[id].(phase := Settled(r.handles[id].phase.ending))])
      else r
    case Cancel(id) =>
      if id in r.order && IsLive(r, id) then Signalled(r, {id}) else r
    case CancelTarget(target) =>
      Signalled(r, LiveMatching(r, Some(target)))
    case Reset =>
      Signalled(r, LiveMatching(r, None)).(order := [])
    case _ => r
  }

  function Step(s: System, a: Action): System {
    match a
    case Attach(sub, id, afterSeq) =>
      if sub in s.subs || id !in s.reg.order || id !in s.reg.handles then s
      else s.(subs := s.subs[sub := Subscriber(id, afterSeq, afterSeq, [], Ready)])
    case Resume(sub) =>
      if sub !in s.subs || s.subs[sub].run !in s.reg.handles || !CanResume(s.reg, s.subs[sub]) then s
      else
        var (reg, next) := Resumed(s.reg, s.subs[sub]);
        System(reg, s.subs[sub := next])
    case Drop(sub) =>
      if sub !in s.subs then s
      else
        var waiting := s.subs[sub].waiting;
        System(if waiting.Parked? then s.reg.(settled := s.reg.settled + {waiting.future}) else s.reg,
               s.subs[sub := s.subs[sub].(waiting := Dropped)])
    case _ => s.(reg := RegistryStep(s.reg, a))
  }

  function Empty(maxFinished: nat): System {
    System(Registry(map[], [], {}, 0, maxFinished), map[])
  }

  function After(maxFinished: nat, actions: seq<Action>): System
    decreases |actions|
  {
    if actions == [] then Empty(maxFinished)
    else Step(After(maxFinished, actions[..|actions| - 1]), actions[|actions| - 1])
  }

  // ---------- Eviction ----------

  function CountFinished(r: Registry, order: seq<RunId>): nat
    decreases |order|
  {
    if order == [] then 0 else (if IsFinished(r, order[0]) then 1 else 0) + CountFinished(r, order[1..])
  }

  lemma {:induction false} FinishedInCount(r: Registry, order: seq<RunId>)
    ensures |FinishedIn(r, order)| == CountFinished(r, order)
    decreases |order|
  {
    if order != [] {
      FinishedInCount(r, order[1..]);
    }
  }

  lemma {:induction false} CountAppend(r: Registry, order: seq<RunId>, id: RunId)
    ensures CountFinished(r, order + [id]) == CountFinished(r, order) + if IsFinished(r, id) then 1 else 0
    decreases |order|
  {
    if order != [] {
      assert (order + [id])[1..] == order[1..] + [id];
      CountAppend(r, order[1..], id);
    } else {
      assert ([id])[1..] == [];
      assert CountFinished(r, [id]) == (if IsFinished(r, id) then 1 else 0) + CountFinished(r, []);
    }
  }

  /** Dropping removes exactly the oldest finished runs: live runs stay, and so does every finished run that
      is newer than a finished run that stayed. */
  lemma {:induction false} DropOldestKeeps(r: Registry, order: seq<RunId>, excess: nat)
    requires excess <= CountFinished(r, order) && Distinct(order)
    ensures CountFinished(r, DropOldest(r, order, excess)) == CountFinished(r, order) - excess
    ensures Distinct(DropOldest(r, order, excess))
    ensures forall id :: id in DropOldest(r, order, excess) ==> id in order
    ensures forall id :: id in order && !IsFinished(r, id) ==> id in DropOldest(r, order, excess)
    ensures forall i, j ::
              0 <= i < j < |order| && IsFinished(r, order[i]) && order[i] in DropOldest(r, order, excess) ==>
              order[j] in DropOldest(r, order, excess)
    decreases |order|
  {
    if order != [] && excess > 0 {
      var rest := order[1..];
      assert order == [order[0]] + rest && order[0] !in rest;
      DropOldestKeeps(r, rest, if IsFinished(r, order[0]) then excess - 1 else excess);
    }
  }

  // ---------- Invariants ----------

  ghost predicate ValidRegistry(r: Registry) {
    Known(r) && Distinct(r.order) && CountFinished(r, r.order) <= r.maxFinished &&
    (forall id :: id in r.handles ==> ValidHandle(r.handles[id])) &&
    (forall f :: f in r.settled ==> f < r.nextFuture) &&
    (forall id, f :: id in r.handles && f in r.handles[id].waiters ==> f < r.nextFuture)
  }

  /** Exactly-once delivery and no lost wakeup, as one state predicate. */
  ghost predicate ValidSubscriber(r: Registry, sub: Subscriber) {
    sub.run in r.handles &&
    var h := r.handles[sub.run];
    (if sub.afterSeq <= |h.events|
     then sub.afterSeq <= sub.index <= |h.events| && sub.delivered == h.events[sub.afterSeq..sub.index]
     else sub.index == sub.afterSeq && sub.delivered == []) &&
    (sub.waiting.Parked? && sub.waiting.future !in r.settled ==>
       sub.waiting.future in h.waiters && |h.events| <= sub.index && !h.status.Terminal()) &&
    (sub.waiting.Returned? ==> h.status.Terminal() && |h.events| <= sub.index)
  }

  ghost predicate Valid(s: System) {
    ValidRegistry(s.reg) && forall k :: k in s.subs ==> ValidSubscriber(s.reg, s.subs[k])
  }

  /** How one step may change one handle: the log only grows, a terminal handle is frozen, and a future
      waiting on the log stays on the list or is settled. */
  ghost predicate HandleAdvances(h: Handle, h': Handle, settled: set<FutureId>) {
    h.events <= h'.events && h'.target == h.target && h'.childErrorEvents == h.childErrorEvents &&
    (h.status.Terminal() ==> h'.events == h.events && h'.status == h.status && h'.waiters == h.waiters) &&
    ((h'.events == h.events && (h'.status.Terminal() ==> h.status.Terminal()) &&
      forall f :: f in h.waiters ==> f in h'.waiters) ||
     (forall f :: f in h.waiters ==> f in settled))
  }

  ghost predicate Advances(r: Registry, r': Registry) {
    r.settled <= r'.settled && r.maxFinished == r'.maxFinished &&
    forall id :: id in r.handles ==> id in r'.handles && HandleAdvances(r.handles[id], r'.handles[id], r'.settled)
  }

  lemma SubscriberKept(r: Registry, r': Registry, sub: Subscriber)
    requires ValidSubscriber(r, sub) && Advances(r, r')
    ensures ValidSubscriber(r', sub)
  {
  }

  lemma WokenAdvances(r: Registry, id: RunId, h: Handle)
    requires id in r.handles && ValidRegistry(r) && !r.handles[id].status.Terminal()
    requires r.handles[id].events <= h.events && h.waiters == []
    requires h.target == r.handles[id].target && h.childErrorEvents == r.handles[id].childErrorEvents
    ensures Advances(r, Woken(r, id, h))
  {
  }

  lemma ConsumedValid(h: Handle, name: string, data: Payload)
    requires ValidHandle(h) && h.phase.Driving?
    ensures ValidHandle(Consumed(h, name, data))
  {
    JudgedIncrementally(h.childErrorEvents, h.events, Record(|h.events| + 1, name, data));
  }

  lemma TerminatedValid(h: Handle, status: Status, phase: Phase)
    requires ValidHandle(h)
    requires (h.phase.Closing? && status == h.outcome && phase == Finished(h.phase.ending)) ||
             (h.phase.Unstarted? && status == Cancelled && phase == Settled(Interrupted))
    ensures ValidHandle(Terminated(h, status).(phase := phase))
  {
    var h' := Terminated(h, status).(phase := phase);
    assert h'.events[..|h'.events| - 1] == h.events;
  }

  lemma {:induction false} CountSame(r: Registry, r': Registry, order: seq<RunId>)
    requires forall id :: id in order ==> IsFinished(r, id) == IsFinished(r', id)
    ensures CountFinished(r, order) == CountFinished(r', order)
    decreases |order|
  {
    if order != [] {
      CountSame(r, r', order[1..]);
    }
  }

  /** The retention cap holds again as soon as the eviction ran. */
  lemma EvictedWithinCap(r: Registry)
    requires Known(r) && Distinct(r.order)
    ensures var r' := Evicted(r);
            Known(r') && Distinct(r'.order) && CountFinished(r', r'.order) <= r.maxFinished &&
            (forall id :: id in r'.order ==> id in r.order) &&
            (forall id :: id in r.order && IsLive(r, id) ==> id in r'.order)
  {
    FinishedInCount(r, r.order);
    DropOldestKeeps(r, r.order, Excess(r));
    CountSame(r, Evicted(r), Evicted(r).order);
  }

  lemma {:induction false} DroppedExactlyWhen(r: Registry, order: seq<RunId>, excess: nat, i: nat)
    requires Distinct(order) && excess <= CountFinished(r, order) && i < |order|
    ensures order[i] in DropOldest(r, order, excess) <==>
      !IsFinished(r, order[i]) || CountFinished(r, order[i + 1..]) < CountFinished(r, order) - excess
    decreases |order|
  {
    CountUpTo(r, order, i + 1);
    if excess > 0 {
      var rest := order[1..];
      var left := if IsFinished(r, order[0]) then excess - 1 else excess;
      assert order == [order[0]] + rest && order[0] !in rest;
      DropOldestKeeps(r, rest, left);
      if i > 0 {
        assert order[i] == rest[i - 1] && order[i + 1..] == rest[i..];
        DroppedExactlyWhen(r, rest, left, i - 1);
      }
    }
  }

  lemma {:induction false} CountUpTo(r: Registry, order: seq<RunId>, i: nat)
    requires i <= |order|
    ensures CountFinished(r, order[i..]) + (if 0 < i && IsFinished(r, order[i - 1]) then 1 else 0) <=
      CountFinished(r, order)
    decreases |order|
  {
    if 0 < i {
      assert order[i..] == order[1..][i - 1..];
      CountUpTo(r, order[1..], i - 1);
    }
  }

  /** A listed run stays exactly when it is live or fewer than the cap of finished runs are listed behind it. */
  lemma EvictedExactlyWhen(r: Registry, i: nat)
    requires Known(r) && Distinct(r.order) && i < |r.order|
    ensures r.order[i] in Evicted(r).order <==>
      IsLive(r, r.order[i]) || CountFinished(r, r.order[i + 1..]) < r.maxFinished
  {
    FinishedInCount(r, r.order);
    DroppedExactlyWhen(r, r.order, Excess(r), i);
    CountUpTo(r, r.order, i + 1);
  }

  lemma EndedValid(r: Registry, id: RunId, status: Status, phase: Phase)
    requires ValidRegistry(r) && id in r.handles
    requires ValidHandle(Terminated(r.handles[id], status).(phase := phase)) && !r.handles[id].status.Terminal()
    ensures ValidRegistry(Ended(r, id, status, phase)) && Advances(r, Ended(r, id, status, phase))
  {
    var h := Terminated(r.handles[id], status).(phase := phase);
    WokenAdvances(r, id, h);
    EvictedWithinCap(Woken(r, id, h));
  }

  /** One handle changes without its log, its terminal state or its waiters changing. */
  lemma ReplacedValid(r: Registry, id: RunId, h: Handle)
    requires ValidRegistry(r) && id in r.handles && ValidHandle(h)
    requires h.events == r.handles[id].events && h.status == r.handles[id].status && h.waiters == r.handles[id].waiters
    requires h.target == r.handles[id].target && h.childErrorEvents == r.handles[id].childErrorEvents
    ensures var r' := r.(handles := r.handles[id := h]); ValidRegistry(r') && Advances(r, r')
  {
    var r' := r.(handles := r.handles[id := h]);
    CountSame(r, r', r.order);
  }

  lemma SignalledValid(r: Registry, ids: set<RunId>)
    requires ValidRegistry(r)
    ensures ValidRegistry(Signalled(r, ids)) && Advances(r, Signalled(r, ids))
  {
    CountSame(r, Signalled(r, ids), r.order);
  }

  lemma StartedValid(r: Registry, id: RunId, target: string, childErrorEvents: set<string>)
    requires ValidRegistry(r) && id !in r.handles
    ensures ValidRegistry(Started(r, id, target, childErrorEvents))
    ensures Advances(r, Started(r, id, target, childErrorEvents))
  {
    var r' := Started(r, id, target, childErrorEvents);
    CountSame(r, r', r.order);
    CountAppend(r', r.order, id);
  }

  lemma LoggedStepValid(r: Registry, id: RunId, h: Handle)
    requires ValidRegistry(r) && id in r.handles && ValidHandle(h)
    requires !r.handles[id].status.Terminal() && !h.status.Terminal() && h.waiters == []
    requires r.handles[id].events <= h.events
    requires h.target == r.handles[id].target && h.childErrorEvents == r.handles[id].childErrorEvents
    ensures ValidRegistry(Woken(r, id, h)) && Advances(r, Woken(r, id, h))
  {
    WokenAdvances(r, id, h);
    CountSame(r, Woken(r, id, h), r.order);
  }

  /** What the driver's first step, or its leaving of the loop, makes of its handle. */
  function Silent(h: Handle, a: Action): Handle {
    if a.FirstStep? && h.phase.Scheduled? then h.(phase := if h.cancelRequested then Unstarted else Driving)
    else if a.GeneratorDone? && h.phase.Driving? then h.(phase := Closing(Exhausted))
    else if a.GeneratorCancelled? && h.phase.Driving? then
      h.(outcome := Cancelled, phase := Closing(Interrupted))
    else h
  }

  lemma SilentHandleValid(h: Handle, a: Action)
    requires ValidHandle(h)
    ensures ValidHandle(Silent(h, a))
  {
  }

  /** The driver leaves its loop, or takes its first step: no record is written. */
  lemma SilentStepValid(r: Registry, a: Action)
    requires ValidRegistry(r) && (a.FirstStep? || a.GeneratorDone? || a.GeneratorCancelled?)
    ensures ValidRegistry(RegistryStep(r, a)) && Advances(r, RegistryStep(r, a))
  {
    if a.id in r.handles {
      var h := r.handles[a.id];
      SilentHandleValid(h, a);
      ReplacedValid(r, a.id, Silent(h, a));
      SilentReplaces(r, a);
    }
  }

  lemma SilentReplaces(r: Registry, a: Action)
    requires (a.FirstStep? || a.GeneratorDone? || a.GeneratorCancelled?) && a.id in r.handles
    ensures RegistryStep(r, a) == r.(handles := r.handles[a.id := Silent(r.handles[a.id], a)])
  {
    assert Silent(r.handles[a.id], a) == r.handles[a.id] ==> r.handles[a.id := r.handles[a.id]] == r.handles;
  }

  lemma LoggingStepValid(r: Registry, a: Action)
    requires ValidRegistry(r) && (a.Yielded? || a.GeneratorRaised?)
    ensures ValidRegistry(RegistryStep(r, a)) && Advances(r, RegistryStep(r, a))
  {
    if InPhase(r, a.id, Driving) {
      var h := r.handles[a.id];
      if a.Yielded? {
        ConsumedValid(h, a.name, a.data);
        LoggedStepValid(r, a.id, Consumed(h, a.name, a.data));
      } else {
        var logged := Logged(h, "error", Payload(None, Some("RUN_FAILED"), None));
        LoggedStepValid(r, a.id, logged.(outcome := Failed, phase := Closing(Raised)));
      }
    }
  }

  lemma ClosedStepValid(r: Registry, a: Action)
    requires ValidRegistry(r) && a.Closed?
    ensures ValidRegistry(RegistryStep(r, a)) && Advances(r, RegistryStep(r, a))
  {
    var id := a.id;
    if id in r.handles && r.handles[id].phase.Closing? {
      TerminatedValid(r.handles[id], r.handles[id].outcome, Finished(r.handles[id].phase.ending));
      EndedValid(r, id, r.handles[id].outcome, Finished(r.handles[id].phase.ending));
    }
  }

  lemma CallbackStepValid(r: Registry, a: Action)
    requires ValidRegistry(r) && a.DoneCallback?
    ensures ValidRegistry(RegistryStep(r, a)) && Advances(r, RegistryStep(r, a))
  {
    var id := a.id;
    if InPhase(r, id, Unstarted) {
      TerminatedValid(r.handles[id], Cancelled, Settled(Interrupted));
      EndedValid(r, id, Cancelled, Settled(Interrupted));
    } else if id in r.handles && r.handles[id].phase.Finished? {
      ReplacedValid(r, id, r.handles[id].(phase := Settled(r.handles[id].phase.ending)));
    }
  }

  lemma RegistryStepValid(r: Registry, a: Action)
    requires ValidRegistry(r)
    ensures ValidRegistry(RegistryStep(r, a)) && Advances(r, RegistryStep(r, a))
  {
    match a {
      case Start(id, target, childErrorEvents) =>
        if id !in r.handles {
          StartedValid(r, id, target, childErrorEvents);
        }
      case Closed(_) => ClosedStepValid(r, a);
      case DoneCallback(_) => CallbackStepValid(r, a);
      case Cancel(id) => SignalledValid(r, {id});
      case CancelTarget(target) => SignalledValid(r, LiveMatching(r, Some(target)));
      case Reset => SignalledValid(r, LiveMatching(r, None));
      case Attach(_, _, _) =>
      case Resume(_) =>
      case Drop(_) =>
      case Yielded(_, _, _) => LoggingStepValid(r, a);
      case GeneratorRaised(_) => LoggingStepValid(r, a);
      case _ => SilentStepValid(r, a);
    }
  }

  lemma DeliverValid(r: Registry, sub: Subscriber)
    requires ValidRegistry(r) && ValidSubscriber(r, sub) && sub.index < |r.handles[sub.run].events|
    ensures ValidSubscriber(r, Resumed(r, sub).1)
  {
    var events := r.handles[sub.run].events;
    assert events[sub.afterSeq..sub.index + 1] == events[sub.afterSeq..sub.index] + [events[sub.index]];
  }

  lemma ParkValid(r: Registry, id: RunId)
    requires ValidRegistry(r) && IsLive(r, id)
    ensures var h := r.handles[id];
            var r' := r.(handles := r.handles[id := h.(waiters := h.waiters + [r.nextFuture])],
                         nextFuture := r.nextFuture + 1);
            ValidRegistry(r') && Advances(r, r')
  {
    var h := r.handles[id];
    var r' := r.(handles := r.handles[id := h.(waiters := h.waiters + [r.nextFuture])], nextFuture := r.nextFuture + 1);
    CountSame(r, r', r.order);
    assert ValidHandle(r'.handles[id]);
  }

  lemma ResumedValid(r: Registry, sub: Subscriber)
    requires ValidRegistry(r) && ValidSubscriber(r, sub)
    ensures ValidRegistry(Resumed(r, sub).0) && Advances(r, Resumed(r, sub).0)
    ensures ValidSubscriber(Resumed(r, sub).0, Resumed(r, sub).1)
  {
    var h := r.handles[sub.run];
    if sub.index < |h.events| {
      DeliverValid(r, sub);
    } else if !h.status.Terminal() {
      ParkValid(r, sub.run);
    }
  }

  lemma SubscribersKept(s: System, r': Registry)
    requires Valid(s) && Advances(s.reg, r')
    ensures forall k :: k in s.subs ==> ValidSubscriber(r', s.subs[k])
  {
    forall k | k in s.subs ensures ValidSubscriber(r', s.subs[k]) {
      SubscriberKept(s.reg, r', s.subs[k]);
    }
  }

  lemma ResumeValid(s: System, sub: SubscriberId)
    requires Valid(s) && sub in s.subs
    ensures Valid(Step(s, Resume(sub))) && Advances(s.reg, Step(s, Resume(sub)).reg)
  {
    if CanResume(s.reg, s.subs[sub]) {
      ResumedValid(s.reg, s.subs[sub]);
      SubscribersKept(s, Resumed(s.reg, s.subs[sub]).0);
    }
  }

  lemma {:induction false} StepValid(s: System, a: Action)
    requires Valid(s)
    ensures Valid(Step(s, a)) && Advances(s.reg, Step(s, a).reg)
  {
    if a.Resume? {
      if a.sub in s.subs {
        ResumeValid(s, a.sub);
      }
    } else if a.Drop? {
      if a.sub in s.subs {
        DropValid(s, a.sub);
      }
    } else if !a.Attach? {
      RegistryStepValid(s.reg, a);
      SubscribersKept(s, RegistryStep(s.reg, a));
    }
  }

  lemma DropValid(s: System, sub: SubscriberId)
    requires Valid(s) && sub in s.subs
    ensures Valid(Step(s, Drop(sub))) && Advances(s.reg, Step(s, Drop(sub)).reg)
  {
    var s' := Step(s, Drop(sub));
    CountSame(s.reg, s'.reg, s.reg.order);
    assert ValidRegistry(s'.reg) by {
      if s.subs[sub].waiting.Parked? && s.subs[sub].waiting.future !in s.reg.settled {
        assert s.subs[sub].waiting.future in s.reg.handles[s.subs[sub].run].waiters;
      }
    }
    forall k | k in s.subs && k != sub ensures ValidSubscriber(s'.reg, s'.subs[k]) {
      SubscriberKept(s.reg, s'.reg, s.subs[k]);
    }
  }

  // ---------- Over every interleaving ----------

  lemma {:induction false} ReachableValid(maxFinished: nat, actions: seq<Action>)
    ensures Valid(After(maxFinished, actions))
    decreases |actions|
  {
    if actions != [] {
      ReachableValid(maxFinished, actions[..|actions| - 1]);
      StepValid(After(maxFinished, actions[..|actions| - 1]), actions[|actions| - 1]);
    }
  }

  /** The subscriber has received exactly the records after `afterSeq` up to its index, in order, without gap
      or duplicate; and it has returned only from a terminal run's complete log. */
  ghost predicate ReceivedExactlyOnce(r: Registry, sub: Subscriber)
    requires sub.run in r.handles
  {
    var events := r.handles[sub.run].events;
    (forall i :: 0 <= i < |sub.delivered| ==>
       sub.afterSeq + i < |events| && sub.delivered[i] == events[sub.afterSeq + i] &&
       sub.delivered[i].seqNo == sub.afterSeq + i + 1) &&
    (sub.waiting.Returned? ==>
       IsFinished(r, sub.run) && events != [] && events[|events| - 1].event == RUN_END_EVENT &&
       |sub.delivered| == if sub.afterSeq <= |events| then |events| - sub.afterSeq else 0)
  }

  lemma ValidSubscriberReceived(r: Registry, sub: Subscriber)
    requires ValidSubscriber(r, sub) && ValidHandle(r.handles[sub.run])
    ensures ReceivedExactlyOnce(r, sub)
  {
  }

  /** So it is for a subscriber attached at any moment, in every interleaving. */
  lemma ExactlyOnceReplay(maxFinished: nat, actions: seq<Action>, k: SubscriberId)
    requires k in After(maxFinished, actions).subs
    ensures var s := After(maxFinished, actions);
            s.subs[k].run in s.reg.handles && ReceivedExactlyOnce(s.reg, s.subs[k])
  {
    ReachableValid(maxFinished, actions);
    ValidSubscriberReceived(After(maxFinished, actions).reg, After(maxFinished, actions).subs[k]);
  }

  /** No subscriber stays parked on an unresolved future while a record beyond its index exists or the run
      has ended; whoever has something left to receive can take its next step and receives it. */
  lemma NoLostWakeup(maxFinished: nat, actions: seq<Action>, k: SubscriberId)
    requires k in After(maxFinished, actions).subs
    ensures var s := After(maxFinished, actions);
            var sub := s.subs[k];
            sub.run in s.reg.handles &&
            var h := s.reg.handles[sub.run];
            (sub.waiting.Parked? && sub.waiting.future !in s.reg.settled ==>
               |h.events| <= sub.index && !h.status.Terminal()) &&
            (sub.index < |h.events| && !sub.waiting.Dropped? ==>
               CanResume(s.reg, sub) &&
               Step(s, Resume(k)).subs[k].delivered == sub.delivered + [h.events[sub.index]]) &&
            (sub.index >= |h.events| && h.status.Terminal() && !sub.waiting.Dropped? && !sub.waiting.Returned? ==>
               Step(s, Resume(k)).subs[k].waiting == Returned)
  {
    ReachableValid(maxFinished, actions);
  }

  /** Sequence numbers are 1..n, a run is terminal exactly when its driver or done-callback has written the
      terminal record, that record is the last and carries the status, and at every await point at most
      `maxFinished` finished runs are retained. */
  lemma RunLifecycle(maxFinished: nat, actions: seq<Action>, id: RunId)
    requires id in After(maxFinished, actions).reg.handles
    ensures var r := After(maxFinished, actions).reg;
            var h := r.handles[id];
            Numbered(h.events) && CountFinished(r, r.order) <= maxFinished &&
            (h.status.Terminal() <==> h.phase.Finished? || h.phase.Settled?) &&
            (h.status.Terminal() ==>
               h.events != [] && h.events[|h.events| - 1].event == RUN_END_EVENT &&
               h.events[|h.events| - 1].data.status == Some(h.status))
  {
    ReachableValid(maxFinished, actions);
    CapNeverChanges(maxFinished, actions);
  }

  lemma {:induction false} CapNeverChanges(maxFinished: nat, actions: seq<Action>)
    ensures After(maxFinished, actions).reg.maxFinished == maxFinished
    decreases |actions|
  {
    if actions != [] {
      CapNeverChanges(maxFinished, actions[..|actions| - 1]);
    }
  }

  /** Once terminal, a run's status and log never change again, whatever happens. */
  lemma {:induction false} TerminalIsForever(maxFinished: nat, actions: seq<Action>, more: seq<Action>, id: RunId)
    requires IsFinished(After(maxFinished, actions).reg, id)
    ensures IsFinished(After(maxFinished, actions + more).reg, id)
    ensures var later := After(maxFinished, actions + more).reg.handles[id];
            var now := After(maxFinished, actions).reg.handles[id];
            later.events == now.events && later.status == now.status
    decreases |more|
  {
    if more == [] {
      assert actions + more == actions;
    } else {
      var init := more[..|more| - 1];
      assert (actions + more)[..|actions + more| - 1] == actions + init;
      TerminalIsForever(maxFinished, actions, init, id);
      ReachableValid(maxFinished, actions + init);
      StepValid(After(maxFinished, actions + init), more[|more| - 1]);
    }
  }

  /** A terminal run has, for good, the status the whole log calls for when it exhausted its generator; a raising
      generator fails it and an interruption, even before its first step, cancels it. */
  lemma OutcomeFollowsTheLog(maxFinished: nat, actions: seq<Action>, id: RunId)
    requires IsFinished(After(maxFinished, actions).reg, id)
    ensures var h := After(maxFinished, actions).reg.handles[id];
            (h.phase.Finished? || h.phase.Settled?) && h.events != [] &&
            h.status == match h.phase.ending
                        case Exhausted => Verdict(h.childErrorEvents, h.events[..|h.events| - 1])
                        case Raised => Failed
                        case Interrupted => Cancelled
  {
    ReachableValid(maxFinished, actions);
  }

  /** Except for a reset, which forgets everything, no step removes a run that is still live. */
  lemma EvictionSparesLiveRuns(maxFinished: nat, actions: seq<Action>, a: Action, id: RunId)
    requires var s := After(maxFinished, actions); id in s.reg.order && IsLive(Step(s, a).reg, id)
    requires !a.Reset?
    ensures id in Step(After(maxFinished, actions), a).reg.order
  {
    ReachableValid(maxFinished, actions);
    var r := After(maxFinished, actions).reg;
    match a {
      case Closed(x) =>
        if x in r.handles && r.handles[x].phase.Closing? {
          var h := Terminated(r.handles[x], r.handles[x].outcome).(phase := Finished(r.handles[x].phase.ending));
          EvictedWithinCap(Woken(r, x, h));
        }
      case DoneCallback(x) =>
        if InPhase(r, x, Unstarted) {
          EvictedWithinCap(Woken(r, x, Terminated(r.handles[x], Cancelled).(phase := Settled(Interrupted))));
        }
      case _ =>
    }
  }

  // ---------- One terminal record ----------

  /** How often the generator of a run itself yielded an event named like the registry's terminal record. */
  function ForeignEnds(maxFinished: nat, actions: seq<Action>, id: RunId): nat
    decreases |actions|
  {
    if actions == [] then 0
    else
      var init, last := actions[..|actions| - 1], actions[|actions| - 1];
      ForeignEnds(maxFinished, init, id) + if IsForeignEnd(After(maxFinished, init), last, id) then 1 else 0
  }

  predicate IsForeignEnd(s: System, a: Action, id: RunId) {
    a.Yielded? && a.id == id && a.name == RUN_END_EVENT && InPhase(s.reg, id, Driving)
  }

  /** The log holds `foreign` records of that name besides the terminal one. */
  ghost predicate EndsCounted(r: Registry, id: RunId, foreign: nat) {
    if id in r.handles then
      CountEnds(r.handles[id].events) == foreign + if r.handles[id].status.Terminal() then 1 else 0
    else foreign == 0
  }

  lemma LoggedCounts(h: Handle, name: string, data: Payload)
    ensures CountEnds(Logged(h, name, data).events) == CountEnds(h.events) + if name == RUN_END_EVENT then 1 else 0
  {
    assert Logged(h, name, data).events[..|h.events|] == h.events;
  }

  lemma EndedCounts(r: Registry, ended: RunId, status: Status, phase: Phase, id: RunId, foreign: nat)
    requires EndsCounted(r, id, foreign) && IsLive(r, ended) && status.Terminal()
    ensures EndsCounted(Ended(r, ended, status, phase), id, foreign)
  {
    LoggedCounts(r.handles[ended], RUN_END_EVENT, Payload(None, None, Some(status)));
  }

  lemma YieldCountsEnds(r: Registry, a: Action, id: RunId, foreign: nat)
    requires EndsCounted(r, id, foreign) && Known(r) && a.Yielded? && InPhase(r, a.id, Driving)
    requires ValidHandle(r.handles[a.id])
    ensures EndsCounted(RegistryStep(r, a), id, foreign + if a.id == id && a.name == RUN_END_EVENT then 1 else 0)
  {
    LoggedCounts(r.handles[a.id], a.name, a.data);
  }

  lemma RaiseCountsEnds(r: Registry, a: Action, id: RunId, foreign: nat)
    requires EndsCounted(r, id, foreign) && Known(r) && a.GeneratorRaised? && InPhase(r, a.id, Driving)
    requires ValidHandle(r.handles[a.id])
    ensures EndsCounted(RegistryStep(r, a), id, foreign)
  {
    LoggedCounts(r.handles[a.id], "error", Payload(None, Some("RUN_FAILED"), None));
  }

  lemma EndingCountsEnds(r: Registry, a: Action, id: RunId, foreign: nat)
    requires ValidRegistry(r) && EndsCounted(r, id, foreign) && (a.Closed? || a.DoneCallback?)
    ensures EndsCounted(RegistryStep(r, a), id, foreign)
  {
    if a.Closed? && a.id in r.handles && r.handles[a.id].phase.Closing? {
      EndedCounts(r, a.id, r.handles[a.id].outcome, Finished(r.handles[a.id].phase.ending), id, foreign);
    } else if a.DoneCallback? && InPhase(r, a.id, Unstarted) {
      EndedCounts(r, a.id, Cancelled, Settled(Interrupted), id, foreign);
    }
  }

  lemma SilentCountsEnds(s: System, a: Action, id: RunId, foreign: nat)
    requires Valid(s) && EndsCounted(s.reg, id, foreign)
    requires !a.Yielded? && !a.GeneratorRaised? && !a.Closed? && !a.DoneCallback?
    ensures EndsCounted(Step(s, a).reg, id, foreign)
  {
  }

  lemma StepCountsEnds(s: System, a: Action, id: RunId, foreign: nat)
    requires Valid(s) && EndsCounted(s.reg, id, foreign)
    ensures EndsCounted(Step(s, a).reg, id, foreign + if IsForeignEnd(s, a, id) then 1 else 0)
  {
    if a.Closed? || a.DoneCallback? {
      EndingCountsEnds(s.reg, a, id, foreign);
    } else if a.Yielded? && InPhase(s.reg, a.id, Driving) {
      YieldCountsEnds(s.reg, a, id, foreign);
    } else if a.GeneratorRaised? && InPhase(s.reg, a.id, Driving) {
      RaiseCountsEnds(s.reg, a, id, foreign);
    } else if !a.Yielded? && !a.GeneratorRaised? {
      SilentCountsEnds(s, a, id, foreign);
    }
  }

  /** In every interleaving a log holds one terminal record if its run is terminal and none if it is live, besides
      those of that name that its own generator yielded. */
  lemma {:induction false} RunEndsCounted(maxFinished: nat, actions: seq<Action>, id: RunId)
    ensures EndsCounted(After(maxFinished, actions).reg, id, ForeignEnds(maxFinished, actions, id))
    decreases |actions|
  {
    if actions != [] {
      var init, last := actions[..|actions| - 1], actions[|actions| - 1];
      RunEndsCounted(maxFinished, init, id);
      ReachableValid(maxFinished, init);
      StepCountsEnds(After(maxFinished, init), last, id, ForeignEnds(maxFinished, init, id));
    }
  }

  /** So a terminal run's log has exactly one terminal record, its last, if and only if its generator yielded none of
      that name. */
  lemma ExactlyOneRunEnd(maxFinished: nat, actions: seq<Action>, id: RunId)
    requires IsFinished(After(maxFinished, actions).reg, id)
    ensures var events := After(maxFinished, actions).reg.handles[id].events;
            events != [] && events[|events| - 1].event == RUN_END_EVENT &&
            (CountEnds(events) == 1 <==> ForeignEnds(maxFinished, actions, id) == 0)
  {
    RunEndsCounted(maxFinished, actions, id);
    ReachableValid(maxFinished, actions);
  }
}
