/** What became of one run, told from the list of actions alone: its phase, its log and its status in every
    interleaving (cli/shared/run_registry.py). */
module RunStory {
  import opened Wrappers
  import opened RunLog
  import opened RunRegistry

  // ---------- The story of a run ----------

  datatype Kind = Begins | Steps | Leaves | Closes | Settles

  predicate Is(a: Action, kind: Kind, id: RunId) {
    match kind
    case Begins => a.Start? && a.id == id
    case Steps => a == FirstStep(id)
    case Leaves => a in {GeneratorDone(id), GeneratorRaised(id), GeneratorCancelled(id)}
    case Closes => a == Closed(id)
    case Settles => a == DoneCallback(id)
  }

  /** The first action of a kind from `from` on; the number of actions when there is none. */
  function First(actions: seq<Action>, from: nat, kind: Kind, id: RunId): (i: nat)
    ensures i <= |actions| && (i < |actions| ==> from <= i && Is(actions[i], kind, id))
    decreases |actions| - from
  {
    if from >= |actions| then |actions|
    else if Is(actions[from], kind, id) then from
    else First(actions, from + 1, kind, id)
  }

  predicate Cancels(a: Action, id: RunId, target: string) {
    a in {Action.Cancel(id), Action.CancelTarget(target), Action.Reset}
  }

  function Begun(actions: seq<Action>, id: RunId): nat {
    First(actions, 0, Begins, id)
  }

  function Stepped(actions: seq<Action>, id: RunId): nat {
    First(actions, Begun(actions, id) + 1, Steps, id)
  }

  function Left(actions: seq<Action>, id: RunId): nat {
    First(actions, Stepped(actions, id) + 1, Leaves, id)
  }

  function ClosedAt(actions: seq<Action>, id: RunId): nat {
    First(actions, Left(actions, id) + 1, Closes, id)
  }

  function SettledAt(actions: seq<Action>, id: RunId): nat {
    First(actions, ClosedAt(actions, id) + 1, Settles, id)
  }

  /** The done-callback of a task that never started. */
  function GivenUp(actions: seq<Action>, id: RunId): nat {
    First(actions, Stepped(actions, id) + 1, Settles, id)
  }

  /** Cancelled between its start and its first step. */
  predicate CutOff(actions: seq<Action>, id: RunId) {
    var begun := Begun(actions, id);
    begun < |actions| &&
    exists c :: begun < c < Stepped(actions, id) && Cancels(actions[c], id, actions[begun].target)
  }

  function EndingOf(a: Action): Ending {
    if a.GeneratorDone? then Exhausted else if a.GeneratorRaised? then Raised else Interrupted
  }

  /** What the run's task is doing. */
  function PhaseOf(actions: seq<Action>, id: RunId): Phase {
    var n := |actions|;
    if Stepped(actions, id) == n then Scheduled
    else if CutOff(actions, id) then if GivenUp(actions, id) == n then Unstarted else Settled(Interrupted)
    else if Left(actions, id) == n then Driving
    else
      var ending := EndingOf(actions[Left(actions, id)]);
      if ClosedAt(actions, id) == n then Closing(ending)
      else if SettledAt(actions, id) == n then Finished(ending)
      else Settled(ending)
  }

  /** An event without its number. */
  datatype Entry = Entry(event: string, data: Payload)

  function EntriesOf(events: seq<Record>): (entries: seq<Entry>)
    ensures |entries| == |events|
  {
    seq(|events|, i requires 0 <= i < |events| => Entry(events[i].event, events[i].data))
  }

  /** What the generator of the run yielded by the actions from `from` up to `end`, in order. */
  function YieldsIn(actions: seq<Action>, id: RunId, from: nat, end: nat): seq<Entry>
    requires end <= |actions|
    decreases end
  {
    if end <= from then []
    else
      var a := actions[end - 1];
      YieldsIn(actions, id, from, end - 1) +
      if a.Yielded? && a.id == id then [Entry(a.name, a.data)] else []
  }

  /** What the generator yielded while it was being driven. */
  function YieldsOf(actions: seq<Action>, id: RunId): seq<Entry> {
    if CutOff(actions, id) then [] else YieldsIn(actions, id, Stepped(actions, id) + 1, Left(actions, id))
  }

  predicate HasRaised(actions: seq<Action>, id: RunId) {
    !CutOff(actions, id) && Left(actions, id) < |actions| && actions[Left(actions, id)].GeneratorRaised?
  }

  const RUN_FAILED := Entry("error", Payload(None, Some("RUN_FAILED"), None))

  function RunEnd(status: Status): Entry {
    Entry("run_end", Payload(None, None, Some(status)))
  }

  // ---------- One more action ----------

  lemma {:induction false} FirstExtends(actions: seq<Action>, a: Action, from: nat, kind: Kind, id: RunId)
    ensures First(actions + [a], from, kind, id) ==
            var i := First(actions, from, kind, id);
            if i < |actions| then i else if from <= |actions| && Is(a, kind, id) then |actions| else |actions| + 1
    decreases |actions| - from
  {
    var longer := actions + [a];
    if from < |actions| {
      assert longer[from] == actions[from];
      FirstExtends(actions, a, from + 1, kind, id);
    } else if from == |actions| {
      assert longer[from] == a;
      assert First(longer, from + 1, kind, id) == |longer|;
    }
  }

  lemma {:induction false} YieldsExtend(actions: seq<Action>, a: Action, id: RunId, from: nat, end: nat)
    requires end <= |actions|
    ensures YieldsIn(actions + [a], id, from, end) == YieldsIn(actions, id, from, end)
    decreases end
  {
    if end > from {
      YieldsExtend(actions, a, id, from, end - 1);
    }
  }

  /** The first action after a mark, where the mark may be the new action or still to come. */
  lemma AfterMark(actions: seq<Action>, a: Action, mark: nat, later: nat, kind: Kind, id: RunId)
    requires mark <= |actions| && if mark < |actions| then later == mark else later in {mark, mark + 1}
    ensures First(actions + [a], later + 1, kind, id) ==
            var i := First(actions, mark + 1, kind, id);
            if i < |actions| then i else if mark < |actions| && Is(a, kind, id) then |actions| else |actions| + 1
  {
    if mark < |actions| {
      FirstExtends(actions, a, mark + 1, kind, id);
    }
  }

  lemma MarksExtend(actions: seq<Action>, a: Action, id: RunId)
    ensures var n, longer := |actions|, actions + [a];
            var begun, stepped, left := Begun(actions, id), Stepped(actions, id), Left(actions, id);
            Begun(longer, id) == (if begun < n then begun else if Is(a, Begins, id) then n else n + 1) &&
            Stepped(longer, id) ==
              (if stepped < n then stepped else if begun < n && Is(a, Steps, id) then n else n + 1) &&
            Left(longer, id) == (if left < n then left else if stepped < n && Is(a, Leaves, id) then n else n + 1)
  {
    FirstExtends(actions, a, 0, Begins, id);
    AfterMark(actions, a, Begun(actions, id), Begun(actions + [a], id), Steps, id);
    AfterMark(actions, a, Stepped(actions, id), Stepped(actions + [a], id), Leaves, id);
  }

  lemma ClosedExtends(actions: seq<Action>, a: Action, id: RunId)
    ensures var n, closed := |actions|, ClosedAt(actions, id);
            ClosedAt(actions + [a], id) ==
            if closed < n then closed else if Left(actions, id) < n && Is(a, Closes, id) then n else n + 1
  {
    MarksExtend(actions, a, id);
    AfterMark(actions, a, Left(actions, id), Left(actions + [a], id), Closes, id);
  }

  lemma SettledExtends(actions: seq<Action>, a: Action, id: RunId)
    ensures var n, settled := |actions|, SettledAt(actions, id);
            SettledAt(actions + [a], id) ==
            if settled < n then settled else if ClosedAt(actions, id) < n && Is(a, Settles, id) then n else n + 1
  {
    ClosedExtends(actions, a, id);
    AfterMark(actions, a, ClosedAt(actions, id), ClosedAt(actions + [a], id), Settles, id);
  }

  lemma GivenUpExtends(actions: seq<Action>, a: Action, id: RunId)
    ensures var n, given := |actions|, GivenUp(actions, id);
            GivenUp(actions + [a], id) ==
            if given < n then given else if Stepped(actions, id) < n && Is(a, Settles, id) then n else n + 1
  {
    MarksExtend(actions, a, id);
    AfterMark(actions, a, Stepped(actions, id), Stepped(actions + [a], id), Settles, id);
  }

  function NextPhase(phase: Phase, cutOff: bool, a: Action, id: RunId): Phase {
    match phase
    case Scheduled => if Is(a, Steps, id) then if cutOff then Unstarted else Driving else phase
    case Driving => if Is(a, Leaves, id) then Closing(EndingOf(a)) else phase
    case Closing(ending) => if Is(a, Closes, id) then Finished(ending) else phase
    case Finished(ending) => if Is(a, Settles, id) then Settled(ending) else phase
    case Unstarted => if Is(a, Settles, id) then Settled(Interrupted) else phase
    case Settled(_) => phase
  }

  lemma CutOffExtends(actions: seq<Action>, a: Action, id: RunId)
    requires Begun(actions, id) < |actions|
    ensures CutOff(actions + [a], id) <==>
      CutOff(actions, id) ||
      (Stepped(actions, id) == |actions| && Cancels(a, id, actions[Begun(actions, id)].target))
  {
    var n, longer, begun := |actions|, actions + [a], Begun(actions, id);
    MarksExtend(actions, a, id);
    assert longer[n] == a && forall c :: 0 <= c < n ==> longer[c] == actions[c];
    if CutOff(actions, id) {
      var c :| begun < c < Stepped(actions, id) && Cancels(actions[c], id, actions[begun].target);
      assert Cancels(longer[c], id, actions[begun].target);
    }
  }

  lemma PhaseExtends(actions: seq<Action>, a: Action, id: RunId)
    requires Begun(actions, id) < |actions|
    ensures PhaseOf(actions + [a], id) == NextPhase(PhaseOf(actions, id), CutOff(actions, id), a, id)
  {
    MarksExtend(actions, a, id);
    ClosedExtends(actions, a, id);
    SettledExtends(actions, a, id);
    GivenUpExtends(actions, a, id);
    CutOffExtends(actions, a, id);
    if Left(actions, id) < |actions| {
      assert (actions + [a])[Left(actions, id)] == actions[Left(actions, id)];
    }
  }

  lemma JustBegun(actions: seq<Action>, a: Action, id: RunId)
    requires Begun(actions, id) == |actions| && Is(a, Begins, id)
    ensures Begun(actions + [a], id) == |actions| && PhaseOf(actions + [a], id) == Scheduled
    ensures !CutOff(actions + [a], id) && YieldsOf(actions + [a], id) == [] && !HasRaised(actions + [a], id)
  {
    MarksExtend(actions, a, id);
  }

  lemma YieldsOfExtends(actions: seq<Action>, a: Action, id: RunId)
    requires Begun(actions, id) < |actions|
    ensures YieldsOf(actions + [a], id) ==
      YieldsOf(actions, id) +
      if PhaseOf(actions, id) == Driving && a.Yielded? && a.id == id then [Entry(a.name, a.data)] else []
  {
    var n, longer := |actions|, actions + [a];
    var stepped, left := Stepped(actions, id), Left(actions, id);
    MarksExtend(actions, a, id);
    CutOffExtends(actions, a, id);
    YieldsExtend(actions, a, id, stepped + 1, left);
    if stepped < n == left {
      YieldsExtend(actions, a, id, stepped + 1, n);
    }
  }

  lemma RaisedExtends(actions: seq<Action>, a: Action, id: RunId)
    requires Begun(actions, id) < |actions|
    ensures HasRaised(actions + [a], id) <==>
      HasRaised(actions, id) || (PhaseOf(actions, id) == Driving && a == GeneratorRaised(id))
  {
    MarksExtend(actions, a, id);
    CutOffExtends(actions, a, id);
    if Left(actions, id) < |actions| {
      assert (actions + [a])[Left(actions, id)] == actions[Left(actions, id)];
    }
  }

  // ---------- The registry tells the same story ----------

  /** What the log holds: what was yielded, the failure if the generator raised, and the end if the run has ended. */
  function LogOf(actions: seq<Action>, id: RunId, status: Status): seq<Entry> {
    YieldsOf(actions, id) + (if HasRaised(actions, id) then [RUN_FAILED] else []) +
    (if HasEnded(actions, id) then [RunEnd(status)] else [])
  }

  predicate HasEnded(actions: seq<Action>, id: RunId) {
    PhaseOf(actions, id).Finished? || PhaseOf(actions, id).Settled?
  }

  /** A live run waits for a key exactly after yielding `needs_key`. */
  function LiveStatus(told: seq<Entry>): Status {
    if told != [] && told[|told| - 1].event == "needs_key" then NeedsKey else Running
  }

  ghost predicate HandleTold(h: Handle, actions: seq<Action>, id: RunId)
    requires Begun(actions, id) < |actions|
  {
    var start := actions[Begun(actions, id)];
    h.target == start.target && h.childErrorEvents == start.childErrorEvents && h.phase == PhaseOf(actions, id) &&
    EntriesOf(h.events) == LogOf(actions, id, h.status) &&
    (!HasEnded(actions, id) ==> h.status == LiveStatus(YieldsOf(actions, id)))
  }

  /** Until the first step a signal is noted, and a run that is no longer registered was signalled by the reset. */
  ghost predicate SignalTold(r: Registry, actions: seq<Action>, id: RunId)
    requires id in r.handles
  {
    r.handles[id].phase.Scheduled? ==>
      (r.handles[id].cancelRequested <==> CutOff(actions, id)) && (id !in r.order ==> CutOff(actions, id))
  }

  ghost predicate Told(r: Registry, actions: seq<Action>, id: RunId) {
    (id in r.handles <==> Begun(actions, id) < |actions|) &&
    (id in r.handles ==> HandleTold(r.handles[id], actions, id) && SignalTold(r, actions, id))
  }

  lemma EntriesAppend(events: seq<Record>, record: Record)
    ensures EntriesOf(events + [record]) == EntriesOf(events) + [Entry(record.event, record.data)]
  {
  }

  /** What an action adds to the log of a run in the given phase. */
  function Said(phase: Phase, a: Action, id: RunId, status: Status): seq<Entry> {
    if phase == Driving && a.Yielded? && a.id == id then [Entry(a.name, a.data)]
    else if phase == Driving && a == GeneratorRaised(id) then [RUN_FAILED]
    else if (phase.Closing? && a == Closed(id)) || (phase.Unstarted? && a == DoneCallback(id)) then [RunEnd(status)]
    else []
  }

  lemma DrivingNotRaised(actions: seq<Action>, id: RunId)
    requires Begun(actions, id) < |actions|
    ensures PhaseOf(actions, id).Scheduled? || PhaseOf(actions, id).Driving? || PhaseOf(actions, id).Unstarted? ==>
      !HasRaised(actions, id)
  {
  }

  lemma EndedNext(actions: seq<Action>, a: Action, id: RunId)
    requires Begun(actions, id) < |actions|
    ensures var phase := PhaseOf(actions, id);
            HasEnded(actions + [a], id) <==>
            HasEnded(actions, id) || (phase.Closing? && a == Closed(id)) || (phase.Unstarted? && a == DoneCallback(id))
  {
    PhaseExtends(actions, a, id);
  }

  lemma LogNext(actions: seq<Action>, a: Action, id: RunId, status: Status, later: Status)
    requires Begun(actions, id) < |actions| && (HasEnded(actions, id) ==> later == status)
    ensures LogOf(actions + [a], id, later) ==
      LogOf(actions, id, status) + Said(PhaseOf(actions, id), a, id, later)
  {
    EndedNext(actions, a, id);
    YieldsOfExtends(actions, a, id);
    RaisedExtends(actions, a, id);
    DrivingNotRaised(actions, id);
  }

  /** One action seen from one run. */
  ghost predicate HandleNext(h: Handle, h': Handle, cutOff: bool, a: Action, id: RunId) {
    h'.target == h.target && h'.childErrorEvents == h.childErrorEvents &&
    h'.phase == NextPhase(h.phase, cutOff, a, id) &&
    EntriesOf(h'.events) == EntriesOf(h.events) + Said(h.phase, a, id, h'.status) &&
    (h.status.Terminal() ==> h'.status == h.status) &&
    (!h'.status.Terminal() ==>
       h'.status == if h.phase == Driving && a.Yielded? && a.id == id then LiveStatus([Entry(a.name, a.data)])
                    else h.status)
  }

  lemma LiveNext(actions: seq<Action>, a: Action, id: RunId)
    requires Begun(actions, id) < |actions|
    ensures LiveStatus(YieldsOf(actions + [a], id)) ==
      if PhaseOf(actions, id) == Driving && a.Yielded? && a.id == id then LiveStatus([Entry(a.name, a.data)])
      else LiveStatus(YieldsOf(actions, id))
  {
    YieldsOfExtends(actions, a, id);
  }

  lemma ToldNext(h: Handle, h': Handle, actions: seq<Action>, a: Action, id: RunId)
    requires Begun(actions, id) < |actions| && HandleTold(h, actions, id) && ValidHandle(h) && ValidHandle(h')
    requires HandleNext(h, h', CutOff(actions, id), a, id)
    ensures Begun(actions + [a], id) < |actions + [a]| && HandleTold(h', actions + [a], id)
  {
    PhaseExtends(actions, a, id);
    LogNext(actions, a, id, h.status, h'.status);
    LiveNext(actions, a, id);
    MarksExtend(actions, a, id);
    assert (actions + [a])[Begun(actions, id)] == actions[Begun(actions, id)];
  }

  // ---------- Every step ----------

  predicate IsSilent(a: Action, id: RunId) {
    a == FirstStep(id) || a == GeneratorDone(id) || a == GeneratorCancelled(id)
  }

  predicate IsLogging(a: Action, id: RunId) {
    (a.Yielded? && a.id == id) || a == GeneratorRaised(id)
  }

  predicate IsEnding(a: Action, id: RunId) {
    a == Closed(id) || a == DoneCallback(id)
  }

  /** The action does not belong to the run's task. */
  predicate Foreign(a: Action, id: RunId) {
    !IsSilent(a, id) && !IsLogging(a, id) && !IsEnding(a, id)
  }

  predicate Signals(a: Action) {
    a.Cancel? || a.CancelTarget? || a.Reset?
  }

  predicate Subscribes(a: Action) {
    a.Attach? || a.Resume? || a.Drop?
  }

  /** Nothing the story is about changes. */
  predicate SameTale(h: Handle, h': Handle) {
    h'.target == h.target && h'.childErrorEvents == h.childErrorEvents && h'.phase == h.phase &&
    h'.events == h.events && h'.status == h.status
  }

  lemma SameTaleNext(h: Handle, h': Handle, cutOff: bool, a: Action, id: RunId)
    requires SameTale(h, h') && Foreign(a, id)
    ensures HandleNext(h, h', cutOff, a, id)
  {
    assert EntriesOf(h.events) + [] == EntriesOf(h.events);
  }

  lemma SignalNext(r: Registry, a: Action, id: RunId)
    requires id in r.handles && Signals(a)
    ensures id in RegistryStep(r, a).handles && SameTale(r.handles[id], RegistryStep(r, a).handles[id])
    ensures r.handles[id].phase.Scheduled? && IsLive(r, id) ==>
      (RegistryStep(r, a).handles[id].cancelRequested <==>
       r.handles[id].cancelRequested || (id in r.order && Cancels(a, id, r.handles[id].target)))
  {
  }

  lemma SignalNoted(r: Registry, r': Registry, actions: seq<Action>, a: Action, id: RunId)
    requires ValidRegistry(r) && Told(r, actions, id) && id in r.handles && Signals(a) && r' == RegistryStep(r, a)
    ensures id in r'.handles && SignalTold(r', actions + [a], id)
  {
    SignalNext(r, a, id);
    CutOffExtends(actions, a, id);
  }

  lemma SignalSteps(r: Registry, r': Registry, actions: seq<Action>, a: Action, id: RunId)
    requires ValidRegistry(r) && Told(r, actions, id) && id in r.handles && Signals(a)
    requires r' == RegistryStep(r, a) && ValidRegistry(r')
    ensures Told(r', actions + [a], id)
  {
    SignalNext(r, a, id);
    SignalNoted(r, r', actions, a, id);
    SameTaleNext(r.handles[id], r'.handles[id], CutOff(actions, id), a, id);
    ToldNext(r.handles[id], r'.handles[id], actions, a, id);
  }

  lemma CalmSteps(r: Registry, r': Registry, actions: seq<Action>, a: Action, id: RunId)
    requires ValidRegistry(r) && ValidRegistry(r') && Told(r, actions, id) && id in r.handles && id in r'.handles
    requires !Signals(a)
    requires HandleNext(r.handles[id], r'.handles[id], CutOff(actions, id), a, id)
    requires r'.handles[id].phase.Scheduled? ==>
               r'.handles[id].cancelRequested == r.handles[id].cancelRequested && (id in r.order ==> id in r'.order)
    ensures Told(r', actions + [a], id)
  {
    ToldNext(r.handles[id], r'.handles[id], actions, a, id);
    CutOffExtends(actions, a, id);
  }

  lemma SubscriberNext(s: System, a: Action, id: RunId)
    requires id in s.reg.handles && Subscribes(a)
    ensures var r, r' := s.reg, Step(s, a).reg;
            r'.order == r.order && id in r'.handles && SameTale(r.handles[id], r'.handles[id]) &&
            r'.handles[id].cancelRequested == r.handles[id].cancelRequested
  {
  }

  /** A step of another run's task leaves this run's handle alone, and registered if it is live. */
  lemma OtherRunKept(r: Registry, a: Action, id: RunId)
    requires ValidRegistry(r) && id in r.handles && Foreign(a, id) && !Signals(a) && !Subscribes(a)
    ensures var r' := RegistryStep(r, a);
            id in r'.handles && r'.handles[id] == r.handles[id] && (IsLive(r, id) && id in r.order ==> id in r'.order)
  {
    if a.Closed? && a.id in r.handles && r.handles[a.id].phase.Closing? {
      EvictedWithinCap(Woken(r, a.id, Terminated(r.handles[a.id], r.handles[a.id].outcome)
                                        .(phase := Finished(r.handles[a.id].phase.ending))));
    } else if a.DoneCallback? && InPhase(r, a.id, Unstarted) {
      EvictedWithinCap(Woken(r, a.id, Terminated(r.handles[a.id], Cancelled).(phase := Settled(Interrupted))));
    }
  }

  lemma BeginSteps(r: Registry, actions: seq<Action>, a: Action, id: RunId)
    requires Told(r, actions, id) && id !in r.handles
    ensures Told(RegistryStep(r, a), actions + [a], id)
  {
    MarksExtend(actions, a, id);
    if Is(a, Begins, id) {
      JustBegun(actions, a, id);
      assert (actions + [a])[|actions|] == a;
    }
  }

  lemma SilentNext(r: Registry, a: Action, id: RunId)
    requires id in r.handles && IsSilent(a, id)
    ensures var r' := RegistryStep(r, a);
            id in r'.handles && HandleNext(r.handles[id], r'.handles[id], r.handles[id].cancelRequested, a, id) &&
            r'.order == r.order && (r'.handles[id].phase.Scheduled? ==> r'.handles[id] == r.handles[id])
  {
    assert EntriesOf(r.handles[id].events) + [] == EntriesOf(r.handles[id].events);
  }

  lemma LoggingNext(r: Registry, a: Action, id: RunId, cutOff: bool)
    requires id in r.handles && IsLogging(a, id)
    requires ValidHandle(r.handles[id])
    ensures var r' := RegistryStep(r, a);
            id in r'.handles && HandleNext(r.handles[id], r'.handles[id], cutOff, a, id) &&
            r'.order == r.order && (r'.handles[id].phase.Scheduled? ==> r'.handles[id] == r.handles[id])
  {
    var h := r.handles[id];
    if a.Yielded? {
      EntriesAppend(h.events, Record(|h.events| + 1, a.name, a.data));
    } else {
      EntriesAppend(h.events, Record(|h.events| + 1, "error", RUN_FAILED.data));
    }
    assert EntriesOf(h.events) + [] == EntriesOf(h.events);
  }

  lemma EndNext(r: Registry, a: Action, id: RunId, cutOff: bool)
    requires id in r.handles && IsEnding(a, id) && ValidHandle(r.handles[id])
    ensures var r' := RegistryStep(r, a);
            id in r'.handles && HandleNext(r.handles[id], r'.handles[id], cutOff, a, id) &&
            (r'.handles[id].phase.Scheduled? ==> r' == r)
  {
    var h := r.handles[id];
    if a.Closed? && h.phase.Closing? {
      EntriesAppend(h.events, Record(|h.events| + 1, "run_end", RunEnd(h.outcome).data));
    } else if a.DoneCallback? && h.phase.Unstarted? {
      EntriesAppend(h.events, Record(|h.events| + 1, "run_end", RunEnd(Cancelled).data));
    }
    assert EntriesOf(h.events) + [] == EntriesOf(h.events);
  }

  lemma SilentSteps(r: Registry, r': Registry, actions: seq<Action>, a: Action, id: RunId)
    requires ValidRegistry(r) && ValidRegistry(r') && Told(r, actions, id) && id in r.handles
    requires IsSilent(a, id) && r' == RegistryStep(r, a)
    ensures Told(r', actions + [a], id)
  {
    SilentNext(r, a, id);
    PhaseNext(r.handles[id], a, id, r.handles[id].cancelRequested, CutOff(actions, id));
    CalmSteps(r, r', actions, a, id);
  }

  lemma LoggingSteps(r: Registry, r': Registry, actions: seq<Action>, a: Action, id: RunId)
    requires ValidRegistry(r) && ValidRegistry(r') && Told(r, actions, id) && id in r.handles
    requires IsLogging(a, id) && r' == RegistryStep(r, a)
    ensures Told(r', actions + [a], id)
  {
    LoggingNext(r, a, id, CutOff(actions, id));
    CalmSteps(r, r', actions, a, id);
  }

  lemma EndSteps(r: Registry, r': Registry, actions: seq<Action>, a: Action, id: RunId)
    requires ValidRegistry(r) && ValidRegistry(r') && Told(r, actions, id) && id in r.handles
    requires IsEnding(a, id) && r' == RegistryStep(r, a)
    ensures Told(r', actions + [a], id)
  {
    EndNext(r, a, id, CutOff(actions, id));
    CalmSteps(r, r', actions, a, id);
  }

  lemma PhaseNext(h: Handle, a: Action, id: RunId, noted: bool, cutOff: bool)
    requires h.phase.Scheduled? ==> noted == cutOff
    ensures NextPhase(h.phase, noted, a, id) == NextPhase(h.phase, cutOff, a, id)
  {
  }

  lemma SubscriberSteps(s: System, actions: seq<Action>, a: Action, id: RunId)
    requires Valid(s) && Valid(Step(s, a)) && Told(s.reg, actions, id) && Subscribes(a) && id in s.reg.handles
    ensures Told(Step(s, a).reg, actions + [a], id)
  {
    var r, r' := s.reg, Step(s, a).reg;
    SubscriberNext(s, a, id);
    SameTaleNext(r.handles[id], r'.handles[id], CutOff(actions, id), a, id);
    CalmSteps(r, r', actions, a, id);
  }

  lemma OtherRunSteps(r: Registry, r': Registry, actions: seq<Action>, a: Action, id: RunId)
    requires ValidRegistry(r) && ValidRegistry(r') && Told(r, actions, id) && id in r.handles
    requires Foreign(a, id) && !Signals(a) && !Subscribes(a) && r' == RegistryStep(r, a)
    ensures Told(r', actions + [a], id)
  {
    OtherRunKept(r, a, id);
    SameTaleNext(r.handles[id], r'.handles[id], CutOff(actions, id), a, id);
    CalmSteps(r, r', actions, a, id);
  }

  lemma NotYetBegun(s: System, actions: seq<Action>, a: Action, id: RunId)
    requires Told(s.reg, actions, id) && id !in s.reg.handles
    ensures Told(Step(s, a).reg, actions + [a], id)
  {
    if Subscribes(a) {
      MarksExtend(actions, a, id);
    } else {
      BeginSteps(s.reg, actions, a, id);
    }
  }

  lemma OwnSteps(r: Registry, r': Registry, actions: seq<Action>, a: Action, id: RunId)
    requires ValidRegistry(r) && ValidRegistry(r') && Told(r, actions, id) && id in r.handles && !Foreign(a, id)
    requires r' == RegistryStep(r, a)
    ensures Told(r', actions + [a], id)
  {
    if IsSilent(a, id) {
      SilentSteps(r, r', actions, a, id);
    } else if IsEnding(a, id) {
      EndSteps(r, r', actions, a, id);
    } else {
      LoggingSteps(r, r', actions, a, id);
    }
  }

  lemma StepTold(s: System, actions: seq<Action>, a: Action, id: RunId)
    requires Valid(s) && Valid(Step(s, a)) && Told(s.reg, actions, id)
    ensures Told(Step(s, a).reg, actions + [a], id)
  {
    if id !in s.reg.handles {
      NotYetBegun(s, actions, a, id);
    } else if Subscribes(a) {
      SubscriberSteps(s, actions, a, id);
    } else if Signals(a) {
      SignalSteps(s.reg, RegistryStep(s.reg, a), actions, a, id);
    } else if Foreign(a, id) {
      OtherRunSteps(s.reg, RegistryStep(s.reg, a), actions, a, id);
    } else {
      OwnSteps(s.reg, RegistryStep(s.reg, a), actions, a, id);
    }
  }

  // ---------- In every interleaving ----------

  lemma {:induction false} RunTold(maxFinished: nat, actions: seq<Action>, id: RunId)
    ensures Told(After(maxFinished, actions).reg, actions, id)
    decreases |actions|
  {
    if actions != [] {
      var init, a := actions[..|actions| - 1], actions[|actions| - 1];
      assert actions == init + [a];
      RunTold(maxFinished, init, id);
      ReachableValid(maxFinished, init);
      StepValid(After(maxFinished, init), a);
      StepTold(After(maxFinished, init), init, a, id);
    }
  }

  /** A run is known once it was started, with what its first start said, and its task is where the actions on it put
      it: cut off by a cancel between start and first step, or driving until its generator is left, then closing, and
      ended. */
  lemma PhaseFollowsActions(maxFinished: nat, actions: seq<Action>, id: RunId)
    ensures var handles, begun := After(maxFinished, actions).reg.handles, Begun(actions, id);
            (id in handles <==> begun < |actions|) &&
            (id in handles ==>
               handles[id].target == actions[begun].target &&
               handles[id].childErrorEvents == actions[begun].childErrorEvents &&
               handles[id].phase == PhaseOf(actions, id))
  {
    RunTold(maxFinished, actions, id);
  }

  /** The log of a run is, numbered from 1, what its generator yielded while it was driven, then the failure if it
      raised, then the end of the run with its status; nothing else, and nothing else's. */
  lemma LogFollowsActions(maxFinished: nat, actions: seq<Action>, id: RunId)
    requires id in After(maxFinished, actions).reg.handles
    ensures var h := After(maxFinished, actions).reg.handles[id];
            Numbered(h.events) &&
            EntriesOf(h.events) ==
            YieldsOf(actions, id) +
            (if HasRaised(actions, id) then [Entry("error", Payload(None, Some("RUN_FAILED"), None))] else []) +
            (if h.status.Terminal() then [Entry("run_end", Payload(None, None, Some(h.status)))] else [])
  {
    RunTold(maxFinished, actions, id);
    ReachableValid(maxFinished, actions);
  }

  // ---------- The status ----------

  ghost predicate NamesError(name: string) {
    name == "error" || exists stem :: name == stem + "_error"
  }

  /** Yielded event `i` is an error that this run does not isolate. */
  ghost predicate IsError(childErrorEvents: set<string>, told: seq<Entry>, i: nat)
    requires i < |told|
  {
    NamesError(told[i].event) && told[i].event !in childErrorEvents
  }

  ghost predicate OnlyCleanup(told: seq<Entry>, i: nat)
    requires i < |told|
  {
    told[i].data.code == Some("speed_test_cleanup_failed") &&
    exists j :: 0 <= j <= i && told[j].event in {"cache_run_complete", "cache_compare_complete"}
  }

  ghost predicate Condemns(childErrorEvents: set<string>, told: seq<Entry>, i: nat)
    requires i < |told|
  {
    (IsError(childErrorEvents, told, i) && !OnlyCleanup(told, i)) ||
    (told[i].event == "complete" && childErrorEvents != {} && told[i].data.success == Some(false))
  }

  /** What a run that exhausted its generator comes to. */
  ghost function OutcomeOf(childErrorEvents: set<string>, told: seq<Entry>): Status {
    if exists i :: 0 <= i < |told| && Condemns(childErrorEvents, told, i) then Failed
    else if exists i :: 0 <= i < |told| && IsError(childErrorEvents, told, i) then Partial
    else Done
  }

  lemma ErrorNames(name: string)
    ensures IsErrorName(name) <==> NamesError(name)
  {
    if |name| >= 6 && name[|name| - 6..] == "_error" {
      assert name == name[..|name| - 6] + "_error";
    }
  }

  lemma ErrorsAgree(childErrorEvents: set<string>, events: seq<Record>, i: nat)
    requires i < |events|
    ensures IsError(childErrorEvents, EntriesOf(events), i) <==> CountsAsError(childErrorEvents, events, i)
  {
    ErrorNames(events[i].event);
  }

  lemma CleanupsAgree(childErrorEvents: set<string>, events: seq<Record>, i: nat)
    requires i < |events| && CountsAsError(childErrorEvents, events, i)
    ensures OnlyCleanup(EntriesOf(events), i) <==> CleanupError(childErrorEvents, events, i)
  {
    var told := EntriesOf(events);
    if exists j :: 0 <= j <= i && told[j].event in {"cache_run_complete", "cache_compare_complete"} {
      var j :| 0 <= j <= i && told[j].event in {"cache_run_complete", "cache_compare_complete"};
      assert events[..i + 1][j].event in ["cache_run_complete", "cache_compare_complete"];
    }
    if HasCacheResult(events[..i + 1]) {
      var j :| 0 <= j < i + 1 && events[..i + 1][j].event in ["cache_run_complete", "cache_compare_complete"];
      assert told[j].event in {"cache_run_complete", "cache_compare_complete"};
    }
  }

  lemma VerdictIsOutcome(childErrorEvents: set<string>, events: seq<Record>)
    ensures Verdict(childErrorEvents, events) == OutcomeOf(childErrorEvents, EntriesOf(events))
  {
    var told := EntriesOf(events);
    forall i | 0 <= i < |events|
      ensures HardError(childErrorEvents, events, i) <==> Condemns(childErrorEvents, told, i)
      ensures IsError(childErrorEvents, told, i) && !Condemns(childErrorEvents, told, i) <==>
        CleanupError(childErrorEvents, events, i)
    {
      ErrorsAgree(childErrorEvents, events, i);
      if CountsAsError(childErrorEvents, events, i) {
        CleanupsAgree(childErrorEvents, events, i);
      }
    }
  }

  /** A live run waits for a key exactly when the last event it yielded is `needs_key`; one that has ended was
      cancelled, or its generator raised and it failed, or it has the outcome that the yielded events call for. */
  lemma StatusFollowsActions(maxFinished: nat, actions: seq<Action>, id: RunId)
    requires id in After(maxFinished, actions).reg.handles
    ensures var h, told := After(maxFinished, actions).reg.handles[id], YieldsOf(actions, id);
            (h.status.Terminal() <==> HasEnded(actions, id)) &&
            h.status ==
            if !HasEnded(actions, id) then
              if told != [] && told[|told| - 1].event == "needs_key" then NeedsKey else Running
            else match PhaseOf(actions, id).ending
              case Exhausted => OutcomeOf(h.childErrorEvents, told)
              case Raised => Failed
              case Interrupted => Cancelled
  {
    var h := After(maxFinished, actions).reg.handles[id];
    RunTold(maxFinished, actions, id);
    ReachableValid(maxFinished, actions);
    if HasEnded(actions, id) {
      EndedStatus(h, actions, id);
    }
  }

  lemma EndedStatus(h: Handle, actions: seq<Action>, id: RunId)
    requires Begun(actions, id) < |actions| && HandleTold(h, actions, id) && ValidHandle(h) && HasEnded(actions, id)
    ensures h.status == match PhaseOf(actions, id).ending
                        case Exhausted => OutcomeOf(h.childErrorEvents, YieldsOf(actions, id))
                        case Raised => Failed
                        case Interrupted => Cancelled
  {
    if h.phase.ending == Exhausted {
      var n := |h.events| - 1;
      ExhaustedNotRaised(actions, id);
      WithoutEnd(h.events, YieldsOf(actions, id), RunEnd(h.status));
      VerdictIsOutcome(h.childErrorEvents, h.events[..n]);
    }
  }

  lemma WithoutEnd(events: seq<Record>, told: seq<Entry>, end: Entry)
    requires EntriesOf(events) == told + [] + [end]
    ensures events != [] && EntriesOf(events[..|events| - 1]) == told
  {
    assert |events| == |told| + 1;
    forall i | 0 <= i < |told| ensures EntriesOf(events[..|events| - 1])[i] == told[i] {
      assert EntriesOf(events)[i] == told[i];
    }
  }

  lemma ExhaustedNotRaised(actions: seq<Action>, id: RunId)
    requires HasEnded(actions, id) && PhaseOf(actions, id).ending == Exhausted
    ensures !HasRaised(actions, id)
  {
  }

  // ---------- Signals and eviction ----------

  /** Action `c` is a cancel of the run, or of all of them, that finds it registered and live. */
  ghost predicate SignalledAt(maxFinished: nat, actions: seq<Action>, id: RunId, c: nat)
    requires c < |actions|
  {
    var r := After(maxFinished, actions[..c]).reg;
    id in r.order && IsLive(r, id) && Cancels(actions[c], id, r.handles[id].target)
  }

  lemma SignalledNow(r: Registry, a: Action, id: RunId)
    requires id in r.handles && Signals(a)
    ensures RegistryStep(r, a).handles[id].cancelRequested <==>
      r.handles[id].cancelRequested || (id in r.order && IsLive(r, id) && Cancels(a, id, r.handles[id].target))
  {
  }

  lemma SignalKept(r: Registry, a: Action, id: RunId)
    requires id in RegistryStep(r, a).handles && !Signals(a)
    ensures RegistryStep(r, a).handles[id].cancelRequested <==> id in r.handles && r.handles[id].cancelRequested
  {
  }

  lemma SignalledNext(s: System, a: Action, id: RunId)
    requires Valid(s) && id in Step(s, a).reg.handles
    ensures Step(s, a).reg.handles[id].cancelRequested <==>
      id in s.reg.handles &&
      (s.reg.handles[id].cancelRequested ||
       (id in s.reg.order && IsLive(s.reg, id) && Cancels(a, id, s.reg.handles[id].target)))
  {
    if Subscribes(a) {
      assert Step(s, a).reg.handles.Keys == s.reg.handles.Keys;
      SubscriberNext(s, a, id);
    } else if Signals(a) {
      SignalledNow(s.reg, a, id);
    } else {
      SignalKept(s.reg, a, id);
    }
  }

  /** The task of a run has been signalled exactly when some cancel found the run registered and live. */
  lemma {:induction false} SignalledExactlyWhen(maxFinished: nat, actions: seq<Action>, id: RunId)
    requires id in After(maxFinished, actions).reg.handles
    ensures After(maxFinished, actions).reg.handles[id].cancelRequested <==>
      exists c :: 0 <= c < |actions| && SignalledAt(maxFinished, actions, id, c)
    decreases |actions|
  {
    if actions != [] {
      var n, init, a := |actions| - 1, actions[..|actions| - 1], actions[|actions| - 1];
      var s := After(maxFinished, init);
      ReachableValid(maxFinished, init);
      SignalledNext(s, a, id);
      forall c | 0 <= c < n
        ensures SignalledAt(maxFinished, actions, id, c) == SignalledAt(maxFinished, init, id, c)
      {
        assert actions[..c] == init[..c] && actions[c] == init[c];
      }
      assert SignalledAt(maxFinished, actions, id, n) <==>
        id in s.reg.order && IsLive(s.reg, id) && Cancels(a, id, s.reg.handles[id].target);
      if id in s.reg.handles {
        SignalledExactlyWhen(maxFinished, init, id);
      } else {
        NeverSignalled(maxFinished, init, id);
      }
    }
  }

  lemma NeverSignalled(maxFinished: nat, actions: seq<Action>, id: RunId)
    requires id !in After(maxFinished, actions).reg.handles
    ensures forall c :: 0 <= c < |actions| ==> !SignalledAt(maxFinished, actions, id, c)
  {
    forall c | 0 <= c < |actions| ensures !SignalledAt(maxFinished, actions, id, c) {
      RunTold(maxFinished, actions, id);
      RunTold(maxFinished, actions[..c], id);
      if Begun(actions[..c], id) < c {
        BegunInPrefix(actions, c, id);
      }
    }
  }

  lemma BegunInPrefix(actions: seq<Action>, n: nat, id: RunId)
    requires n <= |actions| && Begun(actions[..n], id) < n
    ensures Begun(actions, id) == Begun(actions[..n], id)
    decreases |actions|
  {
    if n < |actions| {
      var init := actions[..|actions| - 1];
      assert init[..n] == actions[..n] && actions == init + [actions[|actions| - 1]];
      BegunInPrefix(init, n, id);
      MarksExtend(init, actions[|actions| - 1], id);
    } else {
      assert actions[..n] == actions;
    }
  }

  ghost predicate ByStart(order: seq<RunId>, actions: seq<Action>) {
    forall i, j :: 0 <= i < j < |order| ==> Begun(actions, order[i]) < Begun(actions, order[j])
  }

  lemma ByStartCons(id: RunId, rest: seq<RunId>, actions: seq<Action>)
    requires ByStart(rest, actions) && forall x :: x in rest ==> Begun(actions, id) < Begun(actions, x)
    ensures ByStart([id] + rest, actions)
  {
    var order := [id] + rest;
    forall i, j | 0 <= i < j < |order| ensures Begun(actions, order[i]) < Begun(actions, order[j]) {
      assert order[j] == rest[j - 1] && order[j] in rest;
      assert i > 0 ==> order[i] == rest[i - 1];
    }
  }

  lemma {:induction false} DroppedByStart(r: Registry, order: seq<RunId>, excess: nat, actions: seq<Action>)
    requires ByStart(order, actions)
    ensures ByStart(DropOldest(r, order, excess), actions)
    ensures forall id :: id in DropOldest(r, order, excess) ==> id in order
    decreases |order|
  {
    if order != [] && excess > 0 {
      var rest := order[1..];
      assert order == [order[0]] + rest;
      assert ByStart(rest, actions);
      DroppedByStart(r, rest, if IsFinished(r, order[0]) then excess - 1 else excess, actions);
      if !IsFinished(r, order[0]) {
        forall x | x in DropOldest(r, rest, excess) ensures Begun(actions, order[0]) < Begun(actions, x) {
          var j :| 0 <= j < |rest| && rest[j] == x;
          assert order[j + 1] == x;
        }
        ByStartCons(order[0], DropOldest(r, rest, excess), actions);
      }
    }
  }

  lemma ByStartLater(order: seq<RunId>, actions: seq<Action>, a: Action)
    requires ByStart(order, actions) && forall id :: id in order ==> Begun(actions, id) < |actions|
    ensures ByStart(order, actions + [a])
    ensures forall id :: id in order ==> Begun(actions + [a], id) < |actions|
  {
    forall id | id in order ensures Begun(actions + [a], id) == Begun(actions, id) {
      MarksExtend(actions, a, id);
    }
  }

  /** The oldest finished runs are gone. */
  ghost predicate DropsOldest(order: seq<RunId>, after: seq<RunId>) {
    exists x: Registry, excess: nat :: after == DropOldest(x, order, excess)
  }

  lemma EndingDrops(r: Registry, id: RunId, status: Status, phase: Phase)
    requires id in r.handles
    ensures DropsOldest(r.order, Ended(r, id, status, phase).order)
  {
    var woken := Woken(r, id, Terminated(r.handles[id], status).(phase := phase));
    assert Ended(r, id, status, phase).order == DropOldest(woken, r.order, Excess(woken));
  }

  /** A step keeps the order of what stays registered, drops the oldest, or appends a new run. */
  lemma OrderSteps(s: System, a: Action)
    ensures var r, order := s.reg, Step(s, a).reg.order;
            order == [] || order == r.order ||
            (a.Start? && a.id !in r.handles && order == r.order + [a.id]) || DropsOldest(r.order, order)
  {
    var r := s.reg;
    if a.Closed? && a.id in r.handles && r.handles[a.id].phase.Closing? {
      EndingDrops(r, a.id, r.handles[a.id].outcome, Finished(r.handles[a.id].phase.ending));
    } else if a.DoneCallback? && InPhase(r, a.id, Unstarted) {
      EndingDrops(r, a.id, Cancelled, Settled(Interrupted));
    }
  }

  /** The registry always lists its runs in the order they were started in. */
  lemma {:induction false} ListedByStart(maxFinished: nat, actions: seq<Action>)
    ensures ByStart(After(maxFinished, actions).reg.order, actions)
    decreases |actions|
  {
    if actions != [] {
      var init, a := actions[..|actions| - 1], actions[|actions| - 1];
      var s := After(maxFinished, init);
      assert actions == init + [a];
      ListedByStart(maxFinished, init);
      AllBegun(maxFinished, init);
      ByStartLater(s.reg.order, init, a);
      OrderSteps(s, a);
      var order := Step(s, a).reg.order;
      if a.Start? && a.id !in s.reg.handles && order == s.reg.order + [a.id] {
        RunTold(maxFinished, init, a.id);
        MarksExtend(init, a, a.id);
      } else if order != [] && order != s.reg.order {
        var x: Registry, excess: nat :| order == DropOldest(x, s.reg.order, excess);
        DroppedByStart(x, s.reg.order, excess, actions);
      }
    }
  }

  lemma AllBegun(maxFinished: nat, actions: seq<Action>)
    ensures forall id :: id in After(maxFinished, actions).reg.order ==> Begun(actions, id) < |actions|
  {
    ReachableValid(maxFinished, actions);
    forall id | id in After(maxFinished, actions).reg.order ensures Begun(actions, id) < |actions| {
      RunTold(maxFinished, actions, id);
    }
  }

  // ---------- Subscribers ----------

  /** Action `c` attaches a new subscriber to a run that is registered then. */
  ghost predicate AttachesAt(maxFinished: nat, actions: seq<Action>, k: SubscriberId, c: nat)
    requires c < |actions|
  {
    var s, a := After(maxFinished, actions[..c]), actions[c];
    a.Attach? && a.sub == k && k !in s.subs && a.id in s.reg.order
  }

  lemma SubscribersNext(s: System, a: Action, k: SubscriberId)
    requires Valid(s)
    ensures var attached := a.Attach? && a.sub == k && k !in s.subs && a.id in s.reg.order;
            (k in Step(s, a).subs <==> k in s.subs || attached) &&
            (attached ==> Step(s, a).subs[k] == Subscriber(a.id, a.afterSeq, a.afterSeq, [], Ready)) &&
            (k in s.subs ==>
               Step(s, a).subs[k].run == s.subs[k].run && Step(s, a).subs[k].afterSeq == s.subs[k].afterSeq)
  {
  }

  /** The subscriber follows what action `c` asked for. */
  predicate Follows(subs: map<SubscriberId, Subscriber>, k: SubscriberId, a: Action) {
    a.Attach? && k in subs && subs[k].run == a.id && subs[k].afterSeq == a.afterSeq
  }

  lemma AttachesEarlier(maxFinished: nat, init: seq<Action>, actions: seq<Action>, k: SubscriberId, c: nat)
    requires c < |init| < |actions| && init == actions[..|init|]
    ensures AttachesAt(maxFinished, actions, k, c) == AttachesAt(maxFinished, init, k, c)
  {
    assert actions[..c] == init[..c] && actions[c] == init[c];
  }

  /** A subscriber stays with the run it was attached to and the number it asked to start after. */
  lemma {:induction false} SubscriberFollows(maxFinished: nat, actions: seq<Action>, k: SubscriberId, c: nat)
    requires c < |actions| && AttachesAt(maxFinished, actions, k, c)
    ensures Follows(After(maxFinished, actions).subs, k, actions[c])
    decreases |actions|
  {
    var n, init, a := |actions| - 1, actions[..|actions| - 1], actions[|actions| - 1];
    ReachableValid(maxFinished, init);
    SubscribersNext(After(maxFinished, init), a, k);
    if c < n {
      AttachesEarlier(maxFinished, init, actions, k, c);
      SubscriberFollows(maxFinished, init, k, c);
    }
  }

  /** A subscriber is there exactly when it was attached to a run that was registered then. */
  lemma {:induction false} SubscribedExactlyWhen(maxFinished: nat, actions: seq<Action>, k: SubscriberId)
    ensures k in After(maxFinished, actions).subs <==>
      exists c :: 0 <= c < |actions| && AttachesAt(maxFinished, actions, k, c)
    ensures forall c :: 0 <= c < |actions| && AttachesAt(maxFinished, actions, k, c) ==>
      Follows(After(maxFinished, actions).subs, k, actions[c])
    decreases |actions|
  {
    forall c | 0 <= c < |actions| && AttachesAt(maxFinished, actions, k, c)
      ensures Follows(After(maxFinished, actions).subs, k, actions[c])
    {
      SubscriberFollows(maxFinished, actions, k, c);
    }
    if k in After(maxFinished, actions).subs {
      var c := WasAttached(maxFinished, actions, k);
    }
  }

  lemma {:induction false} WasAttached(maxFinished: nat, actions: seq<Action>, k: SubscriberId) returns (c: nat)
    requires k in After(maxFinished, actions).subs
    ensures c < |actions| && AttachesAt(maxFinished, actions, k, c)
    decreases |actions|
  {
    var init, a := actions[..|actions| - 1], actions[|actions| - 1];
    ReachableValid(maxFinished, init);
    SubscribersNext(After(maxFinished, init), a, k);
    if k in After(maxFinished, init).subs {
      c := WasAttached(maxFinished, init, k);
      AttachesEarlier(maxFinished, init, actions, k, c);
    } else {
      c := |actions| - 1;
    }
  }
}
