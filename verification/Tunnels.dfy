/** The per-process cache of SSH tunnels (cli/shared/ssh_tunnel.py, TunnelManager). Sockets, paramiko and the clock are
    parameters of each call. */
module Tunnels {
  import opened Wrappers

  type Target = string

  /** The SSH fields as the caller gave them; "" where one is missing. */
  datatype Supplied = Supplied(host: string, port: string, user: string, keyPath: string, profile: string)

  /** The SSH path those fields resolve to. */
  datatype Resolved = Resolved(host: string, port: int, user: string, keyPath: string)

  datatype Fingerprint = Fingerprint(path: Resolved, profile: string)

  datatype Destination = Destination(host: string, port: int)

  /** `openedAs` are the SSH fields of the request it was opened for, `supplied` those of the last it served. */
  datatype Tunnel = Tunnel(target: Target, port: nat, openedAs: Supplied, supplied: Supplied, fingerprint: Fingerprint,
                           destination: Destination, lastUsed: real, stopped: bool)

  /** A failed attempt, kept with the SSH fields and destination it was made with. */
  datatype Failed = Failed(supplied: Supplied, destination: Destination, needsPassphrase: bool, due: real)

  type Failures = map<Target, Failed>

  type Id = nat

  /** `tunnels` are all tunnels ever opened, by id; `live` the ids in the cache, oldest entry first, each under its
      tunnel's target; `closing` those taken out of the cache whose close is still to come; `failures` the last failed
      attempt of a target. */
  datatype State = State(live: seq<Id>, tunnels: seq<Tunnel>, closing: set<Id>, failures: Failures)

  const INITIAL := State([], [], {}, map[])

  datatype Request = Request(target: Target, supplied: Supplied, destination: Destination, forceFresh: bool)

  datatype Opening = Opened(port: nat) | NotReady(port: nat) | OpenFailed

  /** What the world answers during one call: whether the cached transport is active, what the SSH configuration
      resolves to (None: it raises), and how opening goes. */
  datatype World = World(now: real, active: bool, resolved: Option<Resolved>, opening: Opening)

  predicate FullyInline(supplied: Supplied) {
    supplied.profile == "" && supplied.user != "" && supplied.keyPath != ""
  }

  predicate InRange(live: seq<Id>, n: nat) {
    forall i :: 0 <= i < |live| ==> live[i] < n
  }

  function Find(live: seq<Id>, tunnels: seq<Tunnel>, target: Target): Option<Id>
    requires InRange(live, |tunnels|)
    decreases |live|
  {
    if live == [] then None
    else if tunnels[live[0]].target == target then Some(live[0])
    else Find(live[1..], tunnels, target)
  }

  function Without(live: seq<Id>, id: Id): seq<Id>
    decreases |live|
  {
    if live == [] then [] else (if live[0] == id then [] else [live[0]]) + Without(live[1..], id)
  }

  /** min by last use: the first of the least. */
  function Oldest(live: seq<Id>, tunnels: seq<Tunnel>): (id: Id)
    requires live != [] && InRange(live, |tunnels|)
    ensures id in live
    decreases |live|
  {
    if |live| == 1 then live[0]
    else
      assert live == [live[0]] + live[1..];
      var rest := Oldest(live[1..], tunnels);
      if tunnels[rest].lastUsed < tunnels[live[0]].lastUsed then rest else live[0]
  }

  predicate Indexed(s: State) {
    InRange(s.live, |s.tunnels|)
  }

  /** Taken out of the cache and closed. */
  function Retired(s: State, id: Id): State
    requires id < |s.tunnels|
  {
    s.(live := Without(s.live, id), tunnels := s.tunnels[id := s.tunnels[id].(stopped := true)])
  }

  predicate Usable(t: Tunnel, request: Request, world: World) {
    !request.forceFresh && !t.stopped && world.active && t.destination == request.destination
  }

  function Touched(s: State, id: Id, request: Request, world: World): State
    requires id < |s.tunnels|
  {
    s.(tunnels := s.tunnels[id := s.tunnels[id].(lastUsed := world.now, supplied := request.supplied)])
  }

  function FingerprintOf(request: Request, resolved: Resolved): Fingerprint {
    Fingerprint(resolved, request.supplied.profile)
  }

  /** Room is made by closing the entry used longest ago. */
  function WithRoom(s: State, max: nat): State
    requires max > 0 && InRange(s.live, |s.tunnels|)
  {
    if |s.live| >= max then Retired(s, Oldest(s.live, s.tunnels)) else s
  }

  /** Room for the request: the target's own entry goes, and then one more if the cache is still full. */
  function MadeRoom(s: State, max: nat, request: Request): State
    requires max > 0 && InRange(s.live, |s.tunnels|)
  {
    FindIsLive(s.live, s.tunnels, request.target);
    var found := Find(s.live, s.tunnels, request.target);
    WithoutWithin(s.live, if found.Some? then found.value else 0);
    WithRoom(if found.Some? then Retired(s, found.value) else s, max)
  }

  function NewTunnel(request: Request, world: World, resolved: Resolved, port: nat, stopped: bool): Tunnel {
    Tunnel(request.target, port, request.supplied, request.supplied, FingerprintOf(request, resolved),
           request.destination, world.now, stopped)
  }

  /** Opening a tunnel; one whose listener does not get ready is closed again. */
  function OpenedFor(s: State, request: Request, world: World, resolved: Resolved): (State, Option<nat>) {
    match world.opening
    case OpenFailed => (s, None)
    case NotReady(port) => (s.(tunnels := s.tunnels + [NewTunnel(request, world, resolved, port, true)]), None)
    case Opened(port) =>
      (s.(live := s.live + [|s.tunnels|], tunnels := s.tunnels + [NewTunnel(request, world, resolved, port, false)]),
       Some(port))
  }

  predicate ReusedAsSupplied(t: Tunnel, request: Request, world: World) {
    FullyInline(request.supplied) && Usable(t, request, world) && t.supplied == request.supplied
  }

  predicate ReusedAsResolved(t: Tunnel, request: Request, world: World, resolved: Resolved) {
    Usable(t, request, world) && t.fingerprint == FingerprintOf(request, resolved)
  }

  /** The state after one ensure call, and the local port it returns; None where it raises. */
  function Ensured(s: State, max: nat, request: Request, world: World): (State, Option<nat>)
    requires max > 0 && InRange(s.live, |s.tunnels|)
  {
    var found := Find(s.live, s.tunnels, request.target);
    FindIsLive(s.live, s.tunnels, request.target);
    if found.Some? && ReusedAsSupplied(s.tunnels[found.value], request, world) then
      (Touched(s, found.value, request, world), Some(s.tunnels[found.value].port))
    else if world.resolved.None? then (s, None)
    else if found.Some? && ReusedAsResolved(s.tunnels[found.value], request, world, world.resolved.value) then
      (Touched(s, found.value, request, world), Some(s.tunnels[found.value].port))
    else OpenedFor(MadeRoom(s, max, request), request, world, world.resolved.value)
  }

  // ---------- Failed attempts ----------

  /** The clock, and how long the shared backoff still tells the target to wait, at the check and at the recording of a
      failure; `asksPassphrase` is whether a failure would be a missing passphrase. */
  datatype Attempt = Attempt(withPassphrase: bool, now: real, retryAfter: real, failedAt: real, retryThen: real,
                             asksPassphrase: bool)

  /** The last failure is raised again without trying. */
  predicate Refused(failures: Failures, request: Request, attempt: Attempt) {
    request.target in failures &&
    var f := failures[request.target];
    f.supplied == request.supplied && f.destination == request.destination &&
    !(attempt.withPassphrase && f.needsPassphrase) && (attempt.now < f.due || attempt.retryAfter > 0.0)
  }

  function FailedAttempt(supplied: Supplied, destination: Destination, attempt: Attempt): Failed {
    Failed(supplied, destination, attempt.asksPassphrase,
           attempt.failedAt + if attempt.retryThen > 30.0 then attempt.retryThen else 30.0)
  }

  /** The failures kept after one ensure call that was not refused. */
  function FailuresAfter(failures: Failures, request: Request, attempt: Attempt, port: Option<nat>): Failures {
    if port.None? then failures[request.target := FailedAttempt(request.supplied, request.destination, attempt)]
    else failures - {request.target}
  }

  /** One call of ensure_tunnel: refused, or tried and its failure recorded or cleared. */
  function Called(s: State, max: nat, request: Request, attempt: Attempt, world: World): (State, Option<nat>)
    requires max > 0 && InRange(s.live, |s.tunnels|)
  {
    if Refused(s.failures, request, attempt) then (s, None)
    else
      var (after, port) := Ensured(s, max, request, world);
      (after.(failures := FailuresAfter(s.failures, request, attempt, port)), port)
  }

  lemma {:induction false} FindIsLive(live: seq<Id>, tunnels: seq<Tunnel>, target: Target)
    requires InRange(live, |tunnels|)
    ensures var found := Find(live, tunnels, target);
            if found.Some? then found.value in live && tunnels[found.value].target == target
            else forall id :: id in live ==> tunnels[id].target != target
    decreases |live|
  {
    if live != [] {
      assert live == [live[0]] + live[1..];
      if tunnels[live[0]].target != target {
        FindIsLive(live[1..], tunnels, target);
      }
    }
  }

  lemma {:induction false} WithoutWithin(live: seq<Id>, id: Id)
    ensures forall k :: k in Without(live, id) <==> k in live && k != id
    ensures |Without(live, id)| <= |live| && (id in live ==> |Without(live, id)| < |live|)
    ensures id !in live ==> Without(live, id) == live
    ensures forall n: nat :: InRange(live, n) ==> InRange(Without(live, id), n)
    decreases |live|
  {
    if live != [] {
      assert live == [live[0]] + live[1..];
      WithoutWithin(live[1..], id);
      assert forall n: nat :: InRange(live, n) ==> InRange(live[1..], n);
    }
  }

  // ---------- What always holds ----------

  ghost predicate OnePerTarget(s: State)
    requires Indexed(s)
  {
    (forall i, j :: 0 <= i < j < |s.live| ==> s.live[i] != s.live[j]) &&
    forall a, b :: a in s.live && b in s.live && s.tunnels[a].target == s.tunnels[b].target ==> a == b
  }

  /** Every opened tunnel that is not in the cache is closed, or a close of it is under way. */
  ghost predicate NoneLeaked(s: State) {
    forall id: nat :: id < |s.tunnels| && id !in s.live ==> s.tunnels[id].stopped || id in s.closing
  }

  ghost predicate Good(s: State) {
    Indexed(s) && OnePerTarget(s) && NoneLeaked(s) && forall id :: id in s.closing ==> id < |s.tunnels| && id !in s.live
  }

  lemma {:induction false} WithoutDistinct(live: seq<Id>, id: Id)
    requires forall i, j :: 0 <= i < j < |live| ==> live[i] != live[j]
    ensures var kept := Without(live, id); forall i, j :: 0 <= i < j < |kept| ==> kept[i] != kept[j]
    decreases |live|
  {
    if live != [] {
      WithoutDistinct(live[1..], id);
      WithoutWithin(live[1..], id);
      assert live[0] !in live[1..];
    }
  }

  lemma RetiredGood(s: State, id: Id)
    requires Good(s) && id < |s.tunnels|
    ensures Good(Retired(s, id))
    ensures forall k :: k in Retired(s, id).live <==> k in s.live && k != id
    ensures |Retired(s, id).live| <= |s.live| && (id in s.live ==> |Retired(s, id).live| < |s.live|)
  {
    WithoutWithin(s.live, id);
    WithoutDistinct(s.live, id);
  }

  lemma TouchedGood(s: State, id: Id, request: Request, world: World)
    requires Good(s) && id < |s.tunnels|
    ensures Good(Touched(s, id, request, world))
  {
  }

  lemma OpenedGood(s: State, request: Request, world: World, resolved: Resolved)
    requires Good(s) && forall id :: id in s.live ==> s.tunnels[id].target != request.target
    ensures Good(OpenedFor(s, request, world, resolved).0)
  {
    var after := OpenedFor(s, request, world, resolved).0;
    if world.opening.Opened? {
      forall i, j | 0 <= i < j < |after.live| ensures after.live[i] != after.live[j] {
        assert after.live[i] == s.live[i];
        assert j < |s.live| ==> after.live[j] == s.live[j];
      }
    }
  }

  predicate Fits(t: Tunnel, request: Request, port: nat) {
    t.target == request.target && t.port == port && !t.stopped && t.destination == request.destination &&
    t.supplied == request.supplied
  }

  /** The SSH configuration as resolved in this call is the tunnel's path. */
  predicate ResolvedNow(t: Tunnel, request: Request, world: World) {
    world.resolved.Some? && t.fingerprint == FingerprintOf(request, world.resolved.value)
  }

  /** The tunnel had this target, these SSH fields and this path already. */
  predicate AsBefore(s: State, id: Id, t: Tunnel) {
    id < |s.tunnels| && s.tunnels[id].target == t.target && s.tunnels[id].supplied == t.supplied &&
    s.tunnels[id].fingerprint == t.fingerprint
  }

  /** The cached tunnel under the request's target is open, serves the port, and goes to the asked-for destination over
      the asked-for path: the one resolved in this call, or, for fully inline fields only, the one it had for exactly
      these fields. */
  ghost predicate Serves(s: State, after: State, request: Request, world: World, port: nat)
    requires Indexed(after)
  {
    exists id :: id in after.live && Fits(after.tunnels[id], request, port) &&
      (ResolvedNow(after.tunnels[id], request, world) ||
       (FullyInline(request.supplied) && AsBefore(s, id, after.tunnels[id])))
  }

  lemma MadeRoomGood(s: State, max: nat, request: Request)
    requires Good(s) && max > 0 && |s.live| <= max
    ensures Good(MadeRoom(s, max, request)) && |MadeRoom(s, max, request).live| < max
    ensures forall id :: id in MadeRoom(s, max, request).live ==>
      id in s.live && MadeRoom(s, max, request).tunnels[id].target != request.target
  {
    var found := Find(s.live, s.tunnels, request.target);
    FindIsLive(s.live, s.tunnels, request.target);
    var cleared := if found.Some? then Retired(s, found.value) else s;
    if found.Some? {
      RetiredGood(s, found.value);
    }
    if |cleared.live| >= max {
      RetiredGood(cleared, Oldest(cleared.live, cleared.tunnels));
    }
  }

  /** One ensure call keeps the cache within its bound and leaks no tunnel, and the port it returns belongs to the
      open tunnel now cached for the target, with the destination and the SSH path asked for. */
  lemma EnsureServes(s: State, max: nat, request: Request, world: World)
    requires Good(s) && max > 0 && |s.live| <= max
    ensures var (after, port) := Ensured(s, max, request, world);
            Good(after) && |after.live| <= max && (port.Some? ==> Serves(s, after, request, world, port.value))
  {
    var found := Find(s.live, s.tunnels, request.target);
    FindIsLive(s.live, s.tunnels, request.target);
    var (after, port) := Ensured(s, max, request, world);
    if found.Some? && (ReusedAsSupplied(s.tunnels[found.value], request, world) ||
                       (world.resolved.Some? &&
                        ReusedAsResolved(s.tunnels[found.value], request, world, world.resolved.value))) {
      TouchedGood(s, found.value, request, world);
      assert Fits(after.tunnels[found.value], request, port.value);
    } else if world.resolved.Some? {
      var room := MadeRoom(s, max, request);
      MadeRoomGood(s, max, request);
      OpenedGood(room, request, world, world.resolved.value);
      OpenedServes(s, room, request, world);
    }
  }

  lemma OpenedServes(s: State, room: State, request: Request, world: World)
    requires Good(room) && world.resolved.Some?
    ensures var (after, port) := OpenedFor(room, request, world, world.resolved.value);
            Indexed(after) && |after.live| <= |room.live| + 1 &&
            (port.Some? ==> Serves(s, after, request, world, port.value))
  {
    var (after, port) := OpenedFor(room, request, world, world.resolved.value);
    if port.Some? {
      assert |room.tunnels| in after.live && Fits(after.tunnels[|room.tunnels|], request, port.value);
    }
  }

  /** Where the SSH fields and the path of a tunnel come from: they are as before the call, or the call set both. */
  lemma PathsComeTogether(s: State, max: nat, request: Request, world: World, id: Id)
    requires Good(s) && max > 0 && |s.live| <= max && id < |Ensured(s, max, request, world).0.tunnels|
    ensures var t := Ensured(s, max, request, world).0.tunnels[id];
            AsBefore(s, id, t) ||
            (t.target == request.target && t.supplied == request.supplied && ResolvedNow(t, request, world))
  {
    FindIsLive(s.live, s.tunnels, request.target);
    RoomKeepsPaths(s, max, request, MadeRoom(s, max, request));
  }

  lemma RoomKeepsPaths(s: State, max: nat, request: Request, room: State)
    requires Good(s) && max > 0 && |s.live| <= max && room == MadeRoom(s, max, request)
    ensures |room.tunnels| == |s.tunnels| && forall id: nat :: id < |s.tunnels| ==> AsBefore(s, id, room.tunnels[id])
  {
    var found := Find(s.live, s.tunnels, request.target);
    FindIsLive(s.live, s.tunnels, request.target);
    var cleared := if found.Some? then Retired(s, found.value) else s;
    if found.Some? {
      RetiredGood(s, found.value);
    }
    assert |cleared.tunnels| == |s.tunnels|;
    assert |room.tunnels| == |cleared.tunnels|;
  }

  lemma {:induction false} OldestIsLeast(live: seq<Id>, tunnels: seq<Tunnel>) returns (i: nat)
    requires live != [] && InRange(live, |tunnels|)
    ensures i < |live| && Oldest(live, tunnels) == live[i]
    ensures forall j :: 0 <= j < |live| ==>
      if j < i then tunnels[live[i]].lastUsed < tunnels[live[j]].lastUsed
      else tunnels[live[i]].lastUsed <= tunnels[live[j]].lastUsed
    decreases |live|
  {
    i := 0;
    if |live| > 1 {
      assert live == [live[0]] + live[1..];
      var k := OldestIsLeast(live[1..], tunnels);
      if tunnels[live[1..][k]].lastUsed < tunnels[live[0]].lastUsed {
        i := k + 1;
      }
    }
  }

  /** The cached entries of the other targets. */
  function Others(s: State, request: Request): (others: seq<Id>)
    requires Indexed(s)
    ensures InRange(others, |s.tunnels|)
  {
    var found := Find(s.live, s.tunnels, request.target);
    WithoutWithin(s.live, if found.Some? then found.value else 0);
    if found.Some? then Without(s.live, found.value) else s.live
  }

  /** The call returns the target's cached tunnel. */
  predicate Reuses(s: State, request: Request, world: World)
    requires Indexed(s)
  {
    FindIsLive(s.live, s.tunnels, request.target);
    var found := Find(s.live, s.tunnels, request.target);
    found.Some? &&
    var t := s.tunnels[found.value];
    ReusedAsSupplied(t, request, world) ||
    (world.resolved.Some? && ReusedAsResolved(t, request, world, world.resolved.value))
  }

  /** An ensure call takes an entry of another target out of the cache exactly when it reuses nothing, the SSH
      configuration resolves, the cache is full without the target's own entry, and the entry is the first of those used
      longest ago; even when opening then fails. */
  lemma EvictedExactlyWhen(s: State, max: nat, request: Request, world: World, id: Id)
    requires Good(s) && max > 0 && |s.live| <= max && id in s.live && s.tunnels[id].target != request.target
    ensures id !in Ensured(s, max, request, world).0.live <==>
      !Reuses(s, request, world) && world.resolved.Some? &&
      |Others(s, request)| >= max && id == Oldest(Others(s, request), s.tunnels)
    ensures id !in Ensured(s, max, request, world).0.live ==>
      forall k :: k in s.live && s.tunnels[k].target != request.target ==>
        s.tunnels[id].lastUsed <= s.tunnels[k].lastUsed
  {
    RoomTakenExactlyWhen(s, max, request, id);
    LiveAfter(s, max, request, world, id, MadeRoom(s, max, request));
  }

  lemma LiveAfter(s: State, max: nat, request: Request, world: World, id: Id, room: State)
    requires Good(s) && max > 0 && |s.live| <= max && id in s.live && room == MadeRoom(s, max, request)
    ensures id in Ensured(s, max, request, world).0.live <==>
      Reuses(s, request, world) || world.resolved.None? || id in room.live
  {
    RoomKeepsPaths(s, max, request, room);
  }

  lemma RoomTakenExactlyWhen(s: State, max: nat, request: Request, id: Id)
    requires Good(s) && max > 0 && |s.live| <= max && id in s.live && s.tunnels[id].target != request.target
    ensures id !in MadeRoom(s, max, request).live <==>
      |Others(s, request)| >= max && id == Oldest(Others(s, request), s.tunnels)
    ensures id !in MadeRoom(s, max, request).live ==>
      forall k :: k in s.live && s.tunnels[k].target != request.target ==>
        s.tunnels[id].lastUsed <= s.tunnels[k].lastUsed
  {
    var found := Find(s.live, s.tunnels, request.target);
    FindIsLive(s.live, s.tunnels, request.target);
    var cleared := if found.Some? then Retired(s, found.value) else s;
    if found.Some? {
      RetiredGood(s, found.value);
      OldestAgrees(cleared.live, s.tunnels, cleared.tunnels);
    }
    if |cleared.live| >= max {
      RetiredGood(cleared, Oldest(cleared.live, cleared.tunnels));
      var i := OldestIsLeast(cleared.live, s.tunnels);
    }
  }

  lemma {:induction false} OldestAgrees(live: seq<Id>, a: seq<Tunnel>, b: seq<Tunnel>)
    requires |a| == |b| && InRange(live, |a|)
    requires forall i :: 0 <= i < |live| ==> a[live[i]].lastUsed == b[live[i]].lastUsed
    ensures live != [] ==> Oldest(live, a) == Oldest(live, b)
    decreases |live|
  {
    if |live| > 1 {
      assert live == [live[0]] + live[1..];
      OldestAgrees(live[1..], a, b);
    }
  }

  // ---------- What one call does ----------

  /** The target has a cached tunnel that is open and whose SSH transport is active, the call is not forced fresh, and
      the tunnel goes where the request wants: the destination is the same, and so are the SSH fields, given in full, or
      the path they resolve to. */
  ghost predicate HasUsableTunnel(s: State, request: Request, world: World, id: Id)
    requires Indexed(s)
  {
    id in s.live && s.tunnels[id].target == request.target && !s.tunnels[id].stopped && world.active &&
    !request.forceFresh && s.tunnels[id].destination == request.destination &&
    ((request.supplied.profile == "" && request.supplied.user != "" && request.supplied.keyPath != "" &&
      s.tunnels[id].supplied == request.supplied) ||
     (world.resolved.Some? &&
      s.tunnels[id].fingerprint == Fingerprint(world.resolved.value, request.supplied.profile)))
  }

  lemma ReusesExactlyWhen(s: State, request: Request, world: World)
    requires Good(s)
    ensures Reuses(s, request, world) <==> exists id :: HasUsableTunnel(s, request, world, id)
  {
    FindIsLive(s.live, s.tunnels, request.target);
    var found := Find(s.live, s.tunnels, request.target);
    if Reuses(s, request, world) {
      assert HasUsableTunnel(s, request, world, found.value);
    }
    if exists id :: HasUsableTunnel(s, request, world, id) {
      var id :| HasUsableTunnel(s, request, world, id);
      assert found.Some? && found.value == id;
    }
  }

  /** A call returns a port without opening a tunnel exactly when the target has a usable one. */
  lemma ReturnedWithoutOpeningExactlyWhen(s: State, max: nat, request: Request, world: World)
    requires Good(s) && max > 0 && |s.live| <= max
    ensures var (after, port) := Ensured(s, max, request, world);
            port.Some? && |after.tunnels| == |s.tunnels| <==>
            exists id :: HasUsableTunnel(s, request, world, id)
  {
    ReusesExactlyWhen(s, request, world);
    FindIsLive(s.live, s.tunnels, request.target);
    RoomKeepsPaths(s, max, request, MadeRoom(s, max, request));
  }

  /** With a usable tunnel the call returns its port and only notes its use and the fields asked for. */
  lemma UsableTunnelReturned(s: State, max: nat, request: Request, world: World, id: Id)
    requires Good(s) && max > 0 && |s.live| <= max && HasUsableTunnel(s, request, world, id)
    ensures Ensured(s, max, request, world) ==
      (s.(tunnels := s.tunnels[id := s.tunnels[id].(lastUsed := world.now, supplied := request.supplied)]),
       Some(s.tunnels[id].port))
  {
    FindIsLive(s.live, s.tunnels, request.target);
    assert Find(s.live, s.tunnels, request.target) == Some(id);
  }

  /** Tunnel `id` is cached for the target, or it is the one that makes room. */
  ghost predicate MakesWay(s: State, max: nat, request: Request, id: Id)
    requires Indexed(s) && max > 0
  {
    id in s.live &&
    (s.tunnels[id].target == request.target ||
     (|Others(s, request)| >= max && id == Oldest(Others(s, request), s.tunnels)))
  }

  /** The cache without the target's own entry. */
  function Cleared(s: State, request: Request): (cleared: State)
    requires Indexed(s)
    ensures Indexed(cleared)
  {
    FindIsLive(s.live, s.tunnels, request.target);
    var found := Find(s.live, s.tunnels, request.target);
    WithoutWithin(s.live, if found.Some? then found.value else 0);
    if found.Some? then Retired(s, found.value) else s
  }

  lemma ClearedIs(s: State, request: Request, cleared: State)
    requires Good(s) && cleared == Cleared(s, request)
    ensures cleared.live == Others(s, request) && |cleared.tunnels| == |s.tunnels| && Good(cleared)
    ensures forall id :: id in cleared.live <==> id in s.live && s.tunnels[id].target != request.target
    ensures forall id: nat :: id < |s.tunnels| ==>
      cleared.tunnels[id] ==
      if id in s.live && s.tunnels[id].target == request.target then s.tunnels[id].(stopped := true)
      else s.tunnels[id]
  {
    var found := Find(s.live, s.tunnels, request.target);
    FindIsLive(s.live, s.tunnels, request.target);
    if found.Some? {
      RetiredGood(s, found.value);
    }
  }

  lemma RoomIs(s: State, max: nat, request: Request, room: State)
    requires Good(s) && max > 0 && |s.live| <= max && room == MadeRoom(s, max, request)
    ensures room.closing == s.closing && room.failures == s.failures && |room.tunnels| == |s.tunnels|
    ensures forall id :: id in room.live <==> id in s.live && !MakesWay(s, max, request, id)
    ensures forall id: nat :: id < |s.tunnels| ==>
      room.tunnels[id] == if MakesWay(s, max, request, id) then s.tunnels[id].(stopped := true) else s.tunnels[id]
  {
    var cleared := Cleared(s, request);
    ClearedIs(s, request, cleared);
    assert room == WithRoom(cleared, max);
    if |cleared.live| >= max {
      OldestAgrees(cleared.live, s.tunnels, cleared.tunnels);
      RetiredGood(cleared, Oldest(cleared.live, cleared.tunnels));
    }
  }

  /** Without one, and with the SSH configuration resolved, the target's old entry, and one more if the cache is full,
      leave the cache closed, and a tunnel is opened as the world lets it: for exactly this request, over the path that
      was resolved; the others stay as they are. */
  lemma OtherwiseReopened(s: State, max: nat, request: Request, world: World)
    requires Good(s) && max > 0 && |s.live| <= max && world.resolved.Some?
    requires !exists id :: HasUsableTunnel(s, request, world, id)
    ensures var (after, port) := Ensured(s, max, request, world);
            var n := |s.tunnels|;
            after.closing == s.closing && |after.tunnels| == (if world.opening.OpenFailed? then n else n + 1) &&
            (forall id: nat :: id < n ==>
               (id in after.live <==> id in s.live && !MakesWay(s, max, request, id)) &&
               after.tunnels[id] ==
               if MakesWay(s, max, request, id) then s.tunnels[id].(stopped := true) else s.tunnels[id]) &&
            (n in after.live <==> world.opening.Opened?) && (port.Some? <==> world.opening.Opened?) &&
            (!world.opening.OpenFailed? ==>
               after.tunnels[n] ==
               Tunnel(request.target, world.opening.port, request.supplied, request.supplied,
                      Fingerprint(world.resolved.value, request.supplied.profile), request.destination, world.now,
                      world.opening.NotReady?)) &&
            (port.Some? ==> port.value == world.opening.port)
  {
    ReusesExactlyWhen(s, request, world);
    FindIsLive(s.live, s.tunnels, request.target);
    RoomIs(s, max, request, MadeRoom(s, max, request));
  }

  /** When the SSH configuration does not resolve the call raises and changes nothing. */
  lemma OtherwiseRaises(s: State, max: nat, request: Request, world: World)
    requires Good(s) && max > 0 && |s.live| <= max && world.resolved.None?
    requires !exists id :: HasUsableTunnel(s, request, world, id)
    ensures Ensured(s, max, request, world) == (s, None)
  {
    ReusesExactlyWhen(s, request, world);
  }

  /** Where the tunnel could be reused or opened, a call is refused exactly when the failure remembered for the target
      is of the same SSH fields and destination and its wait is not over, unless the call brings the passphrase that was
      missing. */
  lemma RefusedExactlyWhen(s: State, max: nat, request: Request, attempt: Attempt, world: World)
    requires Good(s) && max > 0 && |s.live| <= max && Ensured(s, max, request, world).1.Some?
    ensures Called(s, max, request, attempt, world).1.None? <==>
      request.target in s.failures &&
      var f := s.failures[request.target];
      f.supplied == request.supplied && f.destination == request.destination &&
      !(attempt.withPassphrase && f.needsPassphrase) && (attempt.now < f.due || attempt.retryAfter > 0.0)
    ensures Called(s, max, request, attempt, world).1.None? ==>
      Called(s, max, request, attempt, world).0 == s
  {
  }

  // ---------- Whole runs ----------

  /** Take and TakeAll are the parts of close and close_all under the registry lock, Finish the close that follows and
      Forget the end of close. A forwarding failure is a Record, then a Stop, which leaves the tunnel in the cache. */
  datatype Action =
    | Ensure(request: Request, attempt: Attempt, world: World)
    | Take(target: Target)
    | TakeAll
    | Finish(id: Id)
    | Forget(target: Target)
    | Record(id: Id, attempt: Attempt)
    | Stop(id: Id)

  function Stopped(s: State, id: Id): State
    requires id < |s.tunnels|
  {
    s.(tunnels := s.tunnels[id := s.tunnels[id].(stopped := true)])
  }

  function TakenOut(s: State, target: Target): State
    requires InRange(s.live, |s.tunnels|)
  {
    var found := Find(s.live, s.tunnels, target);
    if found.None? then s
    else s.(live := Without(s.live, found.value), closing := s.closing + {found.value})
  }

  function AllTakenOut(s: State): State {
    s.(live := [], closing := s.closing + set id | id in s.live)
  }

  predicate Enabled(s: State, action: Action) {
    match action
    case Finish(id) => id in s.closing && id < |s.tunnels|
    case Stop(id) => id < |s.tunnels|
    case Record(id, attempt) => id < |s.tunnels|
    case _ => true
  }

  function After(s: State, max: nat, action: Action): State
    requires max > 0 && Enabled(s, action) && InRange(s.live, |s.tunnels|)
  {
    match action
    case Ensure(request, attempt, world) => Called(s, max, request, attempt, world).0
    case Take(target) => TakenOut(s, target)
    case TakeAll => AllTakenOut(s)
    case Finish(id) => Stopped(s, id).(closing := s.closing - {id})
    case Stop(id) => Stopped(s, id)
    case Forget(target) => s.(failures := s.failures - {target})
    case Record(id, attempt) => Recorded(s, id, attempt)
  }

  /** A forwarding failure counts for the SSH fields the tunnel was opened with. */
  function Recorded(s: State, id: Id, attempt: Attempt): State
    requires id < |s.tunnels|
  {
    var t := s.tunnels[id];
    s.(failures := s.failures[t.target := FailedAttempt(t.openedAs, t.destination, attempt)])
  }

  lemma TakenOutGood(s: State, target: Target)
    requires Good(s)
    ensures Good(TakenOut(s, target)) && |TakenOut(s, target).live| <= |s.live|
  {
    var found := Find(s.live, s.tunnels, target);
    FindIsLive(s.live, s.tunnels, target);
    if found.Some? {
      WithoutWithin(s.live, found.value);
      WithoutDistinct(s.live, found.value);
    }
  }

  lemma AfterGood(s: State, max: nat, action: Action)
    requires Good(s) && max > 0 && |s.live| <= max && Enabled(s, action)
    ensures Good(After(s, max, action)) && |After(s, max, action).live| <= max
  {
    match action
    case Ensure(request, attempt, world) => EnsureServes(s, max, request, world);
    case Take(target) => TakenOutGood(s, target);
    case _ =>
  }

  /** The steps taken on one manager, its state before and after each, and the port each ensure call returned. */
  datatype Run = Run(max: nat, actions: seq<Action>, states: seq<State>, ports: seq<Option<nat>>)

  predicate Shaped(run: Run) {
    |run.states| == |run.actions| + 1 && |run.ports| == |run.actions|
  }

  ghost predicate Taken(run: Run, i: nat)
    requires Shaped(run) && i < |run.actions|
  {
    run.max > 0 && Enabled(run.states[i], run.actions[i]) && Indexed(run.states[i]) &&
    run.states[i + 1] == After(run.states[i], run.max, run.actions[i]) &&
    (run.actions[i].Ensure? ==>
       run.ports[i] == Called(run.states[i], run.max, run.actions[i].request, run.actions[i].attempt,
                              run.actions[i].world).1)
  }

  ghost predicate Valid(run: Run) {
    Shaped(run) && run.max > 0 && run.states[0] == INITIAL &&
    forall i :: 0 <= i < |run.actions| ==> Taken(run, i)
  }

  /** After any interleaving the cache is within its bound, holds at most one tunnel a target, and every opened tunnel
      outside it is closed or about to be. */
  lemma {:induction false} CacheStaysGood(run: Run, n: nat)
    requires Valid(run) && n <= |run.actions|
    ensures Good(run.states[n]) && |run.states[n].live| <= run.max
  {
    if n > 0 {
      CacheStaysGood(run, n - 1);
      assert Taken(run, n - 1);
      AfterGood(run.states[n - 1], run.max, run.actions[n - 1]);
    }
  }

  /** Any step that is enabled can come next. */
  lemma RunGoesOn(run: Run, action: Action) returns (next: Run)
    requires Valid(run) && Enabled(run.states[|run.actions|], action)
    ensures Valid(next) && next.max == run.max && next.actions == run.actions + [action]
  {
    var n := |run.actions|;
    var s := run.states[n];
    CacheStaysGood(run, n);
    var port := if action.Ensure? then Called(s, run.max, action.request, action.attempt, action.world).1 else None;
    next := Run(run.max, run.actions + [action], run.states + [After(s, run.max, action)], run.ports + [port]);
    forall i | 0 <= i < n + 1 ensures Taken(next, i) {
      if i < n {
        assert Taken(run, i);
      }
    }
  }

  /** Once no close is under way, exactly the cached tunnels may be open. */
  lemma OpenTunnelsAreCached(run: Run, n: nat, id: Id)
    requires Valid(run) && n <= |run.actions| && run.states[n].closing == {}
    requires id < |run.states[n].tunnels| && !run.states[n].tunnels[id].stopped
    ensures id in run.states[n].live
  {
    CacheStaysGood(run, n);
  }

  /** Step k is a call for this target and these SSH fields that resolved them to the tunnel's path. */
  ghost predicate ResolvedAt(run: Run, k: nat, t: Tunnel)
    requires Shaped(run) && k < |run.actions|
  {
    run.actions[k].Ensure? && !Refused(run.states[k].failures, run.actions[k].request, run.actions[k].attempt) &&
    run.actions[k].request.target == t.target && run.actions[k].request.supplied == t.supplied &&
    ResolvedNow(t, run.actions[k].request, run.actions[k].world)
  }

  ghost predicate PathResolved(run: Run, n: nat, t: Tunnel)
    requires Shaped(run) && n <= |run.actions|
  {
    exists k: nat :: k < n && ResolvedAt(run, k, t)
  }

  lemma PathStaysResolved(run: Run, n: nat, s: Tunnel, t: Tunnel)
    requires Shaped(run) && n < |run.actions| && PathResolved(run, n, s)
    requires s.target == t.target && s.supplied == t.supplied && s.fingerprint == t.fingerprint
    ensures PathResolved(run, n + 1, t)
  {
    var k: nat :| k < n && ResolvedAt(run, k, s);
    assert ResolvedAt(run, k, t);
  }

  /** In any run the path of every tunnel is what its SSH fields resolved to in some call for its target. */
  lemma {:induction false} EveryPathResolved(run: Run, n: nat, id: Id)
    requires Valid(run) && n <= |run.actions| && id < |run.states[n].tunnels|
    ensures PathResolved(run, n, run.states[n].tunnels[id])
  {
    if n > 0 {
      CacheStaysGood(run, n - 1);
      assert Taken(run, n - 1);
      var s, t := run.states[n - 1], run.states[n].tunnels[id];
      PathStep(s, run.max, run.actions[n - 1], id);
      if AsBefore(s, id, t) {
        EveryPathResolved(run, n - 1, id);
        PathStaysResolved(run, n - 1, s.tunnels[id], t);
      } else {
        assert ResolvedAt(run, n - 1, t);
      }
    }
  }

  lemma PathStep(s: State, max: nat, action: Action, id: Id)
    requires Good(s) && max > 0 && |s.live| <= max && Enabled(s, action) && id < |After(s, max, action).tunnels|
    ensures var t := After(s, max, action).tunnels[id];
            AsBefore(s, id, t) ||
            (action.Ensure? && !Refused(s.failures, action.request, action.attempt) &&
             t.target == action.request.target && t.supplied == action.request.supplied &&
             ResolvedNow(t, action.request, action.world))
  {
    if action.Ensure? && !Refused(s.failures, action.request, action.attempt) {
      PathsComeTogether(s, max, action.request, action.world, id);
    }
  }

  ghost predicate ServesInRun(run: Run, i: nat, id: Id, port: nat)
    requires Shaped(run) && i < |run.actions| && run.actions[i].Ensure?
  {
    var s, request, world := run.states[i + 1], run.actions[i].request, run.actions[i].world;
    id in s.live && id < |s.tunnels| && Fits(s.tunnels[id], request, port) && PathResolved(run, i + 1, s.tunnels[id]) &&
    (FullyInline(request.supplied) || ResolvedNow(s.tunnels[id], request, world))
  }

  /** In any run the port an ensure call returns is that of the open tunnel it leaves cached for its target, with the
      asked-for destination, over the path that the asked-for SSH fields resolved to: in this very call, or, for fully
      inline fields, in this or an earlier one. */
  lemma ReturnedPortServes(run: Run, i: nat) returns (id: Id)
    requires Valid(run) && i < |run.actions| && run.actions[i].Ensure?
    ensures run.ports[i].Some? ==> ServesInRun(run, i, id, run.ports[i].value)
  {
    var s, request, world := run.states[i], run.actions[i].request, run.actions[i].world;
    CacheStaysGood(run, i);
    assert Taken(run, i);
    EnsureServes(s, run.max, request, world);
    id := 0;
    var after, port := run.states[i + 1], run.ports[i];
    if port.Some? {
      id :| id in after.live && Fits(after.tunnels[id], request, port.value) &&
        (ResolvedNow(after.tunnels[id], request, world) ||
         (FullyInline(request.supplied) && AsBefore(s, id, after.tunnels[id])));
      EveryPathResolved(run, i + 1, id);
    }
  }

  // ---------- Attempts are spaced ----------

  /** Over the steps that read the clock for one target, all taken under that target's lock, it never runs backwards.
      Steps of two targets may overlap in time. */
  ghost predicate Clocked(run: Run, target: Target)
    requires Shaped(run)
  {
    (forall i :: 0 <= i < |run.actions| && ReadsClock(run, i, target) ==>
       run.actions[i].attempt.now <= run.actions[i].attempt.failedAt) &&
    forall i, j :: 0 <= i < j < |run.actions| && ReadsClock(run, i, target) && ReadsClock(run, j, target) ==>
      run.actions[i].attempt.failedAt <= run.actions[j].attempt.now
  }

  /** Step i is a call for the target, or a forwarding failure of one of its tunnels. */
  predicate ReadsClock(run: Run, i: nat, target: Target)
    requires Shaped(run) && i < |run.actions|
  {
    var action, tunnels := run.actions[i], run.states[i].tunnels;
    (action.Ensure? && action.request.target == target) ||
    (action.Record? && action.id < |tunnels| && tunnels[action.id].target == target)
  }

  /** Step i tries the request, and no port results. */
  predicate Tries(run: Run, i: nat, target: Target)
    requires Shaped(run) && i < |run.actions|
  {
    run.actions[i].Ensure? && run.actions[i].request.target == target &&
    !Refused(run.states[i].failures, run.actions[i].request, run.actions[i].attempt)
  }

  predicate Fails(run: Run, i: nat, target: Target)
    requires Shaped(run) && i < |run.actions|
  {
    Tries(run, i, target) && run.ports[i] == None
  }

  predicate SameRequest(a: Request, supplied: Supplied, destination: Destination) {
    a.supplied == supplied && a.destination == destination
  }

  /** Step i ends the wait for the request: a success or a close of the target, or a failure of the target over another
      SSH path or to another destination, which replaces the one remembered. */
  predicate EndsWait(run: Run, i: nat, target: Target, supplied: Supplied, destination: Destination)
    requires Shaped(run) && i < |run.actions|
  {
    run.actions[i] == Forget(target) ||
    (Tries(run, i, target) &&
     (!Fails(run, i, target) || !SameRequest(run.actions[i].request, supplied, destination))) ||
    (run.actions[i].Record? && run.actions[i].id < |run.states[i].tunnels| &&
     var t := run.states[i].tunnels[run.actions[i].id];
     t.target == target && (t.openedAs != supplied || t.destination != destination))
  }

  /** The failure remembered is of the request and not due before the given time. */
  predicate Waits(failures: Failures, target: Target, supplied: Supplied, destination: Destination, until: real) {
    target in failures && failures[target].supplied == supplied && failures[target].destination == destination &&
    failures[target].due >= until
  }

  lemma WaitKept(run: Run, i: nat, target: Target, supplied: Supplied, destination: Destination, until: real)
    requires Valid(run) && i < |run.actions|
    requires Waits(run.states[i].failures, target, supplied, destination, until)
    requires !EndsWait(run, i, target, supplied, destination)
    requires ReadsClock(run, i, target) ==> run.actions[i].attempt.failedAt + 30.0 >= until
    ensures Waits(run.states[i + 1].failures, target, supplied, destination, until)
  {
    assert Taken(run, i);
  }

  lemma {:induction false} WaitsSince(run: Run, i: nat, n: nat)
    requires Valid(run) && i < n <= |run.actions|
    requires run.actions[i].Ensure? && Clocked(run, run.actions[i].request.target)
    requires Fails(run, i, run.actions[i].request.target)
    requires forall k :: i < k < n ==>
               !EndsWait(run, k, run.actions[i].request.target, run.actions[i].request.supplied,
                         run.actions[i].request.destination)
    ensures Waits(run.states[n].failures, run.actions[i].request.target, run.actions[i].request.supplied,
                  run.actions[i].request.destination, run.actions[i].attempt.failedAt + 30.0)
    decreases n
  {
    var request, until := run.actions[i].request, run.actions[i].attempt.failedAt + 30.0;
    if n == i + 1 {
      assert Taken(run, i);
    } else {
      WaitsSince(run, i, n - 1);
      assert ReadsClock(run, i, request.target);
      WaitKept(run, n - 1, request.target, request.supplied, request.destination, until);
    }
  }

  /** Two attempts at one request, the first of which failed, are at least 30 s apart, unless the second brings the
      passphrase that was missing or something ended the wait in between. */
  lemma AttemptsSpaced(run: Run, i: nat, n: nat)
    requires Valid(run) && i < n < |run.actions|
    requires run.actions[i].Ensure? && run.actions[n].Ensure? && Clocked(run, run.actions[i].request.target)
    requires run.actions[n].request.target == run.actions[i].request.target
    requires SameRequest(run.actions[n].request, run.actions[i].request.supplied, run.actions[i].request.destination)
    requires Fails(run, i, run.actions[i].request.target) && Tries(run, n, run.actions[i].request.target)
    requires forall k :: i < k < n ==>
               !EndsWait(run, k, run.actions[i].request.target, run.actions[i].request.supplied,
                         run.actions[i].request.destination)
    ensures run.actions[i].request.target in run.states[n].failures
    ensures !(run.actions[n].attempt.withPassphrase &&
              run.states[n].failures[run.actions[i].request.target].needsPassphrase) ==>
            run.actions[n].attempt.now - run.actions[i].attempt.failedAt >= 30.0
  {
    WaitsSince(run, i, n);
  }

  // ---------- What is remembered ----------

  /** Step i is a failed attempt for the target, or a forwarding failure of one of its tunnels. */
  predicate NotesFailure(run: Run, i: nat, target: Target)
    requires Shaped(run) && i < |run.actions|
  {
    Fails(run, i, target) || (run.actions[i].Record? && ReadsClock(run, i, target))
  }

  /** Step i is a successful attempt for the target, or the end of its close. */
  predicate ForgetsFailure(run: Run, i: nat, target: Target)
    requires Shaped(run) && i < |run.actions|
  {
    (Tries(run, i, target) && run.ports[i].Some?) || run.actions[i] == Forget(target)
  }

  /** The last failure of the target noted before step n, not forgotten since. */
  ghost predicate LastNoted(run: Run, i: nat, n: nat, target: Target)
    requires Shaped(run) && n <= |run.actions|
  {
    i < n && NotesFailure(run, i, target) &&
    forall k :: i < k < n ==> !NotesFailure(run, k, target) && !ForgetsFailure(run, k, target)
  }

  /** What that step tells: SSH fields and destination of the request, or those the tunnel was opened with; and a wait
      of 30 s, or longer if the shared backoff says so. */
  ghost predicate IsNote(run: Run, i: nat, target: Target, f: Failed)
    requires Shaped(run) && i < |run.actions| && NotesFailure(run, i, target)
  {
    var action, attempt := run.actions[i], run.actions[i].attempt;
    f.needsPassphrase == attempt.asksPassphrase && f.due >= attempt.failedAt + 30.0 &&
    f.due >= attempt.failedAt + attempt.retryThen && f.due - attempt.failedAt in {30.0, attempt.retryThen} &&
    if action.Ensure? then f.supplied == action.request.supplied && f.destination == action.request.destination
    else
      var t := run.states[i].tunnels[action.id];
      f.supplied == t.openedAs && f.destination == t.destination
  }

  lemma NoteStep(run: Run, n: nat, target: Target)
    requires Valid(run) && n < |run.actions|
    ensures var before, after := run.states[n].failures, run.states[n + 1].failures;
            if NotesFailure(run, n, target) then target in after && IsNote(run, n, target, after[target])
            else if ForgetsFailure(run, n, target) then target !in after
            else (target in after <==> target in before) && (target in before ==> after[target] == before[target])
  {
    assert Taken(run, n);
  }

  ghost predicate RemembersLast(run: Run, n: nat, target: Target)
    requires Shaped(run) && n <= |run.actions|
  {
    var failures := run.states[n].failures;
    (target in failures <==> exists i: nat :: LastNoted(run, i, n, target)) &&
    forall i: nat :: LastNoted(run, i, n, target) ==> target in failures && IsNote(run, i, target, failures[target])
  }

  lemma NoteLater(run: Run, i: nat, n: nat, m: nat, target: Target)
    requires Shaped(run) && n < |run.actions| && m == n + 1 && i < m
    ensures LastNoted(run, i, m, target) <==>
      if NotesFailure(run, n, target) then i == n
      else if ForgetsFailure(run, n, target) then false
      else LastNoted(run, i, n, target)
  {
  }

  lemma RemembersNext(run: Run, n: nat, m: nat, target: Target)
    requires Valid(run) && n < |run.actions| && m == n + 1 && RemembersLast(run, n, target)
    ensures RemembersLast(run, m, target)
  {
    NoteStep(run, n, target);
    forall i: nat | i < m
      ensures LastNoted(run, i, m, target) <==>
        if NotesFailure(run, n, target) then i == n
        else if ForgetsFailure(run, n, target) then false
        else LastNoted(run, i, n, target)
    {
      NoteLater(run, i, n, m, target);
    }
    if NotesFailure(run, n, target) {
      assert LastNoted(run, n, m, target);
    } else if target in run.states[n].failures && !ForgetsFailure(run, n, target) {
      var i: nat :| LastNoted(run, i, n, target);
      assert LastNoted(run, i, m, target);
    }
  }

  /** In any run exactly the last failure of a target that nothing ended since is remembered, with its SSH fields and
      destination and its wait; so a call is refused for no other. */
  lemma {:induction false} LastFailureRemembered(run: Run, n: nat, target: Target)
    requires Valid(run) && n <= |run.actions|
    ensures RemembersLast(run, n, target)
  {
    if n > 0 {
      LastFailureRemembered(run, n - 1, target);
      RemembersNext(run, n - 1, n, target);
    }
  }

  // ---------- The manager ----------

  /** Exactly these tunnels were closed, and nothing else changed. */
  ghost predicate OnlyStopped(before: seq<Tunnel>, after: seq<Tunnel>, ids: seq<Id>) {
    |after| == |before| && forall id: nat :: id < |after| ==>
      after[id] == if id in ids then before[id].(stopped := true) else before[id]
  }

  lemma AllStopped(s: State, tunnels: seq<Tunnel>)
    requires Good(s) && OnlyStopped(s.tunnels, tunnels, s.live)
    ensures Good(State([], tunnels, s.closing, s.failures))
    ensures forall id: nat :: id < |tunnels| ==> tunnels[id].stopped || id in s.closing
  {
  }

  function Ids(live: seq<Id>): set<Id> {
    set id | id in live
  }

  /** Each of the cached tunnels is closed once. */
  lemma NextId(s: State, i: nat)
    requires Good(s) && i < |s.live|
    ensures s.live[i] < |s.tunnels|
    ensures s.closing + Ids(s.live[i..]) - {s.live[i]} == s.closing + Ids(s.live[i + 1..])
  {
    assert s.live[i..] == [s.live[i]] + s.live[i + 1..];
    assert s.live[i] in s.live && s.live[i] !in s.closing && s.live[i] !in s.live[i + 1..];
  }

  lemma StoppedNext(before: seq<Tunnel>, after: seq<Tunnel>, ids: seq<Id>, id: Id, more: seq<Id>)
    requires OnlyStopped(before, after, ids) && id < |after| && more == ids + [id]
    ensures OnlyStopped(before, after[id := after[id].(stopped := true)], more)
  {
  }

  class TunnelManager {
    const max: nat
    var live: seq<Id>
    var tunnels: seq<Tunnel>
    var closing: set<Id>
    var failures: Failures

    ghost function Value(): State
      reads this
    {
      State(live, tunnels, closing, failures)
    }

    ghost predicate Ready()
      reads this
    {
      max > 0 && Good(Value()) && |live| <= max
    }

    constructor (max: nat)
      requires max > 0
      ensures this.max == max && Value() == INITIAL && Ready()
    {
      this.max := max;
      live, tunnels, closing, failures := [], [], {}, map[];
    }

    method CloseTunnel(id: Id)
      requires id < |tunnels|
      modifies this`tunnels
      ensures tunnels == old(tunnels)[id := old(tunnels)[id].(stopped := true)]
    {
      tunnels := tunnels[id := tunnels[id].(stopped := true)];
    }

    method OpenTunnel(request: Request, world: World, resolved: Resolved) returns (port: Option<nat>)
      modifies this`live, this`tunnels
      ensures (Value(), port) == OpenedFor(old(Value()), request, world, resolved)
    {
      match world.opening {
        case OpenFailed =>
          port := None;
        case NotReady(local) =>
          tunnels := tunnels + [NewTunnel(request, world, resolved, local, false)];
          CloseTunnel(|tunnels| - 1);
          assert tunnels == old(tunnels) + [NewTunnel(request, world, resolved, local, true)];
          port := None;
        case Opened(local) =>
          tunnels := tunnels + [NewTunnel(request, world, resolved, local, false)];
          live := live + [|tunnels| - 1];
          port := Some(local);
      }
    }

    method MakeRoom(request: Request)
      requires Ready()
      modifies this`live, this`tunnels
      ensures Value() == MadeRoom(old(Value()), max, request)
    {
      FindIsLive(live, tunnels, request.target);
      var found := Find(live, tunnels, request.target);
      WithoutWithin(live, if found.Some? then found.value else 0);
      if found.Some? {
        live := Without(live, found.value);
        CloseTunnel(found.value);
      }
      if |live| >= max {
        var oldest := Oldest(live, tunnels);
        live := Without(live, oldest);
        CloseTunnel(oldest);
      }
    }

    method Ensure(request: Request, world: World) returns (port: Option<nat>)
      requires Ready()
      modifies this`live, this`tunnels
      ensures (Value(), port) == Ensured(old(Value()), max, request, world)
      ensures Ready() && (port.Some? ==> Serves(old(Value()), Value(), request, world, port.value))
      ensures port.Some? && |tunnels| == |old(tunnels)| <==>
        exists id :: HasUsableTunnel(old(Value()), request, world, id)
    {
      EnsureServes(Value(), max, request, world);
      ReturnedWithoutOpeningExactlyWhen(Value(), max, request, world);
      FindIsLive(live, tunnels, request.target);
      var found := Find(live, tunnels, request.target);
      if found.Some? && ReusedAsSupplied(tunnels[found.value], request, world) {
        tunnels := tunnels[found.value := tunnels[found.value].(lastUsed := world.now, supplied := request.supplied)];
        return Some(tunnels[found.value].port);
      }
      if world.resolved.None? {
        return None;
      }
      if found.Some? && ReusedAsResolved(tunnels[found.value], request, world, world.resolved.value) {
        tunnels := tunnels[found.value := tunnels[found.value].(lastUsed := world.now, supplied := request.supplied)];
        return Some(tunnels[found.value].port);
      }
      MakeRoom(request);
      port := OpenTunnel(request, world, world.resolved.value);
    }

    method EnsureTunnel(request: Request, attempt: Attempt, world: World) returns (port: Option<nat>)
      requires Ready()
      modifies this
      ensures Ready()
      ensures (Value(), port) == Called(old(Value()), max, request, attempt, world)
      ensures port.Some? ==> Serves(old(Value()), Value(), request, world, port.value)
      ensures port.Some? && |tunnels| == |old(tunnels)| ==>
        exists id :: HasUsableTunnel(old(Value()), request, world, id)
    {
      if Refused(failures, request, attempt) {
        return None;
      }
      port := Ensure(request, world);
      if port.None? {
        failures := failures[request.target := FailedAttempt(request.supplied, request.destination, attempt)];
      } else {
        failures := failures - {request.target};
      }
    }

    method Close(target: Target)
      requires Ready()
      modifies this
      ensures Ready() && closing == old(closing) && failures == old(failures) - {target}
      ensures forall id :: id in live <==> id in old(live) && old(tunnels)[id].target != target
      ensures |tunnels| == |old(tunnels)| && forall id: nat :: id < |tunnels| ==>
        tunnels[id] == if id in old(live) && id !in live then old(tunnels)[id].(stopped := true) else old(tunnels)[id]
    {
      TakenOutGood(Value(), target);
      FindIsLive(live, tunnels, target);
      var found := Find(live, tunnels, target);
      if found.Some? {
        WithoutWithin(live, found.value);
        live, closing := Without(live, found.value), closing + {found.value};
        CloseTunnel(found.value);
        closing := closing - {found.value};
      }
      failures := failures - {target};
    }

    method CloseAll()
      requires Ready()
      modifies this
      ensures Ready() && closing == old(closing) && live == [] && failures == old(failures)
      ensures |tunnels| == |old(tunnels)|
      ensures forall id: nat :: id < |tunnels| ==> tunnels[id].stopped || id in old(closing)
      ensures OnlyStopped(old(tunnels), tunnels, old(live))
    {
      ghost var before := Value();
      var taken := live;
      live, closing := [], closing + Ids(taken);
      assert taken[0..] == taken;
      for i := 0 to |taken|
        invariant live == [] && failures == before.failures
        invariant closing == before.closing + Ids(taken[i..])
        invariant OnlyStopped(before.tunnels, tunnels, taken[..i])
      {
        NextId(before, i);
        StoppedNext(before.tunnels, tunnels, taken[..i], taken[i], taken[..i + 1]);
        CloseTunnel(taken[i]);
        closing := closing - {taken[i]};
      }
      assert taken[..|taken|] == taken;
      AllStopped(before, tunnels);
    }

    /** A forwarding failure counts only while the tunnel is the cached one; the tunnel stays cached, closed. */
    method ForwardingFailed(id: Id, attempt: Attempt)
      requires Ready() && id < |tunnels|
      modifies this
      ensures Ready()
      ensures Value() == if id in old(live) then Stopped(Recorded(old(Value()), id, attempt), id) else old(Value())
    {
      FindIsLive(live, tunnels, tunnels[id].target);
      var current := Find(live, tunnels, tunnels[id].target);
      if current == Some(id) {
        var t := tunnels[id];
        failures := failures[t.target := FailedAttempt(t.openedAs, t.destination, attempt)];
        CloseTunnel(id);
      }
    }
  }
}
