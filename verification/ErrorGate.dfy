/** The gate that lets a few error events a minute through, each distinct error at most once an hour
    (cli/shared/product_telemetry.py, _ErrorGate). Times are seconds of a monotonic clock. */
module ErrorGate {
  import opened Wrappers
  import opened Text

  type Key = string

  datatype Limits = Limits(perMinute: int, dedupe: real)

  datatype Gate = Gate(sent: seq<real>, last: map<Key, real>, suppressed: map<Key, nat>)

  const EMPTY := Gate([], map[], map[])
  const TABLE_LIMIT := 500

  /** The admissions of the last minute. */
  function Recent(sent: seq<real>, now: real): seq<real>
    decreases |sent|
  {
    if sent != [] && now - sent[0] >= 60.0 then Recent(sent[1..], now) else sent
  }

  function Pending(gate: Gate, key: Key): nat {
    if key in gate.suppressed then gate.suppressed[key] else 0
  }

  predicate Blocked(gate: Gate, limits: Limits, key: Key, now: real) {
    (key in gate.last && now - gate.last[key] < limits.dedupe) || |Recent(gate.sent, now)| >= limits.perMinute
  }

  /** The gate after one call; None drops the event, Some(n) reports it with n suppressed repeats. */
  function Step(gate: Gate, limits: Limits, key: Key, now: real): (Gate, Option<nat>) {
    var sent := Recent(gate.sent, now);
    if Blocked(gate, limits, key, now) then
      (Gate(sent, gate.last, gate.suppressed[key := Pending(gate, key) + 1]), None)
    else
      var table := if |gate.last| > TABLE_LIMIT then EMPTY else gate;
      (Gate(sent + [now], table.last[key := now], table.suppressed - {key}), Some(Pending(table, key)))
  }

  class GateObject {
    const limits: Limits
    var sent: seq<real>
    var last: map<Key, real>
    var suppressed: map<Key, nat>

    ghost function Value(): Gate
      reads this
    {
      Gate(sent, last, suppressed)
    }

    constructor (perMinute: int, dedupe: real)
      ensures limits == Limits(perMinute, dedupe) && Value() == EMPTY
    {
      limits := Limits(perMinute, dedupe);
      sent, last, suppressed := [], map[], map[];
    }

    method Admit(key: Key, now: real) returns (repeats: Option<nat>)
      modifies this
      ensures (Value(), repeats) == Step(old(Value()), limits, key, now)
    {
      while sent != [] && now - sent[0] >= 60.0
        invariant last == old(last) && suppressed == old(suppressed)
        invariant Recent(sent, now) == Recent(old(sent), now)
        decreases |sent|
      {
        sent := sent[1..];
      }
      if (key in last && now - last[key] < limits.dedupe) || |sent| >= limits.perMinute {
        suppressed := suppressed[key := (if key in suppressed then suppressed[key] else 0) + 1];
        return None;
      }
      if |last| > TABLE_LIMIT {
        last, suppressed := map[], map[];
      }
      last := last[key := now];
      sent := sent + [now];
      repeats := Some(if key in suppressed then suppressed[key] else 0);
      suppressed := suppressed - {key};
    }
  }

  // ---------- Whole runs ----------

  datatype Call = Call(key: Key, now: real)

  /** A call reads the clock before it waits for the lock, so readings may be out of order, here by at most `d`. */
  predicate Skewed(calls: seq<Call>, d: real) {
    d >= 0.0 && forall i, j :: 0 <= i < j < |calls| ==> calls[i].now <= calls[j].now + d
  }

  /** A run of the gate from its construction: the calls, the gate before and after each, and the answers. */
  datatype Run = Run(limits: Limits, calls: seq<Call>, gates: seq<Gate>, answers: seq<Option<nat>>)

  predicate Shaped(run: Run) {
    |run.answers| == |run.calls| && |run.gates| == |run.calls| + 1
  }

  ghost predicate Taken(run: Run, i: nat)
    requires Shaped(run) && i < |run.calls|
  {
    (run.gates[i + 1], run.answers[i]) == Step(run.gates[i], run.limits, run.calls[i].key, run.calls[i].now)
  }

  ghost predicate Valid(run: Run) {
    Shaped(run) && run.gates[0] == EMPTY && forall i :: 0 <= i < |run.calls| ==> Taken(run, i)
  }

  /** The run with one more call. */
  function Extended(run: Run, c: Call): Run
    requires Shaped(run)
  {
    var (gate, answer) := Step(run.gates[|run.calls|], run.limits, c.key, c.now);
    Run(run.limits, run.calls + [c], run.gates + [gate], run.answers + [answer])
  }

  lemma ExtendedValid(run: Run, c: Call, after: Run)
    requires Valid(run) && after == Extended(run, c)
    ensures Valid(after)
  {
    forall i | 0 <= i < |after.calls| ensures Taken(after, i) {
      if i < |run.calls| {
        assert Taken(run, i);
      }
    }
  }

  /** Every sequence of calls has its run. */
  ghost function RunOf(limits: Limits, calls: seq<Call>): (run: Run)
    ensures Valid(run) && run.limits == limits && run.calls == calls
    decreases |calls|
  {
    if calls == [] then Run(limits, [], [EMPTY], [])
    else
      var before, last := RunOf(limits, calls[..|calls| - 1]), calls[|calls| - 1];
      assert before.calls + [last] == calls;
      ExtendedValid(before, last, Extended(before, last));
      Extended(before, last)
  }

  predicate Admitted(run: Run, i: nat)
    requires Shaped(run) && i < |run.calls|
  {
    run.answers[i].Some?
  }

  /** Call `i` empties the tables. */
  predicate Clears(run: Run, i: nat)
    requires Shaped(run) && i < |run.calls|
  {
    Admitted(run, i) && |run.gates[i].last| > TABLE_LIMIT
  }

  predicate NoClearBetween(run: Run, i: nat, j: nat)
    requires Shaped(run) && j <= |run.calls|
  {
    forall k :: i < k < j ==> !Clears(run, k)
  }

  // ---------- The sliding window ----------

  /** The times of the admissions among the first `n` calls. */
  function Admissions(run: Run, n: nat): seq<real>
    requires Shaped(run) && n <= |run.calls|
  {
    if n == 0 then []
    else if Admitted(run, n - 1) then Admissions(run, n - 1) + [run.calls[n - 1].now]
    else Admissions(run, n - 1)
  }

  /** How many of the times are later than `from` and not later than `to`. */
  function Within(times: seq<real>, from: real, to: real): (n: nat)
    ensures n <= |times|
    decreases |times|
  {
    if times == [] then 0
    else Within(times[..|times| - 1], from, to) + if from < times[|times| - 1] <= to then 1 else 0
  }

  predicate AllBy(times: seq<real>, t: real) {
    forall i :: 0 <= i < |times| ==> times[i] <= t
  }

  predicate AllIn(times: seq<real>, from: real, to: real) {
    forall i :: 0 <= i < |times| ==> from < times[i] <= to
  }

  lemma WithinExtend(times: seq<real>, x: real, from: real, to: real)
    ensures Within(times + [x], from, to) == Within(times, from, to) + if from < x <= to then 1 else 0
  {
    assert (times + [x])[..|times|] == times;
  }

  lemma {:induction false} WithinLater(times: seq<real>, from: real, to: real, low: real, high: real)
    requires low <= from && AllBy(times, high)
    ensures Within(times, from, to) <= Within(times, low, high)
    decreases |times|
  {
    if times != [] {
      WithinLater(times[..|times| - 1], from, to, low, high);
    }
  }

  lemma {:induction false} NoneWithin(times: seq<real>, from: real, to: real)
    requires AllBy(times, from)
    ensures Within(times, from, to) == 0
    decreases |times|
  {
    if times != [] {
      NoneWithin(times[..|times| - 1], from, to);
    }
  }

  /** Of times whose first part is too early, at most the rest counts; all of it if it is late enough. */
  lemma {:induction false} WithinRest(gone: seq<real>, rest: seq<real>, from: real, to: real)
    ensures AllBy(gone, from) ==> Within(gone + rest, from, to) <= |rest|
    ensures AllIn(rest, from, to) ==> Within(gone + rest, from, to) >= |rest|
    decreases |rest|
  {
    if rest == [] {
      assert gone + rest == gone;
      if AllBy(gone, from) {
        NoneWithin(gone, from, to);
      }
    } else {
      var earlier, x := rest[..|rest| - 1], rest[|rest| - 1];
      WithinRest(gone, earlier, from, to);
      assert gone + rest == (gone + earlier) + [x];
      WithinExtend(gone + earlier, x, from, to);
    }
  }

  lemma {:induction false} RecentIsSuffix(sent: seq<real>, now: real) returns (dropped: seq<real>)
    ensures sent == dropped + Recent(sent, now)
    ensures AllBy(dropped, now - 60.0)
    ensures Recent(sent, now) != [] ==> Recent(sent, now)[0] > now - 60.0
    decreases |sent|
  {
    if sent != [] && now - sent[0] >= 60.0 {
      var rest := RecentIsSuffix(sent[1..], now);
      dropped := [sent[0]] + rest;
      assert sent == [sent[0]] + sent[1..];
    } else {
      dropped := [];
    }
  }

  /** What the gate remembers of the admissions: all but some of the first, more than a minute before some call. */
  ghost predicate Remembers(sent: seq<real>, times: seq<real>, latest: real) {
    exists gone :: times == gone + sent && AllBy(gone, latest - 60.0)
  }

  lemma RemembersAfterPurge(sent: seq<real>, times: seq<real>, latest: real, now: real, later: real)
    requires Remembers(sent, times, latest) && latest <= later && now <= later
    ensures Remembers(Recent(sent, now), times, later)
  {
    var gone :| times == gone + sent && AllBy(gone, latest - 60.0);
    var dropped := RecentIsSuffix(sent, now);
    assert times == (gone + dropped) + Recent(sent, now);
  }

  lemma RemembersAdmission(sent: seq<real>, times: seq<real>, now: real, latest: real)
    requires Remembers(sent, times, latest)
    ensures Remembers(sent + [now], times + [now], latest)
  {
    var gone :| times == gone + sent && AllBy(gone, latest - 60.0);
    assert times + [now] == gone + (sent + [now]);
  }

  /** The latest reading of the first `n` calls and the next. */
  function Latest(calls: seq<Call>, n: nat): (latest: real)
    requires n < |calls|
    ensures forall i :: 0 <= i <= n ==> calls[i].now <= latest
    ensures exists i :: 0 <= i <= n && calls[i].now == latest
  {
    if n == 0 then calls[0].now
    else if calls[n].now > Latest(calls, n - 1) then calls[n].now
    else Latest(calls, n - 1)
  }

  lemma {:induction false} GateRemembers(run: Run, n: nat)
    requires Valid(run) && n < |run.calls|
    ensures Remembers(run.gates[n].sent, Admissions(run, n), Latest(run.calls, n))
    ensures AllBy(Admissions(run, n), Latest(run.calls, n))
  {
    var latest := Latest(run.calls, n);
    if n == 0 {
      assert [] == Admissions(run, 0) + EMPTY.sent;
      assert AllBy([], latest - 60.0);
    } else {
      GateRemembers(run, n - 1);
      var gate, times, now := run.gates[n - 1], Admissions(run, n - 1), run.calls[n - 1].now;
      assert Taken(run, n - 1);
      RemembersAfterPurge(gate.sent, times, Latest(run.calls, n - 1), now, latest);
      RemembersAdmission(Recent(gate.sent, now), times, now, latest);
    }
  }

  predicate SkewedTimes(times: seq<real>, d: real) {
    forall i, j :: 0 <= i < j < |times| ==> times[i] <= times[j] + d
  }

  lemma {:induction false} AdmissionsSkewed(run: Run, n: nat, d: real)
    requires Valid(run) && n <= |run.calls| && Skewed(run.calls, d)
    ensures SkewedTimes(Admissions(run, n), d)
    ensures n < |run.calls| ==> AllBy(Admissions(run, n), run.calls[n].now + d)
  {
    if n > 0 {
      AdmissionsSkewed(run, n - 1, d);
    }
    if n < |run.calls| {
      GateRemembers(run, n);
    }
  }

  ghost predicate CountsWithinSkew(recent: seq<real>, times: seq<real>, now: real, d: real) {
    Within(times, now - 60.0 + d, now + d) <= |recent| <= Within(times, now - 60.0 - d, now + d)
  }

  lemma RecentWithinSkew(recent: seq<real>, times: seq<real>, gone: seq<real>, now: real, d: real)
    requires d >= 0.0 && SkewedTimes(times, d) && times == gone + recent
    requires AllBy(gone, now - 60.0 + d) && AllBy(times, now + d)
    requires recent != [] ==> recent[0] > now - 60.0
    ensures CountsWithinSkew(recent, times, now, d)
  {
    WithinRest(gone, recent, now - 60.0 + d, now + d);
    forall i | 0 <= i < |recent| ensures now - 60.0 - d < recent[i] <= now + d {
      assert recent[i] == times[|gone| + i] && recent[0] == times[|gone|];
    }
    WithinRest(gone, recent, now - 60.0 - d, now + d);
  }

  /** The admissions the gate counts at a call: at least those of the minute before it shortened by the skew, at most
      those of the minute lengthened by it. */
  lemma RoomWithinSkew(run: Run, n: nat, d: real)
    requires Valid(run) && n < |run.calls| && Skewed(run.calls, d)
    ensures CountsWithinSkew(Recent(run.gates[n].sent, run.calls[n].now), Admissions(run, n), run.calls[n].now, d)
    ensures AllBy(Admissions(run, n), run.calls[n].now + d)
  {
    var now, times, latest := run.calls[n].now, Admissions(run, n), Latest(run.calls, n);
    GateRemembers(run, n);
    AdmissionsSkewed(run, n, d);
    assert latest <= now + d;
    RemembersAfterPurge(run.gates[n].sent, times, latest, now, latest);
    var recent := Recent(run.gates[n].sent, now);
    var dropped := RecentIsSuffix(run.gates[n].sent, now);
    var gone :| times == gone + recent && AllBy(gone, latest - 60.0);
    RecentWithinSkew(recent, times, gone, now, d);
  }

  /** However the calls fall, no minute, wherever it ends, holds more admissions than the limit, once it is shortened
      by as much as the readings are out of order. */
  lemma {:induction false} NoMinuteOverLimit(run: Run, n: nat, t: real, d: real)
    requires Valid(run) && n <= |run.calls| && Skewed(run.calls, d)
    ensures Within(Admissions(run, n), t - 60.0 + d, t) <= if run.limits.perMinute > 0 then run.limits.perMinute else 0
  {
    if n > 0 {
      var times, now := Admissions(run, n - 1), run.calls[n - 1].now;
      NoMinuteOverLimit(run, n - 1, t, d);
      if Admitted(run, n - 1) {
        assert Taken(run, n - 1);
        RoomWithinSkew(run, n - 1, d);
        WithinExtend(times, now, t - 60.0 + d, t);
        if now <= t {
          WithinLater(times, t - 60.0 + d, t, now - 60.0 + d, now + d);
        }
      }
    }
  }

  lemma FullMinute()
    ensures Within([100.0, 100.05, 160.06, 159.9], 159.9 - 60.0, 159.9) == 3
  {
    var low, high := 159.9 - 60.0, 159.9;
    assert [] + [100.0] == [100.0] && [100.0] + [100.05] == [100.0, 100.05];
    assert [100.0, 100.05] + [160.06] == [100.0, 100.05, 160.06];
    assert [100.0, 100.05, 160.06] + [159.9] == [100.0, 100.05, 160.06, 159.9];
    WithinExtend([], 100.0, low, high);
    WithinExtend([100.0], 100.05, low, high);
    WithinExtend([100.0, 100.05], 160.06, low, high);
    WithinExtend([100.0, 100.05, 160.06], 159.9, low, high);
  }

  /** A new kind of error is let through while there is room. */
  lemma NewKindAdmitted(gate: Gate, limits: Limits, key: Key, now: real, recent: seq<real>)
    requires recent == Recent(gate.sent, now) && |recent| < limits.perMinute
    requires key !in gate.last && |gate.last| <= TABLE_LIMIT
    ensures Step(gate, limits, key, now).0.sent == recent + [now] && Step(gate, limits, key, now).1.Some?
    ensures Step(gate, limits, key, now).0.last == gate.last[key := now]
    ensures Step(gate, limits, key, now).0.suppressed == gate.suppressed - {key}
  {
  }

  /** Four errors of different kinds, of which the last read the clock before the third. */
  ghost predicate UnorderedFour(run: Run) {
    Valid(run) && run.limits == Limits(2, 3600.0) && |run.calls| == 4 &&
    run.calls[0].now == 100.0 && run.calls[1].now == 100.05 &&
    run.calls[2].now == 160.06 && run.calls[3].now == 159.9 &&
    forall i, j :: 0 <= i < j < 4 ==> run.calls[i].key != run.calls[j].key
  }

  /** With two a minute allowed all four are let through, three of them within one minute. */
  lemma UnorderedReadingsOverLimit(run: Run)
    requires UnorderedFour(run)
    ensures Within(Admissions(run, 4), 159.9 - 60.0, 159.9) == 3 > run.limits.perMinute
  {
    FirstTwoAdmitted(run);
    NextTwoAdmitted(run);
    FullMinute();
  }

  lemma FirstTwoAdmitted(run: Run)
    requires UnorderedFour(run)
    ensures run.gates[2].sent == [100.0, 100.05] == Admissions(run, 2)
    ensures run.gates[2].last.Keys == {run.calls[0].key, run.calls[1].key}
  {
    assert Taken(run, 0) && Taken(run, 1);
    NewKindAdmitted(run.gates[0], run.limits, run.calls[0].key, 100.0, []);
    assert Admissions(run, 1) == [100.0];
    NewKindAdmitted(run.gates[1], run.limits, run.calls[1].key, 100.05, [100.0]);
  }

  lemma NextTwoAdmitted(run: Run)
    requires UnorderedFour(run) && run.gates[2].sent == [100.0, 100.05] == Admissions(run, 2)
    requires run.gates[2].last.Keys == {run.calls[0].key, run.calls[1].key}
    ensures Admissions(run, 4) == [100.0, 100.05, 160.06, 159.9]
  {
    assert Taken(run, 2) && Taken(run, 3);
    OldOnesDropped();
    var last, key := run.gates[2].last, run.calls[2].key;
    assert |last| == |last.Keys|;
    NewKindAdmitted(run.gates[2], run.limits, key, 160.06, []);
    assert last[key := 160.06].Keys == last.Keys + {key};
    assert |last[key := 160.06]| == |last[key := 160.06].Keys|;
    assert run.gates[3].sent == [160.06] && Admissions(run, 3) == [100.0, 100.05, 160.06];
    NewKindAdmitted(run.gates[3], run.limits, run.calls[3].key, 159.9, [160.06]);
  }

  lemma OldOnesDropped()
    ensures Recent([100.0, 100.05], 160.06) == []
  {
    assert [100.0, 100.05][1..] == [100.05] && [100.05][1..] == [];
    assert Recent([100.05], 160.06) == Recent([], 160.06);
  }

  // ---------- Each error once in a while ----------

  /** Call `i` admitted this key and the tables have not been emptied since. */
  ghost predicate Standing(run: Run, i: nat, key: Key, n: nat)
    requires Shaped(run) && n <= |run.calls|
  {
    i < n && run.calls[i].key == key && Admitted(run, i) && NoClearBetween(run, i, n)
  }

  /** The last such call. */
  ghost predicate LastStanding(run: Run, i: nat, key: Key, n: nat)
    requires Shaped(run) && n <= |run.calls|
  {
    Standing(run, i, key, n) && forall j: nat :: i < j && j < n ==> !Standing(run, j, key, n)
  }

  ghost predicate LastIsLatest(run: Run, key: Key, n: nat)
    requires Shaped(run) && n <= |run.calls|
  {
    var last := run.gates[n].last;
    (forall i: nat :: Standing(run, i, key, n) ==> key in last) &&
    (key in last ==> exists i: nat :: LastStanding(run, i, key, n) && run.calls[i].now == last[key])
  }

  lemma StandingNext(run: Run, i: nat, key: Key, n: nat)
    requires Valid(run) && n < |run.calls| && i < n
    ensures Standing(run, i, key, n + 1) <==> Standing(run, i, key, n) && !Clears(run, n)
  {
  }

  lemma {:induction false} TableHoldsLatest(run: Run, key: Key, n: nat)
    requires Valid(run) && n <= |run.calls|
    ensures LastIsLatest(run, key, n)
  {
    if n > 0 {
      TableHoldsLatest(run, key, n - 1);
      LatestStep(run, key, n - 1, n);
    }
  }

  lemma LatestStep(run: Run, key: Key, n: nat, m: nat)
    requires Valid(run) && n < |run.calls| && LastIsLatest(run, key, n) && m == n + 1
    ensures LastIsLatest(run, key, m)
  {
    var before, after := run.gates[n].last, run.gates[m].last;
    assert Taken(run, n);
    forall i: nat | Standing(run, i, key, m) ensures key in after {
      if i < n {
        StandingNext(run, i, key, n);
      }
    }
    if key in after {
      if Admitted(run, n) && run.calls[n].key == key {
        assert LastStanding(run, n, key, m);
      } else {
        var i: nat :| LastStanding(run, i, key, n) && run.calls[i].now == before[key];
        StandingNext(run, i, key, n);
        forall j: nat | i < j < m ensures !Standing(run, j, key, m) {
          if j < n {
            StandingNext(run, j, key, n);
          }
        }
        assert LastStanding(run, i, key, m);
      }
    }
  }

  /** Since the tables were last emptied the key was not let through, or last at least `dedupe` seconds ago. */
  ghost predicate NotRepeated(run: Run, n: nat)
    requires Shaped(run) && n < |run.calls|
  {
    forall i: nat :: LastStanding(run, i, run.calls[n].key, n) ==>
      run.calls[n].now - run.calls[i].now >= run.limits.dedupe
  }

  /** Whatever the order of the readings: a call let through repeats no recent one and finds fewer admissions than the
      limit in the minute it ends, shortened by the skew; and finding fewer in that minute lengthened by the skew is
      enough. */
  lemma AdmittedWithinSkew(run: Run, n: nat, d: real, late: real, early: real, end: real)
    requires Valid(run) && n < |run.calls| && Skewed(run.calls, d)
    requires late == run.calls[n].now - 60.0 + d && early == run.calls[n].now - 60.0 - d && end == run.calls[n].now + d
    ensures Admitted(run, n) ==>
      NotRepeated(run, n) && Within(Admissions(run, n), late, end) < run.limits.perMinute
    ensures NotRepeated(run, n) && Within(Admissions(run, n), early, end) < run.limits.perMinute ==>
      Admitted(run, n)
  {
    assert Taken(run, n);
    RoomWithinSkew(run, n, d);
    NotRepeatedByTable(run, n);
  }

  lemma NotRepeatedByTable(run: Run, n: nat)
    requires Valid(run) && n < |run.calls|
    ensures NotRepeated(run, n) <==>
      (run.calls[n].key in run.gates[n].last ==>
         run.calls[n].now - run.gates[n].last[run.calls[n].key] >= run.limits.dedupe)
  {
    TableHoldsLatest(run, run.calls[n].key, n);
    LastIsUnique(run, run.calls[n].key, n);
  }

  lemma LastIsUnique(run: Run, key: Key, n: nat)
    requires Valid(run) && n <= |run.calls| && LastIsLatest(run, key, n)
    ensures forall i: nat :: LastStanding(run, i, key, n) ==>
      key in run.gates[n].last && run.calls[i].now == run.gates[n].last[key]
  {
    forall i: nat | LastStanding(run, i, key, n)
      ensures key in run.gates[n].last && run.calls[i].now == run.gates[n].last[key]
    {
      assert Standing(run, i, key, n);
      var j: nat :| LastStanding(run, j, key, n) && run.calls[j].now == run.gates[n].last[key];
      assert Standing(run, j, key, n) && i == j;
    }
  }

  ghost predicate NoneRecent(run: Run, n: nat)
    requires Shaped(run) && n < |run.calls|
  {
    forall i: nat :: Standing(run, i, run.calls[n].key, n) ==>
      run.calls[n].now - run.calls[i].now >= run.limits.dedupe
  }

  /** With readings in order, a call is let through exactly when fewer than the limit were let through in the minute it
      ends, and its key was not let through within `dedupe` seconds since the tables were last emptied. */
  lemma AdmittedExactlyWhen(run: Run, n: nat)
    requires Valid(run) && n < |run.calls| && Skewed(run.calls, 0.0)
    ensures Admitted(run, n) <==>
      Within(Admissions(run, n), run.calls[n].now - 60.0, run.calls[n].now) < run.limits.perMinute &&
      NoneRecent(run, n)
  {
    var now, times := run.calls[n].now, Admissions(run, n);
    AdmittedWithinSkew(run, n, 0.0, now - 60.0, now - 60.0, now);
    NotRepeatedInOrder(run, n);
  }

  lemma NotRepeatedInOrder(run: Run, n: nat)
    requires Valid(run) && n < |run.calls| && Skewed(run.calls, 0.0)
    ensures NotRepeated(run, n) <==> NoneRecent(run, n)
  {
    var key := run.calls[n].key;
    TableHoldsLatest(run, key, n);
    if NotRepeated(run, n) {
      forall i: nat | Standing(run, i, key, n) ensures run.calls[n].now - run.calls[i].now >= run.limits.dedupe {
        var j: nat :| LastStanding(run, j, key, n) && run.calls[j].now == run.gates[n].last[key];
        assert i <= j;
      }
    }
  }

  // ---------- Nothing goes uncounted ----------

  /** How often the key was offered by the calls from `i` up to `n`. */
  function Offered(run: Run, key: Key, i: nat, n: nat): nat
    requires Shaped(run) && n <= |run.calls|
  {
    if n <= i then 0 else Offered(run, key, i, n - 1) + if run.calls[n - 1].key == key then 1 else 0
  }

  function TimesAdmitted(run: Run, key: Key, n: nat): nat
    requires Shaped(run) && n <= |run.calls|
  {
    if n == 0 then 0
    else TimesAdmitted(run, key, n - 1) + (if run.calls[n - 1].key == key && Admitted(run, n - 1) then 1 else 0)
  }

  function Reported(run: Run, key: Key, n: nat): nat
    requires Shaped(run) && n <= |run.calls|
  {
    if n == 0 then 0
    else if run.calls[n - 1].key == key && Admitted(run, n - 1) then
      Reported(run, key, n - 1) + run.answers[n - 1].value
    else Reported(run, key, n - 1)
  }

  /** Suppressed repeats that emptying the tables forgot. */
  function Forgotten(run: Run, key: Key, n: nat): nat
    requires Shaped(run) && n <= |run.calls|
  {
    if n == 0 then 0
    else Forgotten(run, key, n - 1) + (if Clears(run, n - 1) then Pending(run.gates[n - 1], key) else 0)
  }

  /** Every call is let through, reported with a later one, still pending, or forgotten when the tables were emptied. */
  lemma {:induction false} EveryCallAccountedFor(run: Run, key: Key, n: nat)
    requires Valid(run) && n <= |run.calls|
    ensures Offered(run, key, 0, n) ==
      TimesAdmitted(run, key, n) + Reported(run, key, n) +
      Pending(run.gates[n], key) + Forgotten(run, key, n)
  {
    if n > 0 {
      EveryCallAccountedFor(run, key, n - 1);
      assert Taken(run, n - 1);
    }
  }

  lemma {:induction false} PendingSince(run: Run, i: nat, n: nat)
    requires Valid(run) && i < n <= |run.calls| && Admitted(run, i) && NoClearBetween(run, i, n)
    requires forall k :: i < k < n && run.calls[k].key == run.calls[i].key ==> !Admitted(run, k)
    ensures Pending(run.gates[n], run.calls[i].key) == Offered(run, run.calls[i].key, i + 1, n)
  {
    assert Taken(run, n - 1);
    if n > i + 1 {
      PendingSince(run, i, n - 1);
      assert !Clears(run, n - 1);
    }
  }

  /** Two admissions of a key in a row: the second reports exactly the repeats between them, and none when it is the
      one that empties the tables. */
  lemma RepeatsReported(run: Run, i: nat, j: nat)
    requires Valid(run) && i < j < |run.calls| && run.calls[j].key == run.calls[i].key
    requires Admitted(run, i) && Admitted(run, j) && NoClearBetween(run, i, j)
    requires forall k :: i < k < j && run.calls[k].key == run.calls[i].key ==> !Admitted(run, k)
    ensures run.answers[j] ==
      Some(if Clears(run, j) then 0 else Offered(run, run.calls[i].key, i + 1, j))
  {
    PendingSince(run, i, j);
    assert Taken(run, j);
  }

  /** The table of admitted keys is bounded. */
  lemma {:induction false} TableBounded(run: Run, n: nat)
    requires Valid(run) && n <= |run.calls|
    ensures |run.gates[n].last| <= TABLE_LIMIT + 1
  {
    if n > 0 {
      TableBounded(run, n - 1);
      assert Taken(run, n - 1);
      var before, after := run.gates[n - 1].last, run.gates[n].last;
      if Admitted(run, n - 1) && |before| <= TABLE_LIMIT {
        assert after.Keys == before.Keys + {run.calls[n - 1].key};
        assert |after| == |after.Keys| && |before| == |before.Keys|;
      }
    }
  }

  ghost function Labels(low: nat, high: nat): set<Key> {
    set i | low <= i < high :: Decimal(i)
  }

  lemma {:induction false} LabelsCount(low: nat, high: nat)
    requires low <= high
    ensures |Labels(low, high)| == high - low && Decimal(high) !in Labels(low, high)
    ensures Labels(low, high + 1) == Labels(low, high) + {Decimal(high)}
    decreases high
  {
    forall i: nat | Decimal(i) == Decimal(high) ensures i == high {
      DecimalInjective(i, high);
    }
    if low < high {
      LabelsCount(low, high - 1);
    }
  }

  /** One error each of the kinds 0, 1, ... at the same moment. */
  predicate IsBurst(calls: seq<Call>) {
    forall i :: 0 <= i < |calls| ==> calls[i] == Call(Decimal(i), 0.0)
  }

  /** After `n` errors of a burst the first `admitted` ones are in one table, the others in the other. */
  ghost predicate AfterBurst(gate: Gate, admitted: nat, n: nat)
    requires admitted <= n
  {
    |gate.sent| == admitted && (forall i :: 0 <= i < |gate.sent| ==> gate.sent[i] == 0.0) &&
    gate.last.Keys == Labels(0, admitted) && gate.suppressed.Keys == Labels(admitted, n)
  }

  lemma {:induction false} BurstTables(run: Run, n: nat)
    requires Valid(run) && IsBurst(run.calls) && 0 < run.limits.perMinute <= TABLE_LIMIT && n <= |run.calls|
    ensures AfterBurst(run.gates[n], if n < run.limits.perMinute then n else run.limits.perMinute, n)
  {
    if n == 0 {
      assert Labels(0, 0) == {};
    } else {
      BurstTables(run, n - 1);
      assert Taken(run, n - 1);
      BurstStep(run, n - 1);
    }
  }

  lemma BurstStep(run: Run, n: nat)
    requires Valid(run) && IsBurst(run.calls) && 0 < run.limits.perMinute <= TABLE_LIMIT && n < |run.calls|
    requires Taken(run, n)
    requires AfterBurst(run.gates[n], if n < run.limits.perMinute then n else run.limits.perMinute, n)
    ensures AfterBurst(run.gates[n + 1], if n + 1 < run.limits.perMinute then n + 1 else run.limits.perMinute, n + 1)
  {
    if n < run.limits.perMinute {
      BurstAdmitted(run.gates[n], run.limits, n);
    } else {
      BurstDropped(run.gates[n], run.limits, n);
    }
  }

  lemma BurstAdmitted(gate: Gate, limits: Limits, n: nat)
    requires AfterBurst(gate, n, n) && n < limits.perMinute <= TABLE_LIMIT
    ensures AfterBurst(Step(gate, limits, Decimal(n), 0.0).0, n + 1, n + 1)
  {
    AllRecent(gate.sent);
    LabelsCount(0, n);
    assert |gate.last| == |gate.last.Keys|;
    NewKindAdmitted(gate, limits, Decimal(n), 0.0, gate.sent);
    assert Labels(n, n) == {} && Labels(n + 1, n + 1) == {};
  }

  lemma BurstDropped(gate: Gate, limits: Limits, n: nat)
    requires 0 < limits.perMinute <= n && AfterBurst(gate, limits.perMinute, n)
    ensures AfterBurst(Step(gate, limits, Decimal(n), 0.0).0, limits.perMinute, n + 1)
  {
    AllRecent(gate.sent);
    LabelsCount(limits.perMinute, n);
    assert Step(gate, limits, Decimal(n), 0.0).0.suppressed.Keys == gate.suppressed.Keys + {Decimal(n)};
  }

  lemma AllRecent(sent: seq<real>)
    requires forall i :: 0 <= i < |sent| ==> sent[i] == 0.0
    ensures Recent(sent, 0.0) == sent
  {
  }

  /** More kinds of errors in one minute than may be let through: every further one stays in the table of suppressed
      ones, which so has no bound. */
  lemma SuppressedUnbounded(run: Run)
    requires Valid(run) && IsBurst(run.calls) && 0 < run.limits.perMinute <= TABLE_LIMIT
    requires |run.calls| >= run.limits.perMinute
    ensures |run.gates[|run.calls|].suppressed| == |run.calls| - run.limits.perMinute
    ensures |run.gates[|run.calls|].last| == run.limits.perMinute
  {
    var gate := run.gates[|run.calls|];
    BurstTables(run, |run.calls|);
    LabelsCount(0, run.limits.perMinute);
    LabelsCount(run.limits.perMinute, |run.calls|);
    assert |gate.last| == |gate.last.Keys| && |gate.suppressed| == |gate.suppressed.Keys|;
  }
}
