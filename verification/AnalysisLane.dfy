/** Stopping an analysis run while its workers register and unregister connections (cli/shared/analysis_lane.py, and
    cancel_registered in cli/shared/db_connection.py). What happens under the run's lock is one step. */
module AnalysisLane {

  type Connection = nat

  datatype Row = Row(conn: Connection, engine: string)

  /** `cancelled` are the connections `register` cancelled itself; `aborted` those the stop aborted, in order. */
  datatype State = State(stopped: bool, rows: seq<Row>, cancelled: set<Connection>, aborted: seq<Connection>)

  const INITIAL := State(false, [], {}, [])

  function Without(rows: seq<Row>, conn: Connection): seq<Row>
    decreases |rows|
  {
    if rows == [] then []
    else if rows[0].conn == conn then Without(rows[1..], conn)
    else [rows[0]] + Without(rows[1..], conn)
  }

  function Registered(s: State, row: Row): State {
    if s.stopped then s.(cancelled := s.cancelled + {row.conn}) else s.(rows := s.rows + [row])
  }

  /** The PostgreSQL connections among the pending rows from position i on whose cancel was not taken. */
  function Unanswered(pending: seq<Row>, taken: set<nat>, i: nat): seq<Connection>
    requires i <= |pending|
    decreases |pending| - i
  {
    if i == |pending| then []
    else if i !in taken && pending[i].engine == "postgresql" then [pending[i].conn] + Unanswered(pending, taken, i + 1)
    else Unanswered(pending, taken, i + 1)
  }

  function ConnectionsOf(rows: seq<Row>): set<Connection> {
    set row | row in rows :: row.conn
  }

  function StillListed(conns: seq<Connection>, listed: set<Connection>): seq<Connection>
    decreases |conns|
  {
    if conns == [] then []
    else if conns[0] in listed then [conns[0]] + StillListed(conns[1..], listed)
    else StillListed(conns[1..], listed)
  }

  function Aborted(s: State, pending: seq<Row>, taken: set<nat>): State {
    s.(aborted := s.aborted + StillListed(Unanswered(pending, taken, 0), ConnectionsOf(s.rows)))
  }

  class AnalysisRunObject {
    var stopped: bool
    var connections: seq<Row>
    var cancelled: set<Connection>
    var aborted: seq<Connection>

    ghost function Value(): State
      reads this
    {
      State(stopped, connections, cancelled, aborted)
    }

    constructor ()
      ensures Value() == INITIAL
    {
      stopped, connections, cancelled, aborted := false, [], {}, [];
    }

    method Register(conn: Connection, engine: string)
      modifies this
      ensures Value() == Registered(old(Value()), Row(conn, engine))
    {
      if stopped {
        cancelled := cancelled + {conn};
      } else {
        connections := connections + [Row(conn, engine)];
      }
    }

    method Unregister(conn: Connection)
      modifies this
      ensures Value() == old(Value()).(rows := Without(old(connections), conn))
    {
      var kept: seq<Row> := [];
      for i := 0 to |connections|
        invariant Value() == old(Value())
        invariant kept + Without(connections[i..], conn) == Without(connections, conn)
      {
        assert connections[i..][1..] == connections[i + 1..];
        if connections[i].conn != conn {
          kept := kept + [connections[i]];
        }
      }
      connections := kept;
    }

    /** The first part of `stop`: no lock is held. */
    method SetStopped()
      modifies this
      ensures Value() == old(Value()).(stopped := true)
    {
      stopped := true;
    }

    /** The last part of `cancel_registered`; `taken` are the pending cancels the server took in time, `late` those it
        took after that, before they are counted. */
    method AbortUnanswered(pending: seq<Row>, taken: set<nat>, late: set<nat>) returns (count: nat)
      modifies this
      ensures Value() == Aborted(old(Value()), pending, taken)
      ensures count == |TakenOf(pending, taken + late)|
    {
      var unanswered: seq<Connection> := [];
      for i := 0 to |pending|
        invariant Value() == old(Value())
        invariant unanswered + Unanswered(pending, taken, i) == Unanswered(pending, taken, 0)
      {
        if i !in taken && pending[i].engine == "postgresql" {
          unanswered := unanswered + [pending[i].conn];
        }
      }
      var listed := ConnectionsOf(connections);
      assert unanswered + [] == unanswered && unanswered[0..] == unanswered;
      for i := 0 to |unanswered|
        invariant stopped == old(stopped) && connections == old(connections) && cancelled == old(cancelled)
        invariant aborted + StillListed(unanswered[i..], listed) == old(aborted) + StillListed(unanswered, listed)
      {
        assert unanswered[i..][1..] == unanswered[i + 1..];
        if unanswered[i] in listed {
          aborted := aborted + [unanswered[i]];
        }
      }
      assert aborted + [] == aborted;
      count := |TakenOf(pending, taken + late)|;
    }
  }

  function TakenOf(pending: seq<Row>, taken: set<nat>): set<nat> {
    set i | i in taken && i < |pending|
  }

  // ---------- Every interleaving ----------

  /** Snapshot is the step in which a stop reads the connections to cancel; AbortUnanswered(s, taken) ends the stop
      whose snapshot was step s. Close is the owner's. */
  datatype Action =
    | Register(row: Row)
    | Unregister(conn: Connection)
    | SetStopped
    | Snapshot
    | AbortUnanswered(snapshot: nat, taken: set<nat>)
    | Close(conn: Connection)

  datatype Run = Run(steps: seq<Action>, states: seq<State>)

  predicate Shaped(run: Run) {
    |run.states| == |run.steps| + 1
  }

  ghost predicate Taken(run: Run, i: nat)
    requires Shaped(run) && i < |run.steps|
  {
    var before, after := run.states[i], run.states[i + 1];
    match run.steps[i]
    case Register(row) => after == Registered(before, row)
    case Unregister(conn) => after == before.(rows := Without(before.rows, conn))
    case SetStopped => after == before.(stopped := true)
    case Snapshot => before.stopped && after == before
    case AbortUnanswered(s, taken) =>
      s < i && run.steps[s].Snapshot? && after == Aborted(before, run.states[s].rows, taken)
    case Close(conn) => after == before
  }

  ghost predicate Valid(run: Run) {
    Shaped(run) && run.states[0] == INITIAL && forall i :: 0 <= i < |run.steps| ==> Taken(run, i)
  }

  predicate UnregisteredBetween(run: Run, conn: Connection, i: nat, n: nat)
    requires n <= |run.steps|
  {
    exists k :: i < k < n && run.steps[k] == Unregister(conn)
  }

  /** The row was listed at step i and has not been unregistered since. */
  ghost predicate ListedSince(run: Run, row: Row, i: nat, n: nat)
    requires Shaped(run) && n <= |run.steps|
  {
    i < n && run.steps[i] == Register(row) && !run.states[i].stopped && !UnregisteredBetween(run, row.conn, i, n)
  }

  ghost predicate IsListed(run: Run, row: Row, n: nat)
    requires Shaped(run) && n <= |run.steps|
  {
    exists i: nat :: ListedSince(run, row, i, n)
  }

  lemma {:induction false} WithoutMembers(rows: seq<Row>, conn: Connection, row: Row)
    ensures row in Without(rows, conn) <==> row in rows && row.conn != conn
    decreases |rows|
  {
    if rows != [] {
      WithoutMembers(rows[1..], conn, row);
      assert rows == [rows[0]] + rows[1..];
    }
  }

  lemma ListedNext(run: Run, row: Row, n: nat)
    requires Valid(run) && n < |run.steps|
    ensures IsListed(run, row, n + 1) <==>
      (run.steps[n] == Register(row) && !run.states[n].stopped) ||
      (IsListed(run, row, n) && run.steps[n] != Unregister(row.conn))
  {
    if IsListed(run, row, n + 1) {
      var i: nat :| ListedSince(run, row, i, n + 1);
      if i < n {
        assert ListedSince(run, row, i, n);
      }
    }
    if run.steps[n] == Register(row) && !run.states[n].stopped {
      assert ListedSince(run, row, n, n + 1);
    } else if IsListed(run, row, n) && run.steps[n] != Unregister(row.conn) {
      var i: nat :| ListedSince(run, row, i, n);
      assert ListedSince(run, row, i, n + 1);
    }
  }

  /** A row is in the run's list exactly when it was registered before the stop and not unregistered since. */
  lemma {:induction false} ListedExactlyWhen(run: Run, row: Row, n: nat)
    requires Valid(run) && n <= |run.steps|
    ensures row in run.states[n].rows <==> IsListed(run, row, n)
  {
    if n > 0 {
      ListedExactlyWhen(run, row, n - 1);
      ListedNext(run, row, n - 1);
      assert Taken(run, n - 1);
      if run.steps[n - 1].Unregister? {
        WithoutMembers(run.states[n - 1].rows, run.steps[n - 1].conn, row);
      }
    }
  }

  lemma {:induction false} StoppedForGood(run: Run, n: nat)
    requires Valid(run) && n <= |run.steps|
    ensures run.states[n].stopped <==> exists k :: 0 <= k < n && run.steps[k] == SetStopped
  {
    if n > 0 {
      StoppedForGood(run, n - 1);
      assert Taken(run, n - 1);
    }
  }

  /** `register` cancels a connection itself exactly when the run was stopped before it. */
  lemma CancelledByRegisterExactlyWhen(run: Run, i: nat)
    requires Valid(run) && i < |run.steps| && run.steps[i].Register?
    ensures run.states[i + 1].cancelled ==
      run.states[i].cancelled +
      if exists k :: 0 <= k < i && run.steps[k] == SetStopped then {run.steps[i].row.conn} else {}
  {
    assert Taken(run, i);
    StoppedForGood(run, i);
  }

  /** However register, unregister and stop interleave: a registered connection is cancelled by `register` itself, is
      among those the stop cancels, or was unregistered before the stop looked. */
  lemma NoConnectionEscapes(run: Run, i: nat, snapshot: nat)
    requires Valid(run) && i < |run.steps| && snapshot < |run.steps|
    requires run.steps[i].Register? && run.steps[snapshot] == Snapshot
    ensures run.steps[i].row.conn in run.states[i + 1].cancelled ||
            run.steps[i].row in run.states[snapshot].rows ||
            UnregisteredBetween(run, run.steps[i].row.conn, i, snapshot)
  {
    var row := run.steps[i].row;
    assert Taken(run, i) && Taken(run, snapshot);
    StoppedForGood(run, i);
    StoppedForGood(run, snapshot);
    if !run.states[i].stopped && !UnregisteredBetween(run, row.conn, i, snapshot) {
      assert ListedSince(run, row, i, snapshot);
      ListedExactlyWhen(run, row, snapshot);
    }
  }

  // ---------- Aborts ----------

  lemma {:induction false} UnansweredMembers(pending: seq<Row>, taken: set<nat>, i: nat, conn: Connection)
    requires i <= |pending|
    ensures conn in Unanswered(pending, taken, i) <==>
      exists k :: i <= k < |pending| && k !in taken && pending[k] == Row(conn, "postgresql")
    decreases |pending| - i
  {
    if i < |pending| {
      UnansweredMembers(pending, taken, i + 1, conn);
    }
  }

  lemma {:induction false} StillListedMembers(conns: seq<Connection>, listed: set<Connection>, conn: Connection)
    ensures conn in StillListed(conns, listed) <==> conn in conns && conn in listed
    decreases |conns|
  {
    if conns != [] {
      StillListedMembers(conns[1..], listed, conn);
      assert conns == [conns[0]] + conns[1..];
    }
  }

  /** The connections a step aborts. */
  function AbortedBy(run: Run, i: nat): seq<Connection>
    requires Shaped(run) && i < |run.steps|
  {
    match run.steps[i]
    case AbortUnanswered(s, taken) =>
      StillListed(Unanswered(PendingOf(run, s), taken, 0), ConnectionsOf(run.states[i].rows))
    case _ => []
  }

  /** The rows that the snapshot of step s selected. */
  function PendingOf(run: Run, s: nat): seq<Row>
    requires Shaped(run)
  {
    if s < |run.steps| then run.states[s].rows else []
  }

  ghost predicate AnyRowListed(run: Run, conn: Connection, n: nat)
    requires Shaped(run) && n <= |run.steps|
  {
    exists row: Row :: row.conn == conn && IsListed(run, row, n)
  }

  /** A stop aborts exactly the PostgreSQL connections of its snapshot whose cancel was not taken and which are still
      listed when it ends. */
  lemma AbortedExactlyWhen(run: Run, i: nat, conn: Connection)
    requires Valid(run) && i < |run.steps| && run.steps[i].AbortUnanswered?
    ensures var pending := PendingOf(run, run.steps[i].snapshot);
            conn in AbortedBy(run, i) <==>
            (exists k :: 0 <= k < |pending| && k !in run.steps[i].taken && pending[k] == Row(conn, "postgresql")) &&
            AnyRowListed(run, conn, i)
    ensures run.states[i + 1].aborted == run.states[i].aborted + AbortedBy(run, i)
  {
    assert Taken(run, i);
    var s, taken := run.steps[i].snapshot, run.steps[i].taken;
    var unanswered := Unanswered(run.states[s].rows, taken, 0);
    UnansweredMembers(run.states[s].rows, taken, 0, conn);
    StillListedMembers(unanswered, ConnectionsOf(run.states[i].rows), conn);
    ListedConnections(run, conn, i);
  }

  lemma ListedConnections(run: Run, conn: Connection, n: nat)
    requires Valid(run) && n <= |run.steps|
    ensures conn in ConnectionsOf(run.states[n].rows) <==> AnyRowListed(run, conn, n)
  {
    forall row: Row ensures row in run.states[n].rows <==> IsListed(run, row, n) {
      ListedExactlyWhen(run, row, n);
    }
  }

  /** Owners register open connections only, and unregister one before they close it. */
  ghost predicate Disciplined(run: Run)
    requires Shaped(run)
  {
    (forall i :: 0 <= i < |run.steps| && run.steps[i].Close? ==> !AnyRowListed(run, run.steps[i].conn, i)) &&
    forall i, k :: 0 <= k < i < |run.steps| && run.steps[i].Register? ==> run.steps[k] != Close(run.steps[i].row.conn)
  }

  /** No connection is aborted once its owner has closed it. */
  lemma ClosedIsNeverAborted(run: Run, i: nat, k: nat, conn: Connection)
    requires Valid(run) && Disciplined(run) && k < i < |run.steps| && run.steps[k] == Close(conn)
    ensures conn !in AbortedBy(run, i)
  {
    if run.steps[i].AbortUnanswered? && conn in AbortedBy(run, i) {
      AbortedExactlyWhen(run, i, conn);
      var row: Row :| row.conn == conn && IsListed(run, row, i);
      var j: nat :| ListedSince(run, row, j, i);
      assert j < k;
      assert ListedSince(run, row, j, k) && IsListed(run, row, k);
    }
  }
}
