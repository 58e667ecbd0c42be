/** Writes that may be retried, half-acknowledged and replayed, into tables with unique keys. */
module TimescaleSink {
  import opened Options

  datatype Row =
    | MetricRow(time: string, serviceId: string, metricName: string, value: real)
    | AnomalyRow(id: string, detectedAt: string, serviceId: string, anomalyType: string, severity: int,
                 modelUsed: string)

  /** The primary key of anomaly_events, and the unique index of metrics. */
  datatype Key = MetricKey(time: string, serviceId: string, metricName: string) | AnomalyKey(id: string)

  function KeyOf(r: Row): Key {
    match r
    case MetricRow(t, s, m, _) => MetricKey(t, s, m)
    case AnomalyRow(id, _, _, _, _, _) => AnomalyKey(id)
  }

  /** Both tables, by key. */
  type Tables = map<Key, Row>

  /** INSERT ... ON CONFLICT DO NOTHING, row by row. */
  function InsertAll(db: Tables, rows: seq<Row>): Tables {
    if rows == [] then db
    else
      var before := InsertAll(db, rows[..|rows| - 1]);
      var r := rows[|rows| - 1];
      if KeyOf(r) in before then before else before[KeyOf(r) := r]
  }

  lemma {:induction false} InsertAllKeeps(db: Tables, rows: seq<Row>)
    ensures forall k :: k in db ==> k in InsertAll(db, rows) && InsertAll(db, rows)[k] == db[k]
    ensures forall r :: r in rows ==> KeyOf(r) in InsertAll(db, rows)
    ensures forall k :: k in InsertAll(db, rows) && k !in db ==>
        InsertAll(db, rows)[k] in rows && KeyOf(InsertAll(db, rows)[k]) == k
  {
    if rows != [] {
      var n := |rows| - 1;
      InsertAllKeeps(db, rows[..n]);
      assert rows == rows[..n] + [rows[n]];
    }
  }

  lemma {:induction false} InsertKnown(db: Tables, rows: seq<Row>)
    requires forall r :: r in rows ==> KeyOf(r) in db
    ensures InsertAll(db, rows) == db
  {
    if rows != [] {
      var n := |rows| - 1;
      assert rows == rows[..n] + [rows[n]];
      InsertKnown(db, rows[..n]);
    }
  }

  /** Inserting the same rows again is a no-op. */
  lemma InsertTwice(db: Tables, rows: seq<Row>)
    ensures InsertAll(InsertAll(db, rows), rows) == InsertAll(db, rows)
  {
    InsertAllKeeps(db, rows);
    InsertKnown(InsertAll(db, rows), rows);
  }

  // ---- The sink ----

  /** One tumbling window's aggregate, as far as it becomes rows. */
  datatype Aggregate = Aggregate(
    timestamp: string, serviceId: string, cpuMean: Option<real>, latencyP99: Option<real>,
    errorRateMean: Option<real>, requestRateMean: Option<real>)

  function MetricRow'(a: Aggregate, name: string, value: Option<real>): seq<Row> {
    if value.Some? then [MetricRow(a.timestamp, a.serviceId, name, value.value)] else []
  }

  function MetricRows(a: Aggregate): seq<Row> {
    MetricRow'(a, "cpu_percent", a.cpuMean) + MetricRow'(a, "latency_p99", a.latencyP99)
    + MetricRow'(a, "error_rate", a.errorRateMean) + MetricRow'(a, "request_rate", a.requestRateMean)
  }

  /** The rows are one for each mean the window has, each under its own metric's name. */
  lemma MetricRowsAre(a: Aggregate, r: Row)
    ensures r in MetricRows(a) <==>
            || (a.cpuMean.Some? && r == MetricRow(a.timestamp, a.serviceId, "cpu_percent", a.cpuMean.value))
            || (a.latencyP99.Some? && r == MetricRow(a.timestamp, a.serviceId, "latency_p99", a.latencyP99.value))
            || (a.errorRateMean.Some? && r == MetricRow(a.timestamp, a.serviceId, "error_rate", a.errorRateMean.value))
            || (a.requestRateMean.Some?
                && r == MetricRow(a.timestamp, a.serviceId, "request_rate", a.requestRateMean.value))
  {
  }

  lemma OneRowAName(a: Aggregate, r: Row, s: Row)
    requires r in MetricRows(a) && s in MetricRows(a) && KeyOf(r) == KeyOf(s)
    ensures r == s
  {
    assert "cpu_percent"[0] != "latency_p99"[0] && "error_rate"[0] != "cpu_percent"[0] &&
        "request_rate"[0] != "cpu_percent"[0];
    assert "error_rate"[0] != "latency_p99"[0] && "request_rate"[0] != "latency_p99"[0] &&
        "request_rate"[0] != "error_rate"[0];
  }

  /** A mean is stored under its metric's name, unless a row was there before. */
  ghost predicate Stored(before: Tables, after: Tables, a: Aggregate, name: string, mean: Option<real>) {
    mean.Some? ==>
      var key := MetricKey(a.timestamp, a.serviceId, name);
      && key in after
      && after[key] == if key in before then before[key] else MetricRow(a.timestamp, a.serviceId, name, mean.value)
  }

  ghost predicate AllStored(before: Tables, after: Tables, a: Aggregate) {
    && Stored(before, after, a, "cpu_percent", a.cpuMean)
    && Stored(before, after, a, "latency_p99", a.latencyP99)
    && Stored(before, after, a, "error_rate", a.errorRateMean)
    && Stored(before, after, a, "request_rate", a.requestRateMean)
  }

  lemma RowIsStored(db: Tables, a: Aggregate, name: string, mean: Option<real>)
    requires mean.Some? ==> MetricRow(a.timestamp, a.serviceId, name, mean.value) in MetricRows(a)
    ensures Stored(db, InsertAll(db, MetricRows(a)), a, name, mean)
  {
    InsertAllKeeps(db, MetricRows(a));
    if mean.Some? {
      var r, key := MetricRow(a.timestamp, a.serviceId, name, mean.value), MetricKey(a.timestamp, a.serviceId, name);
      assert KeyOf(r) == key;
      if key !in db {
        OneRowAName(a, r, InsertAll(db, MetricRows(a))[key]);
      }
    }
  }

  lemma RowsAreStored(db: Tables, a: Aggregate)
    ensures AllStored(db, InsertAll(db, MetricRows(a)), a)
  {
    forall r { MetricRowsAre(a, r); }
    RowIsStored(db, a, "cpu_percent", a.cpuMean);
    RowIsStored(db, a, "latency_p99", a.latencyP99);
    RowIsStored(db, a, "error_rate", a.errorRateMean);
    RowIsStored(db, a, "request_rate", a.requestRateMean);
  }

  /** How one attempt goes: no connection; the insert raises; the commit raises, having taken effect
      on the server or not; or all is well. */
  datatype Attempt = NoConnection | InsertRaises | CommitRaises(applied: bool) | Succeeds

  const ATTEMPTS: nat := 3

  /** The commit reached the tables. */
  predicate Reached(o: Attempt) {
    o == Succeeds || o == CommitRaises(true)
  }

  /** Both tables as the server has them: rows under a unique key, and rows inserted into metrics while
      its unique index is missing, where nothing ever conflicts. */
  datatype Server = Server(keyed: Tables, loose: multiset<Row>)

  datatype Insert = Insert(rows: seq<Row>, unique: bool)

  function Apply(db: Server, op: Insert): Server {
    if op.unique then db.(keyed := InsertAll(db.keyed, op.rows)) else db.(loose := db.loose + multiset(op.rows))
  }

  function Repeated(db: Server, op: Insert, n: nat): Server {
    if n == 0 then db else Apply(Repeated(db, op, n - 1), op)
  }

  lemma {:induction false} UniqueOnce(db: Server, op: Insert, n: nat)
    requires op.unique && n > 0
    ensures Repeated(db, op, n) == Apply(db, op)
  {
    if n > 1 {
      UniqueOnce(db, op, n - 1);
      InsertTwice(db.keyed, op.rows);
    }
  }

  lemma {:induction false} LooseEachTime(db: Server, op: Insert, n: nat, r: Row)
    requires !op.unique
    ensures Repeated(db, op, n).keyed == db.keyed
    ensures Repeated(db, op, n).loose[r] == db.loose[r] + n * multiset(op.rows)[r]
  {
    if n > 0 {
      LooseEachTime(db, op, n - 1, r);
      OneMoreTime(n, multiset(op.rows)[r]);
    }
  }

  lemma OneMoreTime(n: nat, k: nat)
    requires n > 0
    ensures n * k == (n - 1) * k + k
  {
  }

  /** Exactly when inserting n times is inserting once: with a unique key any number of times from one
      on will do, and none if every row is there already; without, only once. */
  lemma InsertedOnceIff(db: Server, op: Insert, n: nat)
    ensures Repeated(db, op, n) == Apply(db, op) <==>
            n == 1 || op.rows == [] || (op.unique && (n > 0 || forall r :: r in op.rows ==> KeyOf(r) in db.keyed))
  {
    assert Repeated(db, op, 1) == Apply(Repeated(db, op, 0), op);
    if op.unique {
      InsertAllKeeps(db.keyed, op.rows);
      if n > 0 { UniqueOnce(db, op, n); }
      if forall r :: r in op.rows ==> KeyOf(r) in db.keyed { InsertKnown(db.keyed, op.rows); }
    } else if op.rows == [] {
      forall r ensures Repeated(db, op, n).loose[r] == db.loose[r] { LooseEachTime(db, op, n, r); }
      LooseEachTime(db, op, n, AnomalyRow("", "", "", "", 0, ""));
    } else {
      var r := op.rows[0];
      assert multiset(op.rows)[r] > 0;
      LooseEachTime(db, op, n, r);
      Times(n, multiset(op.rows)[r]);
    }
  }

  lemma Times(n: nat, k: nat)
    requires k > 0
    ensures n * k == k <==> n == 1
  {
    if n > 1 { assert n * k == k + (n - 1) * k; }
  }

  ghost predicate SomeSucceeds(outcomes: seq<Attempt>) {
    exists k :: 0 <= k < |outcomes| && outcomes[k] == Succeeds
  }

  /** How many of the attempts made had their commit take effect: none is made after one that succeeds. */
  ghost function Landed(outcomes: seq<Attempt>): nat {
    if outcomes == [] then 0
    else
      var before := outcomes[..|outcomes| - 1];
      Landed(before) + if !SomeSucceeds(before) && Reached(outcomes[|outcomes| - 1]) then 1 else 0
  }

  lemma {:induction false} NoneAfterSuccess(outcomes: seq<Attempt>, k: nat)
    requires k <= |outcomes| && SomeSucceeds(outcomes[..k])
    ensures Landed(outcomes) == Landed(outcomes[..k]) && SomeSucceeds(outcomes)
  {
    if k < |outcomes| {
      assert outcomes[..|outcomes| - 1][..k] == outcomes[..k];
      NoneAfterSuccess(outcomes[..|outcomes| - 1], k);
      var j :| 0 <= j < |outcomes| - 1 && outcomes[..|outcomes| - 1][j] == Succeeds;
      assert outcomes[j] == Succeeds;
    } else {
      assert outcomes[..k] == outcomes;
    }
  }

  /** A success is a commit that took effect. */
  lemma {:induction false} SuccessLands(outcomes: seq<Attempt>)
    requires SomeSucceeds(outcomes)
    ensures Landed(outcomes) > 0
  {
    var n := |outcomes| - 1;
    assert forall k :: 0 <= k < n ==> outcomes[..n][k] == outcomes[k];
    if SomeSucceeds(outcomes[..n]) {
      SuccessLands(outcomes[..n]);
    }
  }

  lemma OneMoreAttempt(outcomes: seq<Attempt>, n: nat)
    requires n < |outcomes| && !SomeSucceeds(outcomes[..n])
    ensures Landed(outcomes[..n + 1]) == Landed(outcomes[..n]) + if Reached(outcomes[n]) then 1 else 0
    ensures SomeSucceeds(outcomes[..n + 1]) <==> outcomes[n] == Succeeds
  {
    var upTo := outcomes[..n + 1];
    assert upTo[..n] == outcomes[..n] && upTo[n] == outcomes[n];
    assert forall k :: 0 <= k < n ==> upTo[k] == outcomes[..n][k];
  }

  /** Some commit took effect, its answer lost or not. */
  ghost predicate TookEffect(outcomes: seq<Attempt>) {
    exists k :: 0 <= k < |outcomes| && (outcomes[k] == Succeeds || outcomes[k] == CommitRaises(true))
  }

  lemma {:induction false} LandedIff(outcomes: seq<Attempt>)
    ensures Landed(outcomes) > 0 <==> TookEffect(outcomes)
  {
    if outcomes != [] {
      var n := |outcomes| - 1;
      LandedIff(outcomes[..n]);
      assert forall k :: 0 <= k < n ==> outcomes[..n][k] == outcomes[k];
      if SomeSucceeds(outcomes[..n]) { SuccessLands(outcomes[..n]); }
    }
  }

  /** A lost answer and a success: without a unique key the rows are in twice. */
  lemma LostAnswerDoubles(last: Attempt)
    ensures Landed([CommitRaises(true), Succeeds, last]) == 2
  {
    var all := [CommitRaises(true), Succeeds, last];
    assert all[..2] == [CommitRaises(true), Succeeds] && all[..2][..1] == [CommitRaises(true)];
    assert all[..2][..1][..0] == [];
    assert all[..2][1] == Succeeds && !SomeSucceeds(all[..2][..1]);
    assert Landed(all[..2][..1]) == 1;
  }

  class TimescaleDBSink {
    const idempotentMetrics: bool
    var committed: Server
    var working: Server
    var connected: bool

    /** No open transaction between calls. */
    ghost predicate Valid()
      reads this
    {
      working == committed
    }

    /** `open` finds the unique index on metrics, or does not. */
    constructor (indexed: bool)
      ensures Valid() && committed == Server(map[], multiset{}) && idempotentMetrics == indexed
    {
      idempotentMetrics := indexed;
      committed, working, connected := Server(map[], multiset{}), Server(map[], multiset{}), false;
    }

    /** Up to three attempts. What is committed is the old tables with the rows inserted as often as a
        commit took effect; a failure is raised exactly if no attempt succeeds. */
    method Run(op: Insert, outcomes: seq<Attempt>) returns (ok: bool)
      requires Valid() && |outcomes| == 3
      modifies this
      ensures Valid()
      ensures ok <==> SomeSucceeds(outcomes)
      ensures committed == Repeated(old(committed), op, Landed(outcomes))
    {
      assert outcomes[..ATTEMPTS] == outcomes;
      for attempt := 0 to ATTEMPTS
        invariant Valid() && !SomeSucceeds(outcomes[..attempt])
        invariant committed == Repeated(old(committed), op, Landed(outcomes[..attempt]))
      {
        var outcome := outcomes[attempt];
        OneMoreAttempt(outcomes, attempt);
        if outcome != NoConnection {
          connected := true;
          working := Apply(working, op);
          if Reached(outcome) {
            committed := working;
          }
          if outcome == Succeeds {
            NoneAfterSuccess(outcomes, attempt + 1);
            return true;
          }
        }
        working := committed;   // rollback, or the server drops the transaction with the connection
        if attempt < ATTEMPTS - 1 {
          connected := false;
        }
      }
      ok := false;
    }

    /** With the unique index the rows are in once, if any commit took effect; without it, once for each. */
    method WriteMetric(aggregate: Aggregate, outcomes: seq<Attempt>) returns (ok: bool)
      requires Valid() && |outcomes| == 3
      modifies this
      ensures Valid()
      ensures ok <==> SomeSucceeds(outcomes)
      ensures ok ==> Landed(outcomes) > 0
      ensures committed == Repeated(old(committed), Insert(MetricRows(aggregate), idempotentMetrics), Landed(outcomes))
      ensures idempotentMetrics && Landed(outcomes) > 0 ==>
        committed == old(committed).(keyed := InsertAll(old(committed).keyed, MetricRows(aggregate)))
      ensures idempotentMetrics && TookEffect(outcomes) ==>
        AllStored(old(committed).keyed, committed.keyed, aggregate)
    {
      RowsAreStored(committed.keyed, aggregate);
      LandedIff(outcomes);
      ok := Run(Insert(MetricRows(aggregate), idempotentMetrics), outcomes);
      if SomeSucceeds(outcomes) { SuccessLands(outcomes); }
      if idempotentMetrics && Landed(outcomes) > 0 {
        UniqueOnce(old(committed), Insert(MetricRows(aggregate), true), Landed(outcomes));
      }
    }

    method WriteAnomaly(row: Row, outcomes: seq<Attempt>) returns (ok: bool)
      requires Valid() && |outcomes| == 3 && row.AnomalyRow?
      modifies this
      ensures Valid()
      ensures ok <==> SomeSucceeds(outcomes)
      ensures ok ==> Landed(outcomes) > 0
      ensures committed == if Landed(outcomes) == 0 then old(committed)
                           else old(committed).(keyed := InsertAll(old(committed).keyed, [row]))
      ensures AnomalyKey(row.id) in committed.keyed <==>
        AnomalyKey(row.id) in old(committed).keyed || TookEffect(outcomes)
      ensures AnomalyKey(row.id) !in old(committed).keyed && TookEffect(outcomes) ==>
        committed.keyed[AnomalyKey(row.id)] == row
    {
      assert KeyOf(row) == AnomalyKey(row.id);
      InsertAllKeeps(committed.keyed, [row]);
      LandedIff(outcomes);
      ok := Run(Insert([row], true), outcomes);
      if SomeSucceeds(outcomes) { SuccessLands(outcomes); }
      if Landed(outcomes) > 0 {
        UniqueOnce(old(committed), Insert([row], true), Landed(outcomes));
      }
    }
  }

  // ---- Crashes and replays ----

  /** What each parallel task writes, window after window; a replay writes the same again. */
  type Tasks = seq<seq<seq<Row>>>

  /** The tables, the window each task is at, and where the last checkpoint was. */
  datatype Job = Job(db: Tables, at: seq<nat>, saved: seq<nat>)

  /** Task i writes its next window and goes on; its write raises, having taken effect or not, and it
      stays; a checkpoint; a restart of the whole job from the last one. */
  datatype Step = Wrote(i: nat) | Raised(i: nat, applied: bool) | Checkpoint | Restart

  function Begin(tasks: Tasks): Job {
    var zero := seq(|tasks|, i => 0);
    Job(map[], zero, zero)
  }

  predicate CanWrite(tasks: Tasks, j: Job, i: nat) {
    i < |tasks| == |j.at| && j.at[i] < |tasks[i]|
  }

  function Next(tasks: Tasks, j: Job, s: Step): Job {
    match s
    case Wrote(i) =>
      if CanWrite(tasks, j, i) then Job(InsertAll(j.db, tasks[i][j.at[i]]), j.at[i := j.at[i] + 1], j.saved) else j
    case Raised(i, applied) =>
      if applied && CanWrite(tasks, j, i) then Job(InsertAll(j.db, tasks[i][j.at[i]]), j.at, j.saved) else j
    case Checkpoint => Job(j.db, j.at, j.at)
    case Restart => Job(j.db, j.saved, j.saved)
  }

  function After(tasks: Tasks, steps: seq<Step>): Job {
    if steps == [] then Begin(tasks) else Next(tasks, After(tasks, steps[..|steps| - 1]), steps[|steps| - 1])
  }

  ghost predicate Finished(tasks: Tasks, j: Job) {
    |j.at| == |tasks| && forall i :: 0 <= i < |tasks| ==> j.at[i] == |tasks[i]|
  }

  ghost predicate Emits(tasks: Tasks, r: Row) {
    exists i, w :: 0 <= i < |tasks| && 0 <= w < |tasks[i]| && r in tasks[i][w]
  }

  /** Deterministic output: rows with the same key are the same row. */
  ghost predicate Deterministic(tasks: Tasks) {
    forall r, s :: Emits(tasks, r) && Emits(tasks, s) && KeyOf(r) == KeyOf(s) ==> r == s
  }

  /** The tables hold exactly these rows. */
  ghost predicate HoldsExactly(db: Tables, tasks: Tasks) {
    && (forall k :: k in db ==> Emits(tasks, db[k]) && KeyOf(db[k]) == k)
    && (forall r :: Emits(tasks, r) ==> KeyOf(r) in db && db[KeyOf(r)] == r)
  }

  /** Everything before the current window and before the checkpoint is in the tables. */
  ghost predicate Flushed(tasks: Tasks, j: Job, upTo: seq<nat>) {
    && |upTo| == |tasks| && (forall i :: 0 <= i < |tasks| ==> upTo[i] <= |tasks[i]|)
    && (forall i, w, r :: 0 <= i < |tasks| && 0 <= w < upTo[i] && r in tasks[i][w] ==> KeyOf(r) in j.db)
  }

  ghost predicate Inv(tasks: Tasks, j: Job) {
    && Flushed(tasks, j, j.at) && Flushed(tasks, j, j.saved)
    && (forall k :: k in j.db ==> Emits(tasks, j.db[k]) && KeyOf(j.db[k]) == k)
  }

  lemma InsertKeepsInv(tasks: Tasks, j: Job, i: nat)
    requires Inv(tasks, j) && CanWrite(tasks, j, i)
    ensures var db := InsertAll(j.db, tasks[i][j.at[i]]);
            && Inv(tasks, Job(db, j.at, j.saved)) && Inv(tasks, Job(db, j.at[i := j.at[i] + 1], j.saved))
  {
    var rows := tasks[i][j.at[i]];
    InsertAllKeeps(j.db, rows);
    forall r | r in rows ensures Emits(tasks, r) { }
  }

  lemma {:induction false} RunKeepsInv(tasks: Tasks, steps: seq<Step>)
    ensures Inv(tasks, After(tasks, steps))
  {
    if steps != [] {
      var before := After(tasks, steps[..|steps| - 1]);
      RunKeepsInv(tasks, steps[..|steps| - 1]);
      match steps[|steps| - 1]
      case Wrote(i) => if CanWrite(tasks, before, i) { InsertKeepsInv(tasks, before, i); }
      case Raised(i, applied) => if applied && CanWrite(tasks, before, i) { InsertKeepsInv(tasks, before, i); }
      case Checkpoint =>
      case Restart =>
    }
  }

  /** A finished job's tables hold exactly the rows its windows produce, however often it crashed and
      rewound, and however many commits took effect yet raised. */
  lemma FinishedHoldsExactly(tasks: Tasks, steps: seq<Step>)
    requires Deterministic(tasks) && Finished(tasks, After(tasks, steps))
    ensures HoldsExactly(After(tasks, steps).db, tasks)
  {
    var j := After(tasks, steps);
    RunKeepsInv(tasks, steps);
    forall r | Emits(tasks, r) ensures KeyOf(r) in j.db && j.db[KeyOf(r)] == r {
      var i, w :| 0 <= i < |tasks| && 0 <= w < |tasks[i]| && r in tasks[i][w];
      assert w < j.at[i];
      assert Emits(tasks, j.db[KeyOf(r)]);
    }
  }

  /** In particular it ends like any other finished run of the same tasks, the failure-free ones included. */
  lemma ReplaySafe(tasks: Tasks, steps: seq<Step>, failureFree: seq<Step>)
    requires Deterministic(tasks)
    requires Finished(tasks, After(tasks, steps)) && Finished(tasks, After(tasks, failureFree))
    ensures After(tasks, steps).db == After(tasks, failureFree).db
  {
    FinishedHoldsExactly(tasks, steps);
    FinishedHoldsExactly(tasks, failureFree);
    var a, b := After(tasks, steps).db, After(tasks, failureFree).db;
    forall k ensures k in a <==> k in b {
      if k in a { assert Emits(tasks, a[k]); }
      if k in b { assert Emits(tasks, b[k]); }
    }
    forall k | k in a ensures a[k] == b[k] { assert Emits(tasks, a[k]); }
  }
}
