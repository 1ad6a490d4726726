/**
  The retry queue of outbound federation deliveries.

  Rows of the table `federation_deliveries` are polled by n workers that share no lock. A worker
  copies up to fifty pending rows into a local batch, and for each copy makes one POST and then
  writes back a status and an attempt counter computed from the copy alone. The POST and the write
  back are separate steps, so the steps of other workers fall in between.
*/
module DeliveryQueue {
  import opened Wrappers

  const MAX_ATTEMPTS: nat := 5
  const BATCH_SIZE: nat := 50

  type Id = nat

  datatype Status = Pending | Delivered | Failed

  datatype Row = Row(url: string, payload: string, attempts: int, status: Status, created: int)

  type Table = map<Id, Row>

  /** A row as a worker has read it. */
  datatype Snapshot = Snapshot(id: Id, row: Row)

  /** What the remote side makes of one attempt. `BuildError` means that no POST was sent. */
  datatype Outcome = BuildError | Rejected | Accepted

  /** The write that follows an attempt. */
  datatype Update = Update(id: Id, status: Status, attempts: int)

  predicate Eligible(row: Row) {
    row.status == Pending && row.attempts < MAX_ATTEMPTS
  }

  /** The write back is a function of the snapshot, not of the row it overwrites. */
  function AttemptUpdate(fd: Snapshot, outcome: Outcome): Update {
    match outcome
    case BuildError => Update(fd.id, Failed, fd.row.attempts)
    case Accepted => Update(fd.id, Delivered, fd.row.attempts + 1)
    case Rejected =>
      if fd.row.attempts + 1 >= MAX_ATTEMPTS then Update(fd.id, Failed, fd.row.attempts + 1)
      else Update(fd.id, Pending, fd.row.attempts + 1)
  }

  function Write(rows: Table, u: Update): Table {
    if u.id in rows then rows[u.id := rows[u.id].(status := u.status, attempts := u.attempts)] else rows
  }

  /** The answers that `ORDER BY created_at ASC LIMIT limit` may give; rows of equal age come in any order. */
  ghost predicate ValidBatch(rows: Table, batch: seq<Snapshot>, limit: nat) {
    && |batch| <= limit
    && (forall i :: 0 <= i < |batch| ==>
          batch[i].id in rows && rows[batch[i].id] == batch[i].row && Eligible(batch[i].row))
    && (forall i, j :: 0 <= i < j < |batch| ==>
          batch[i].id != batch[j].id && batch[i].row.created <= batch[j].row.created)
    && (forall id :: id in rows && Eligible(rows[id]) && id !in Ids(batch) ==>
          |batch| == limit && forall i :: 0 <= i < |batch| ==> batch[i].row.created <= rows[id].created)
  }

  function Ids(batch: seq<Snapshot>): (ids: set<Id>)
    ensures forall i :: 0 <= i < |batch| ==> batch[i].id in ids
    ensures forall id :: id in ids ==> exists i :: 0 <= i < |batch| && batch[i].id == id
  {
    set i | 0 <= i < |batch| :: batch[i].id
  }

  // ---------------------------------------------------------------------------------------------
  // n workers over one table

  /** A worker between two polls: copies still to attempt, and a write that it owes the table. */
  datatype Worker = Worker(queue: seq<Snapshot>, owed: Option<Update>)

  datatype System = System(rows: Table, workers: seq<Worker>, log: map<Id, seq<Outcome>>)

  datatype Action =
    | Enqueue(id: Id, url: string, payload: string, created: int)
    | Poll(w: nat, batch: seq<Snapshot>)
    | Attempt(w: nat, outcome: Outcome)
    | Commit(w: nat)

  function Init(n: nat): System {
    System(map[], seq(n, i => Worker([], None)), map[])
  }

  function Log(s: System, id: Id): seq<Outcome> {
    if id in s.log then s.log[id] else []
  }

  ghost predicate Enabled(s: System, a: Action) {
    match a
    case Enqueue(id, _, _, _) => id !in s.rows
    case Poll(w, batch) =>
      w < |s.workers| && s.workers[w] == Worker([], None) && ValidBatch(s.rows, batch, BATCH_SIZE)
    case Attempt(w, _) => w < |s.workers| && s.workers[w].owed.None? && s.workers[w].queue != []
    case Commit(w) => w < |s.workers| && s.workers[w].owed.Some?
  }

  ghost function Apply(s: System, a: Action): System
    requires Enabled(s, a)
  {
    match a
    case Enqueue(id, url, payload, created) =>
      s.(rows := s.rows[id := Row(url, payload, 0, Pending, created)])
    case Poll(w, batch) => s.(workers := s.workers[w := Worker(batch, None)])
    case Attempt(w, outcome) =>
      var fd := s.workers[w].queue[0];
      s.(workers := s.workers[w := Worker(s.workers[w].queue[1..], Some(AttemptUpdate(fd, outcome)))],
         log := s.log[fd.id := Log(s, fd.id) + [outcome]])
    case Commit(w) =>
      s.(rows := Write(s.rows, s.workers[w].owed.value),
         workers := s.workers[w := s.workers[w].(owed := None)])
  }

  /** The state after a whole run, or `None` when some action of it was not possible. */
  ghost function Exec(s: System, acts: seq<Action>): Option<System>
    decreases |acts|
  {
    if acts == [] then Some(s)
    else if Enabled(s, acts[0]) then Exec(Apply(s, acts[0]), acts[1..])
    else None
  }

  lemma {:induction false} ExecConcat(s: System, a: seq<Action>, b: seq<Action>)
    requires Exec(s, a).Some?
    ensures Exec(s, a + b) == Exec(Exec(s, a).value, b)
    decreases |a|
  {
    if a == [] {
      assert a + b == b;
    } else {
      assert (a + b)[0] == a[0] && (a + b)[1..] == a[1..] + b;
      ExecConcat(Apply(s, a[0]), a[1..], b);
    }
  }

  // ---------------------------------------------------------------------------------------------
  // What every step keeps, for any number of workers

  ghost predicate RowOk(row: Row) {
    0 <= row.attempts <= MAX_ATTEMPTS && (row.status.Pending? ==> row.attempts < MAX_ATTEMPTS)
  }

  ghost predicate UpdateOk(u: Update) {
    0 <= u.attempts <= MAX_ATTEMPTS && (u.status.Pending? ==> 1 <= u.attempts < MAX_ATTEMPTS)
  }

  ghost predicate WorkerOk(rows: Table, w: Worker) {
    && (forall i :: 0 <= i < |w.queue| ==> w.queue[i].id in rows && 0 <= w.queue[i].row.attempts < MAX_ATTEMPTS)
    && (forall i, j :: 0 <= i < j < |w.queue| ==> w.queue[i].id != w.queue[j].id)
    && (w.owed.Some? ==>
          && w.owed.value.id in rows && UpdateOk(w.owed.value)
          && forall i :: 0 <= i < |w.queue| ==> w.queue[i].id != w.owed.value.id)
  }

  ghost predicate SystemOk(s: System) {
    && (forall id :: id in s.rows ==> RowOk(s.rows[id]))
    && (forall k :: 0 <= k < |s.workers| ==> WorkerOk(s.rows, s.workers[k]))
    && s.log.Keys <= s.rows.Keys
  }

  lemma StepKeepsOk(s: System, a: Action)
    requires SystemOk(s) && Enabled(s, a)
    ensures SystemOk(Apply(s, a))
  {
    var t := Apply(s, a);
    forall k | 0 <= k < |t.workers| ensures WorkerOk(t.rows, t.workers[k]) {
      assert WorkerOk(s.rows, s.workers[k]);
    }
  }

  lemma {:induction false} RunKeepsOk(s: System, acts: seq<Action>)
    requires SystemOk(s) && Exec(s, acts).Some?
    ensures SystemOk(Exec(s, acts).value)
    ensures |Exec(s, acts).value.workers| == |s.workers|
    decreases |acts|
  {
    if acts != [] {
      StepKeepsOk(s, acts[0]);
      RunKeepsOk(Apply(s, acts[0]), acts[1..]);
    }
  }

  /** A row stored as pending has used fewer than five attempts, so the filter of the query on the
      counter hides no pending row; and no counter ever leaves 0..5. */
  lemma AttemptsStayInRange(n: nat, acts: seq<Action>, id: Id)
    requires Exec(Init(n), acts).Some? && id in Exec(Init(n), acts).value.rows
    ensures var row := Exec(Init(n), acts).value.rows[id];
            0 <= row.attempts <= 5 && (row.status == Pending ==> row.attempts < 5) && (row.status == Pending <==> Eligible(row))
  {
    RunKeepsOk(Init(n), acts);
  }
}
