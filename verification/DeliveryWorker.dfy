/** One worker's delivery tick: fetch a batch, then attempt every copy of it in turn. */
module DeliveryWorker {
  import opened Wrappers
  import opened DeliveryQueue
  import opened OldestFirst

  /** The table after all of `batch` has been attempted, `remote` deciding each outcome. */
  function Drain(rows: Table, batch: seq<Snapshot>, remote: Id -> Outcome): Table
    decreases |batch|
  {
    if batch == [] then rows
    else Drain(Write(rows, AttemptUpdate(batch[0], remote(batch[0].id))), batch[1..], remote)
  }

  function Attempted(row: Row, outcome: Outcome): Row {
    var u := AttemptUpdate(Snapshot(0, row), outcome);
    row.(status := u.status, attempts := u.attempts)
  }

  /** Batches whose copies are distinct rows of the table, still as stored. */
  ghost predicate FreshCopies(rows: Table, batch: seq<Snapshot>) {
    && (forall i :: 0 <= i < |batch| ==> batch[i].id in rows && rows[batch[i].id] == batch[i].row)
    && (forall i, j :: 0 <= i < j < |batch| ==> batch[i].id != batch[j].id)
  }

  /** Every row of the batch is attempted once, no other row changes. */
  lemma {:induction false} DrainAttemptsEachOnce(rows: Table, batch: seq<Snapshot>, remote: Id -> Outcome)
    requires FreshCopies(rows, batch)
    ensures Drain(rows, batch, remote).Keys == rows.Keys
    ensures forall id :: id in rows ==>
              Drain(rows, batch, remote)[id]
              == if id in Ids(batch) then Attempted(rows[id], remote(id)) else rows[id]
    decreases |batch|
  {
    if batch != [] {
      var fd := batch[0];
      var next := Write(rows, AttemptUpdate(fd, remote(fd.id)));
      assert forall i :: 1 <= i < |batch| ==> batch[1..][i - 1] == batch[i];
      DrainAttemptsEachOnce(next, batch[1..], remote);
      assert next[fd.id] == Attempted(rows[fd.id], remote(fd.id));
      assert Ids(batch) == Ids(batch[1..]) + {fd.id};
      assert fd.id !in Ids(batch[1..]);
    }
  }

  /** What a worker alone does in a tick is a run of the machine with one worker. */
  lemma {:induction false} DrainIsARun(s: System, remote: Id -> Outcome) returns (acts: seq<Action>)
    requires |s.workers| == 1 && s.workers[0].owed.None?
    ensures Exec(s, acts).Some?
    ensures Exec(s, acts).value.rows == Drain(s.rows, s.workers[0].queue, remote)
    ensures Exec(s, acts).value.workers == [Worker([], None)]
    decreases |s.workers[0].queue|
  {
    var queue := s.workers[0].queue;
    if queue == [] {
      acts := [];
    } else {
      var a := Attempt(0, remote(queue[0].id));
      var t := Apply(s, a);
      var u := Apply(t, Commit(0));
      var rest := DrainIsARun(u, remote);
      acts := [a, Commit(0)] + rest;
      assert acts[1..] == [Commit(0)] + rest && acts[1..][1..] == rest;
    }
  }

  // ---------------------------------------------------------------------------------------------

  /** What the query for pending deliveries chooses from. */
  function Candidates(rows: Table): map<Id, int> {
    map id | id in rows && Eligible(rows[id]) :: rows[id].created
  }

  function Copies(rows: Table, ids: seq<Id>): seq<Snapshot>
    requires forall i :: 0 <= i < |ids| ==> ids[i] in rows
  {
    seq(|ids|, i requires 0 <= i < |ids| => Snapshot(ids[i], rows[ids[i]]))
  }

  lemma PickIsBatch(rows: Table, ids: seq<Id>, limit: nat)
    requires ValidPick(Candidates(rows), ids, limit)
    ensures ValidBatch(rows, Copies(rows, ids), limit)
  {
    var batch := Copies(rows, ids);
    forall id | id in rows && Eligible(rows[id]) && id !in Ids(batch) ensures id !in ids {
      assert forall i :: 0 <= i < |ids| ==> batch[i].id == ids[i] && ids[i] in Ids(batch);
    }
  }

  class DeliveryStore {
    var rows: Table

    constructor ()
      ensures rows == map[]
    {
      rows := map[];
    }

    /** Fails when the primary key is taken. */
    method CreateDelivery(id: Id, url: string, payload: string, created: int) returns (ok: bool)
      modifies this
      ensures ok == (id !in old(rows))
      ensures rows == if ok then old(rows)[id := Row(url, payload, 0, Pending, created)] else old(rows)
    {
      ok := id !in rows;
      if ok {
        rows := rows[id := Row(url, payload, 0, Pending, created)];
      }
    }

    /** `reached` says whether the query succeeds. */
    method GetPendingDeliveries(limit: nat, reached: bool) returns (answer: Option<seq<Snapshot>>)
      ensures answer.Some? <==> reached
      ensures answer.Some? ==> ValidBatch(rows, answer.value, limit)
    {
      if !reached {
        return None;
      }
      var ids := Pick(Candidates(rows), limit);
      PickIsBatch(rows, ids, limit);
      return Some(Copies(rows, ids));
    }

    /** An UPDATE without a condition on the old status. */
    method UpdateDeliveryStatus(id: Id, status: Status, attempts: int)
      modifies this
      ensures rows == Write(old(rows), Update(id, status, attempts))
      ensures rows == if id in old(rows) then old(rows)[id := old(rows)[id].(status := status, attempts := attempts)]
                      else old(rows)
    {
      if id in rows {
        rows := rows[id := rows[id].(status := status, attempts := attempts)];
      }
    }
  }

  class FederationWorker {
    const db: DeliveryStore

    constructor (db: DeliveryStore)
      ensures this.db == db
    {
      this.db := db;
    }

    method AttemptDelivery(fd: Snapshot, outcome: Outcome)
      modifies db
      ensures db.rows == Write(old(db.rows), AttemptUpdate(fd, outcome))
    {
      if outcome == BuildError {
        MarkFailed(fd.id, fd.row.attempts);
        return;
      }
      if outcome == Rejected {
        var attempts := fd.row.attempts + 1;
        if attempts >= MAX_ATTEMPTS {
          MarkFailed(fd.id, attempts);
        } else {
          db.UpdateDeliveryStatus(fd.id, Pending, attempts);
        }
        return;
      }
      db.UpdateDeliveryStatus(fd.id, Delivered, fd.row.attempts + 1);
    }

    method MarkFailed(id: Id, attempts: int)
      modifies db
      ensures db.rows == Write(old(db.rows), Update(id, Failed, attempts))
    {
      db.UpdateDeliveryStatus(id, Failed, attempts);
    }

    /** `batch` is what the query returned; when it fails the tick does nothing. */
    method ProcessDeliveries(remote: Id -> Outcome, reached: bool) returns (batch: seq<Snapshot>)
      modifies db
      ensures if reached then ValidBatch(old(db.rows), batch, 50) else batch == []
      ensures db.rows == Drain(old(db.rows), batch, remote)
    {
      var answer := db.GetPendingDeliveries(BATCH_SIZE, reached);
      if answer.None? {
        return [];
      }
      batch := answer.value;
      var i := 0;
      while i < |batch|
        invariant 0 <= i <= |batch|
        invariant Drain(db.rows, batch[i..], remote) == Drain(old(db.rows), batch, remote)
      {
        assert batch[i..][0] == batch[i] && batch[i..][1..] == batch[i + 1..];
        AttemptDelivery(batch[i], remote(batch[i].id));
        i := i + 1;
      }
      assert batch[i..] == [];
    }
  }
}
