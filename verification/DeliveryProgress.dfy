/**
  No starvation: how long a pending row can wait when one worker serves the queue.

  A schedule is a sequence of ticks. In each one the query returns some valid batch, every copy of
  it is attempted with whatever outcome, and afterwards new rows may arrive.
*/
module DeliveryProgress {
  import opened DeliveryQueue
  import opened DeliveryWorker

  datatype Tick = Tick(batch: seq<Snapshot>, remote: Id -> Outcome, arrivals: Table)

  function AfterTick(rows: Table, tick: Tick): Table {
    Drain(rows, tick.batch, tick.remote) + tick.arrivals
  }

  function After(rows: Table, ticks: seq<Tick>): Table
    decreases |ticks|
  {
    if ticks == [] then rows else After(AfterTick(rows, ticks[0]), ticks[1..])
  }

  /** Arrivals are new pending rows, created later than `since`. */
  ghost predicate Possible(rows: Table, tick: Tick, since: int) {
    && ValidBatch(rows, tick.batch, BATCH_SIZE)
    && (forall id :: id in tick.arrivals ==>
          id !in rows && RowOk(tick.arrivals[id]) && since < tick.arrivals[id].created)
  }

  ghost predicate Schedule(rows: Table, ticks: seq<Tick>, since: int)
    decreases |ticks|
  {
    ticks == [] || (Possible(rows, ticks[0], since) && Schedule(AfterTick(rows, ticks[0]), ticks[1..], since))
  }

  /** Rows up to `since` have different creation times, and all rows are as the machine keeps them. */
  ghost predicate Orderly(rows: Table, since: int) {
    && (forall id :: id in rows ==> RowOk(rows[id]))
    && (forall p, q :: p in rows && q in rows && p != q && rows[p].created <= since ==>
          rows[p].created != rows[q].created)
  }

  predicate IsPending(rows: Table, id: Id) {
    id in rows && rows[id].status == Pending
  }

  /** The pending rows that the query prefers to `id`. */
  function Older(rows: Table, id: Id): set<Id>
    requires id in rows
  {
    set q | q in rows && rows[q].status == Pending && rows[q].created < rows[id].created
  }

  lemma AttemptedIsOk(row: Row, outcome: Outcome)
    requires RowOk(row)
    ensures Eligible(row) ==> RowOk(Attempted(row, outcome))
    ensures Attempted(row, outcome).created == row.created
  {
  }

  lemma TickEffect(rows: Table, tick: Tick, since: int)
    requires Orderly(rows, since) && Possible(rows, tick, since)
    ensures Orderly(AfterTick(rows, tick), since)
    ensures forall id :: id in rows ==>
              && id in AfterTick(rows, tick)
              && AfterTick(rows, tick)[id]
                 == (if id in Ids(tick.batch) then Attempted(rows[id], tick.remote(id)) else rows[id])
    ensures forall id :: id in AfterTick(rows, tick) && id !in rows ==> since < AfterTick(rows, tick)[id].created
  {
    assert FreshCopies(rows, tick.batch);
    DrainAttemptsEachOnce(rows, tick.batch, tick.remote);
    var next := AfterTick(rows, tick);
    forall id | id in rows ensures id in next && next[id].created == rows[id].created && RowOk(next[id]) {
      assert id !in tick.arrivals;
      AttemptedIsOk(rows[id], tick.remote(id));
    }
  }

  /** The rows ahead of one that stands at `since` or before only ever leave. */
  lemma TickShrinksOlder(rows: Table, tick: Tick, since: int, id: Id)
    requires Orderly(rows, since) && Possible(rows, tick, since) && id in rows && rows[id].created <= since
    ensures id in AfterTick(rows, tick) && AfterTick(rows, tick)[id].created == rows[id].created
    ensures Older(AfterTick(rows, tick), id) <= Older(rows, id)
    ensures IsPending(AfterTick(rows, tick), id) ==> IsPending(rows, id)
  {
    TickEffect(rows, tick, since);
  }

  lemma SubsetSize<T>(a: set<T>, b: set<T>)
    requires a <= b
    ensures |a| <= |b|
  {
    assert b == a + (b - a);
  }

  lemma {:induction false} IdsAreDistinct(batch: seq<Snapshot>)
    requires forall i, j :: 0 <= i < j < |batch| ==> batch[i].id != batch[j].id
    ensures |Ids(batch)| == |batch|
  {
    if batch != [] {
      IdsAreDistinct(batch[1..]);
      assert Ids(batch) == Ids(batch[1..]) + {batch[0].id};
    }
  }

  /** A pending row that the query leaves out is behind all fifty that it returns. */
  lemma LeftOut(rows: Table, tick: Tick, since: int, id: Id)
    requires Orderly(rows, since) && Possible(rows, tick, since)
    requires IsPending(rows, id) && rows[id].created <= since && id !in Ids(tick.batch)
    ensures |Ids(tick.batch)| == BATCH_SIZE && Ids(tick.batch) <= Older(rows, id)
  {
    IdsAreDistinct(tick.batch);
    forall q | q in Ids(tick.batch) ensures q in Older(rows, id) {
      var i :| 0 <= i < |tick.batch| && tick.batch[i].id == q;
    }
  }

  lemma FrontIsFetched(rows: Table, tick: Tick, since: int, id: Id)
    requires Orderly(rows, since) && Possible(rows, tick, since)
    requires id in rows && rows[id].created <= since && |Older(rows, id)| < BATCH_SIZE
    ensures IsPending(rows, id) ==> id in Ids(tick.batch)
  {
    if IsPending(rows, id) && id !in Ids(tick.batch) {
      LeftOut(rows, tick, since, id);
      SubsetSize(Ids(tick.batch), Older(rows, id));
    }
  }

  lemma FrontRowAdvances(rows: Table, tick: Tick, since: int, id: Id)
    requires Orderly(rows, since) && Possible(rows, tick, since)
    requires id in rows && rows[id].created <= since && |Older(rows, id)| < BATCH_SIZE
    ensures var next := AfterTick(rows, tick);
            && Orderly(next, since)
            && id in next && next[id].created == rows[id].created && |Older(next, id)| < BATCH_SIZE
            && (IsPending(next, id) ==> IsPending(rows, id) && next[id].attempts == rows[id].attempts + 1)
  {
    TickKeepsOrderly(rows, tick, since);
    TickShrinksOlder(rows, tick, since, id);
    SubsetSize(Older(AfterTick(rows, tick), id), Older(rows, id));
    FrontIsFetched(rows, tick, since, id);
    TickOfRow(rows, tick, since, id);
  }

  lemma TickKeepsOrderly(rows: Table, tick: Tick, since: int)
    requires Orderly(rows, since) && Possible(rows, tick, since)
    ensures Orderly(AfterTick(rows, tick), since)
  {
    TickEffect(rows, tick, since);
  }

  lemma TickOfRow(rows: Table, tick: Tick, since: int, id: Id)
    requires Orderly(rows, since) && Possible(rows, tick, since) && id in rows
    ensures var next := AfterTick(rows, tick);
            id in next && (IsPending(next, id) && id in Ids(tick.batch) ==> next[id].attempts == rows[id].attempts + 1)
  {
    TickEffect(rows, tick, since);
  }

  /** A row with fewer than fifty ahead of it is attempted in every tick. */
  lemma {:induction false} FrontRowsFinish(rows: Table, ticks: seq<Tick>, since: int, id: Id)
    requires Orderly(rows, since) && Schedule(rows, ticks, since)
    requires id in rows && rows[id].created <= since && |Older(rows, id)| < BATCH_SIZE
    requires IsPending(rows, id) ==> |ticks| >= MAX_ATTEMPTS - rows[id].attempts
    ensures id in After(rows, ticks) && !IsPending(After(rows, ticks), id)
    decreases |ticks|
  {
    if ticks != [] {
      FrontRowAdvances(rows, ticks[0], since, id);
      FrontRowsFinish(AfterTick(rows, ticks[0]), ticks[1..], since, id);
    }
  }

  lemma {:induction false} ScheduleKeeps(rows: Table, ticks: seq<Tick>, since: int, id: Id)
    requires Orderly(rows, since) && Schedule(rows, ticks, since) && id in rows && rows[id].created <= since
    ensures Orderly(After(rows, ticks), since)
    ensures id in After(rows, ticks) && After(rows, ticks)[id].created == rows[id].created
    ensures Older(After(rows, ticks), id) <= Older(rows, id)
    ensures IsPending(After(rows, ticks), id) ==> IsPending(rows, id)
    decreases |ticks|
  {
    if ticks != [] {
      TickEffect(rows, ticks[0], since);
      TickShrinksOlder(rows, ticks[0], since, id);
      ScheduleKeeps(AfterTick(rows, ticks[0]), ticks[1..], since, id);
    }
  }

  lemma {:induction false} ScheduleSplit(rows: Table, ticks: seq<Tick>, since: int, k: nat)
    requires Schedule(rows, ticks, since) && k <= |ticks|
    ensures Schedule(rows, ticks[..k], since) && Schedule(After(rows, ticks[..k]), ticks[k..], since)
    ensures After(rows, ticks) == After(After(rows, ticks[..k]), ticks[k..])
    decreases k
  {
    if k > 0 {
      ScheduleSplit(AfterTick(rows, ticks[0]), ticks[1..], since, k - 1);
      assert ticks[..k][1..] == ticks[1..][..k - 1];
    }
  }

  /** Five ticks clear at least fifty of the rows ahead, if there are that many. */
  lemma FiveTicksClearABatch(rows: Table, ticks: seq<Tick>, since: int, id: Id)
    requires Orderly(rows, since) && Schedule(rows, ticks, since) && |ticks| == MAX_ATTEMPTS
    requires IsPending(rows, id) && rows[id].created <= since && |Older(rows, id)| >= BATCH_SIZE
    ensures id in After(rows, ticks)
    ensures |Older(After(rows, ticks), id)| <= |Older(rows, id)| - BATCH_SIZE
  {
    var batch := ticks[0].batch;
    var front := Ids(batch);
    var last := After(rows, ticks);
    ScheduleKeeps(rows, ticks, since, id);
    NotInFront(rows, ticks[0], since, id);
    LeftOut(rows, ticks[0], since, id);
    BatchFinishes(rows, ticks, since, id);
    assert Older(last, id) <= Older(rows, id) - front;
    SubsetSize(Older(last, id), Older(rows, id) - front);
    assert Older(rows, id) == front + (Older(rows, id) - front);
  }

  lemma NotInFront(rows: Table, tick: Tick, since: int, id: Id)
    requires Orderly(rows, since) && Possible(rows, tick, since)
    requires IsPending(rows, id) && |Older(rows, id)| >= BATCH_SIZE
    ensures id !in Ids(tick.batch)
  {
    if id in Ids(tick.batch) {
      OlderThanMember(rows, tick, since, id);
    }
  }

  /** All rows of the first batch, which are ahead of a row that is left out, are finished in five ticks. */
  lemma BatchFinishes(rows: Table, ticks: seq<Tick>, since: int, id: Id)
    requires Orderly(rows, since) && Schedule(rows, ticks, since) && |ticks| == MAX_ATTEMPTS
    requires id in rows && rows[id].created <= since && Ids(ticks[0].batch) <= Older(rows, id)
    ensures forall q :: q in Ids(ticks[0].batch) ==> q in rows && !IsPending(After(rows, ticks), q)
  {
    forall q | q in Ids(ticks[0].batch) ensures q in rows && !IsPending(After(rows, ticks), q) {
      OlderThanMember(rows, ticks[0], since, q);
      FrontRowsFinish(rows, ticks, since, q);
    }
  }

  lemma OlderThanMember(rows: Table, tick: Tick, since: int, q: Id)
    requires Orderly(rows, since) && Possible(rows, tick, since)
    requires q in Ids(tick.batch)
    ensures q in rows && |Older(rows, q)| < BATCH_SIZE
  {
    var i :| 0 <= i < |tick.batch| && tick.batch[i].id == q;
    IdsAreDistinct(tick.batch);
    assert Older(rows, q) <= Ids(tick.batch) - {q};
    SubsetSize(Older(rows, q), Ids(tick.batch) - {q});
  }

  lemma OneBatchLess(q: nat, p: nat)
    requires q + BATCH_SIZE <= p
    ensures MAX_ATTEMPTS * (q / BATCH_SIZE + 1) + MAX_ATTEMPTS <= MAX_ATTEMPTS * (p / BATCH_SIZE + 1)
  {
  }

  /** A pending row with p older pending rows is delivered or given up within 5 * (p / 50 + 1) ticks,
      whatever the outcomes and however many newer rows arrive. */
  lemma {:induction false} NoStarvation(rows: Table, ticks: seq<Tick>, id: Id)
    requires IsPending(rows, id) && Orderly(rows, rows[id].created)
    requires Schedule(rows, ticks, rows[id].created)
    requires |ticks| >= 5 * (|Older(rows, id)| / 50 + 1)
    ensures id in After(rows, ticks) && !IsPending(After(rows, ticks), id)
    decreases |Older(rows, id)|
  {
    var since := rows[id].created;
    var p := |Older(rows, id)|;
    if p < BATCH_SIZE {
      FrontRowsFinish(rows, ticks, since, id);
    } else {
      ScheduleSplit(rows, ticks, since, MAX_ATTEMPTS);
      var next := After(rows, ticks[..MAX_ATTEMPTS]);
      FiveTicksClearABatch(rows, ticks[..MAX_ATTEMPTS], since, id);
      ScheduleKeeps(rows, ticks[..MAX_ATTEMPTS], since, id);
      if IsPending(next, id) {
        OneBatchLess(|Older(next, id)|, p);
        NoStarvation(next, ticks[MAX_ATTEMPTS..], id);
      } else {
        ScheduleKeeps(next, ticks[MAX_ATTEMPTS..], since, id);
      }
    }
  }
}
