/** What a stored status means when one worker serves the queue, and why it means less with two. */
module DeliverySingle {
  import opened Wrappers
  import opened DeliveryQueue
  import opened DeliveryBound

  ghost predicate AllRejected(log: seq<Outcome>) {
    forall i :: 0 <= i < |log| ==> log[i] == Rejected
  }

  /** The row tells exactly what the remote side has answered. */
  ghost predicate TellsTruth(row: Row, log: seq<Outcome>) {
    && row.attempts == PostsIn(log)
    && match row.status
       case Pending => AllRejected(log) && |log| < MAX_ATTEMPTS
       case Delivered => log != [] && log[|log| - 1] == Accepted && AllRejected(log[..|log| - 1])
       case Failed =>
         || (AllRejected(log) && |log| == MAX_ATTEMPTS)
         || (log != [] && log[|log| - 1] == BuildError && AllRejected(log[..|log| - 1]))
  }

  /** The truth with the write that the worker still owes already made. */
  function Settled(s: System, id: Id): Row
    requires |s.workers| == 1 && id in s.rows
  {
    var owed := s.workers[0].owed;
    if owed.Some? && owed.value.id == id then Write(s.rows, owed.value)[id] else s.rows[id]
  }

  ghost predicate InStep(s: System) {
    && |s.workers| == 1
    && (forall i :: 0 <= i < |s.workers[0].queue| ==>
          var fd := s.workers[0].queue[i];
          fd.id in s.rows && s.rows[fd.id] == fd.row && fd.row.status == Pending)
    && (forall id :: id in s.rows ==> TellsTruth(Settled(s, id), Log(s, id)))
    && (s.workers[0].owed.Some? ==>
          s.workers[0].owed.value.id in s.rows && s.rows[s.workers[0].owed.value.id].status == Pending)
  }

  lemma {:induction false} RejectedAreCounted(log: seq<Outcome>)
    requires AllRejected(log)
    ensures PostsIn(log) == |log|
  {
    if log != [] {
      RejectedAreCounted(log[..|log| - 1]);
    }
  }

  lemma AttemptTellsTruth(fd: Snapshot, log: seq<Outcome>, outcome: Outcome)
    requires TellsTruth(fd.row, log) && fd.row.status == Pending
    ensures var u := AttemptUpdate(fd, outcome);
            TellsTruth(fd.row.(status := u.status, attempts := u.attempts), log + [outcome])
  {
    var longer := log + [outcome];
    assert longer[..|longer| - 1] == log;
    RejectedAreCounted(log);
  }

  ghost predicate FinalKept(s: System, t: System) {
    forall id :: id in s.rows && s.rows[id].status != Pending ==> id in t.rows && t.rows[id] == s.rows[id]
  }

  lemma PollStaysInStep(s: System, batch: seq<Snapshot>)
    requires InStep(s) && Enabled(s, Poll(0, batch))
    ensures InStep(Apply(s, Poll(0, batch)))
  {
    var t := Apply(s, Poll(0, batch));
    forall id | id in t.rows ensures TellsTruth(Settled(t, id), Log(t, id)) {
      assert Settled(t, id) == Settled(s, id);
    }
  }

  lemma AttemptSettles(s: System, outcome: Outcome, id: Id)
    requires SystemOk(s) && InStep(s) && Enabled(s, Attempt(0, outcome)) && id in s.rows
    ensures var t := Apply(s, Attempt(0, outcome));
            TellsTruth(Settled(t, id), Log(t, id))
  {
    var fd := s.workers[0].queue[0];
    assert Settled(s, id) == s.rows[id] && TellsTruth(s.rows[id], Log(s, id));
    if id == fd.id {
      AttemptTellsTruth(fd, Log(s, id), outcome);
    }
  }

  lemma AttemptStaysInStep(s: System, outcome: Outcome)
    requires SystemOk(s) && InStep(s) && Enabled(s, Attempt(0, outcome))
    ensures InStep(Apply(s, Attempt(0, outcome)))
  {
    var t := Apply(s, Attempt(0, outcome));
    var queue := s.workers[0].queue;
    assert s.rows[queue[0].id].status == Pending;
    assert forall i :: 0 <= i < |queue| - 1 ==> queue[1..][i] == queue[i + 1];
    forall id | id in t.rows ensures TellsTruth(Settled(t, id), Log(t, id)) {
      AttemptSettles(s, outcome, id);
    }
  }

  lemma CommitStaysInStep(s: System)
    requires SystemOk(s) && InStep(s) && Enabled(s, Commit(0))
    ensures InStep(Apply(s, Commit(0)))
    ensures FinalKept(s, Apply(s, Commit(0)))
  {
    var t := Apply(s, Commit(0));
    assert WorkerOk(s.rows, s.workers[0]);
    forall id | id in t.rows ensures TellsTruth(Settled(t, id), Log(t, id)) {
      assert Settled(t, id) == Settled(s, id);
    }
  }

  lemma StepStaysInStep(s: System, a: Action)
    requires SystemOk(s) && InStep(s) && Enabled(s, a)
    ensures InStep(Apply(s, a)) && FinalKept(s, Apply(s, a))
  {
    match a
    case Enqueue(id, _, _, _) =>
      var t := Apply(s, a);
      forall i | i in t.rows ensures TellsTruth(Settled(t, i), Log(t, i)) {
        assert i != id ==> Settled(t, i) == Settled(s, i);
      }
    case Poll(_, batch) => PollStaysInStep(s, batch);
    case Attempt(_, outcome) => AttemptStaysInStep(s, outcome);
    case Commit(_) => CommitStaysInStep(s);
  }

  lemma {:induction false} RunStaysInStep(s: System, acts: seq<Action>)
    requires SystemOk(s) && InStep(s) && Exec(s, acts).Some?
    ensures InStep(Exec(s, acts).value) && FinalKept(s, Exec(s, acts).value)
    decreases |acts|
  {
    if acts != [] {
      StepKeepsOk(s, acts[0]);
      StepStaysInStep(s, acts[0]);
      RunStaysInStep(Apply(s, acts[0]), acts[1..]);
    }
  }

  /** With one worker the counter is the number of POSTs, `delivered` says that the last one and no
      other was accepted, and `failed` says that five were rejected or that no request could be built. */
  lemma OneWorkerTellsTruth(acts: seq<Action>, id: Id)
    requires Exec(Init(1), acts).Some? && id in Exec(Init(1), acts).value.rows
    ensures var s := Exec(Init(1), acts).value;
            |s.workers| == 1
            && (s.workers[0].owed.None? || s.workers[0].owed.value.id != id ==>
                  TellsTruth(s.rows[id], Log(s, id)))
  {
    RunStaysInStep(Init(1), acts);
  }

  // ---------------------------------------------------------------------------------------------
  // Terminal statuses

  ghost predicate Overwritten(n: nat, acts: seq<Action>, more: seq<Action>, id: Id) {
    && Exec(Init(n), acts).Some? && Exec(Init(n), acts + more).Some?
    && var s, t := Exec(Init(n), acts).value, Exec(Init(n), acts + more).value;
       id in s.rows && s.rows[id].status != Pending && (id !in t.rows || t.rows[id] != s.rows[id])
  }

  lemma TwoWorkersLoseAnUpdate(n: nat) returns (acts: seq<Action>, more: seq<Action>)
    requires 2 <= n
    ensures Overwritten(n, acts, more, 0)
    ensures var s, t := Exec(Init(n), acts).value, Exec(Init(n), acts + more).value;
            0 in t.rows && s.rows[0].status == Delivered && t.rows[0].status == Pending
  {
    var row := Row("", "", 0, Pending, 0);
    var batch := [Snapshot(0, row)];
    assert batch[0].id in Ids(batch);
    acts := Chain(Init(n), [], Enqueue(0, "", "", 0));
    acts := Chain(Init(n), acts, Poll(0, batch));
    acts := Chain(Init(n), acts, Poll(1, batch));
    acts := Chain(Init(n), acts, Attempt(0, Accepted));
    acts := Chain(Init(n), acts, Commit(0));
    var all := Chain(Init(n), acts, Attempt(1, Rejected));
    all := Chain(Init(n), all, Commit(1));
    more := [Attempt(1, Rejected), Commit(1)];
    assert all == acts + more;
  }

  lemma Chain(s: System, before: seq<Action>, a: Action) returns (acts: seq<Action>)
    requires Exec(s, before).Some? && Enabled(Exec(s, before).value, a)
    ensures acts == before + [a] && Exec(s, acts) == Some(Apply(Exec(s, before).value, a))
  {
    acts := before + [a];
    ExecConcat(s, before, [a]);
  }

  /** `delivered` and `failed` are final exactly when at most one worker runs. */
  lemma FinalExactlyForOneWorker(n: nat)
    ensures n <= 1 <==> !exists acts, more, id :: Overwritten(n, acts, more, id)
  {
    if n >= 2 {
      var acts, more := TwoWorkersLoseAnUpdate(n);
    } else {
      forall acts, more, id ensures !Overwritten(n, acts, more, id) {
        if Overwritten(n, acts, more, id) {
          ExecConcat(Init(n), acts, more);
          RunKeepsOk(Init(n), acts);
          var s := Exec(Init(n), acts).value;
          if n == 1 {
            RunStaysInStep(Init(1), acts);
            RunStaysInStep(s, more);
          } else {
            NobodyWrites(s, more);
          }
        }
      }
    }
  }

  lemma {:induction false} NobodyWrites(s: System, acts: seq<Action>)
    requires s.workers == [] && Exec(s, acts).Some?
    ensures forall id :: id in s.rows ==> id in Exec(s, acts).value.rows && Exec(s, acts).value.rows[id] == s.rows[id]
    decreases |acts|
  {
    if acts != [] {
      NobodyWrites(Apply(s, acts[0]), acts[1..]);
    }
  }
}
