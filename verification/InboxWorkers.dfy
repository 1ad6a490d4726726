/** How often several workers handle one received activity. */
module InboxWorkers {
  import opened OldestFirst
  import opened InboxQueue

  /** What is left of a worker's batch, and whether its head is handled but not yet marked. */
  datatype Worker = Worker(batch: seq<Id>, handled: bool)

  datatype System = System(events: Events, workers: seq<Worker>, log: seq<Id>)

  datatype Step = Arrive(id: Id, created: int) | Fetch(w: nat, batch: seq<Id>) | Handle(w: nat) | Mark(w: nat, error: string)

  function Init(n: nat): System {
    System(map[], seq(n, _ => Worker([], false)), [])
  }

  ghost predicate Enabled(s: System, step: Step) {
    match step
    case Arrive(id, _) => id !in s.events
    case Fetch(w, batch) =>
      w < |s.workers| && s.workers[w].batch == [] && ValidPick(Open(s.events), batch, BATCH)
    case Handle(w) => w < |s.workers| && s.workers[w].batch != [] && !s.workers[w].handled
    case Mark(w, _) => w < |s.workers| && s.workers[w].batch != [] && s.workers[w].handled
  }

  ghost function Apply(s: System, step: Step): System
    requires Enabled(s, step)
  {
    match step
    case Arrive(id, created) => s.(events := s.events[id := Event(created, false, "")])
    case Fetch(w, batch) => s.(workers := s.workers[w := Worker(batch, false)])
    case Handle(w) => s.(workers := s.workers[w := s.workers[w].(handled := true)],
                         log := s.log + [s.workers[w].batch[0]])
    case Mark(w, error) => s.(events := Marked(s.events, s.workers[w].batch[0], error),
                              workers := s.workers[w := Worker(s.workers[w].batch[1..], false)])
  }

  ghost predicate CanRun(s: System, steps: seq<Step>)
    decreases |steps|
  {
    steps == [] || (Enabled(s, steps[0]) && CanRun(Apply(s, steps[0]), steps[1..]))
  }

  ghost function Run(s: System, steps: seq<Step>): System
    requires CanRun(s, steps)
    decreases |steps|
  {
    if steps == [] then s else Run(Apply(s, steps[0]), steps[1..])
  }

  /** The loop of one tick over its batch is a run of the machine. */
  lemma {:induction false} TickIsARun(s: System, outcome: Id -> string) returns (steps: seq<Step>)
    requires |s.workers| == 1 && !s.workers[0].handled
    ensures CanRun(s, steps)
    ensures Run(s, steps) == System(HandleAll(s.events, s.workers[0].batch, outcome), [Worker([], false)],
                                    s.log + s.workers[0].batch)
    decreases |s.workers[0].batch|
  {
    var batch := s.workers[0].batch;
    if batch == [] {
      steps := [];
      assert s.workers == [Worker([], false)] && s.log + batch == s.log;
    } else {
      var t := Apply(s, Handle(0));
      var u := Apply(t, Mark(0, outcome(batch[0])));
      var rest := TickIsARun(u, outcome);
      steps := [Handle(0), Mark(0, outcome(batch[0]))] + rest;
      assert steps[1..][1..] == rest;
      assert CanRun(t, steps[1..]);
      assert s.log + [batch[0]] + batch[1..] == s.log + batch;
    }
  }

  ghost predicate WellFormed(s: System) {
    forall w :: 0 <= w < |s.workers| ==> NoRepeats(s.workers[w].batch) && AllKnown(s.events, s.workers[w].batch)
  }

  ghost predicate AllKnown(events: Events, ids: seq<Id>) {
    forall i :: 0 <= i < |ids| ==> ids[i] in events
  }

  /** How often this worker may still handle the event. */
  ghost function Left(worker: Worker, id: Id, done: bool): nat {
    if id in (if worker.handled && worker.batch != [] then worker.batch[1..] else worker.batch) then 1
    else if done || (worker.handled && worker.batch != [] && worker.batch[0] == id) then 0
    else 1
  }

  ghost function LeftOf(workers: seq<Worker>, id: Id, done: bool): nat {
    if workers == [] then 0
    else LeftOf(workers[..|workers| - 1], id, done) + Left(workers[|workers| - 1], id, done)
  }

  lemma {:induction false} LeftOfReplaced(workers: seq<Worker>, w: nat, worker: Worker, id: Id, done: bool)
    requires w < |workers|
    ensures LeftOf(workers[w := worker], id, done) + Left(workers[w], id, done)
         == LeftOf(workers, id, done) + Left(worker, id, done)
  {
    var n := |workers| - 1;
    if w < n {
      assert workers[w := worker][..n] == workers[..n][w := worker];
      LeftOfReplaced(workers[..n], w, worker, id, done);
    } else {
      assert workers[w := worker][..n] == workers[..n];
    }
  }

  lemma {:induction false} LeftOfDone(workers: seq<Worker>, id: Id, before: bool, after: bool)
    requires before ==> after
    ensures LeftOf(workers, id, after) <= LeftOf(workers, id, before) <= |workers|
  {
    if workers != [] {
      LeftOfDone(workers[..|workers| - 1], id, before, after);
    }
  }

  lemma StepKeepsForm(s: System, step: Step)
    requires WellFormed(s) && Enabled(s, step)
    ensures WellFormed(Apply(s, step)) && |Apply(s, step).workers| == |s.workers|
  {
    var t := Apply(s, step);
    forall w | 0 <= w < |t.workers| ensures NoRepeats(t.workers[w].batch) && AllKnown(t.events, t.workers[w].batch) {
      assert NoRepeats(s.workers[w].batch) && AllKnown(s.events, s.workers[w].batch);
    }
  }

  /** A step does not raise the sum of what was done to an event and what may still be. */
  lemma StepKeepsBound(s: System, step: Step, id: Id)
    requires WellFormed(s) && Enabled(s, step)
    ensures var t := Apply(s, step);
            multiset(t.log)[id] + LeftOf(t.workers, id, Done(t.events, id))
            <= multiset(s.log)[id] + LeftOf(s.workers, id, Done(s.events, id))
  {
    var t := Apply(s, step);
    var before, after := Done(s.events, id), Done(t.events, id);
    match step {
      case Arrive(_, _) =>
        LeftOfDone(s.workers, id, before, after);
      case Fetch(w, batch) =>
        LeftOfReplaced(s.workers, w, t.workers[w], id, before);
      case Handle(w) =>
        LeftOfReplaced(s.workers, w, t.workers[w], id, before);
      case Mark(w, error) =>
        assert AllKnown(s.events, s.workers[w].batch);
        LeftOfReplaced(s.workers, w, t.workers[w], id, after);
        LeftOfDone(s.workers, id, before, after);
    }
  }

  lemma {:induction false} RunKeepsBound(s: System, steps: seq<Step>, id: Id)
    requires WellFormed(s) && CanRun(s, steps)
    ensures multiset(Run(s, steps).log)[id] <= multiset(s.log)[id] + LeftOf(s.workers, id, Done(s.events, id))
    decreases |steps|
  {
    if steps != [] {
      StepKeepsForm(s, steps[0]);
      StepKeepsBound(s, steps[0], id);
      RunKeepsBound(Apply(s, steps[0]), steps[1..], id);
    }
  }

  /** However the workers interleave, each of them handles an event at most once. */
  lemma HandledAtMostOncePerWorker(n: nat, steps: seq<Step>, id: Id)
    requires CanRun(Init(n), steps)
    ensures multiset(Run(Init(n), steps).log)[id] <= n
  {
    RunKeepsBound(Init(n), steps, id);
    LeftOfDone(Init(n).workers, id, false, false);
  }

  // ---------------------------------------------------------------------------------------------
  // The bound is exact

  /** All workers from w on fetch the one event, or all handle it. */
  function Everyone(w: nat, n: nat, handle: bool, id: Id): (steps: seq<Step>)
    requires w <= n
    decreases n - w
  {
    if w == n then [] else [if handle then Handle(w) else Fetch(w, [id])] + Everyone(w + 1, n, handle, id)
  }

  /** Workers below w have done their part of the round. */
  function Midway(n: nat, w: nat, handle: bool, id: Id): System
    requires w <= n
  {
    System(map[id := Event(0, false, "")],
           seq(n, i => if handle then Worker([id], i < w) else if i < w then Worker([id], false) else Worker([], false)),
           if handle then seq(w, _ => id) else [])
  }

  lemma OneStep(n: nat, w: nat, handle: bool, id: Id)
    requires w < n
    ensures var step := if handle then Handle(w) else Fetch(w, [id]);
            Enabled(Midway(n, w, handle, id), step)
            && Apply(Midway(n, w, handle, id), step) == Midway(n, w + 1, handle, id)
  {
    var s := Midway(n, w, handle, id);
    assert Open(s.events) == map[id := 0];
    var t := Apply(s, if handle then Handle(w) else Fetch(w, [id]));
    assert t.workers == Midway(n, w + 1, handle, id).workers;
    assert t.log == Midway(n, w + 1, handle, id).log;
  }

  lemma {:induction false} OneRound(n: nat, w: nat, handle: bool, id: Id)
    requires w <= n
    ensures CanRun(Midway(n, w, handle, id), Everyone(w, n, handle, id))
    ensures Run(Midway(n, w, handle, id), Everyone(w, n, handle, id)) == Midway(n, n, handle, id)
    decreases n - w
  {
    if w < n {
      OneStep(n, w, handle, id);
      OneRound(n, w + 1, handle, id);
      assert Everyone(w, n, handle, id)[1..] == Everyone(w + 1, n, handle, id);
    }
  }

  lemma {:induction false} RunConcat(s: System, a: seq<Step>, b: seq<Step>)
    requires CanRun(s, a) && CanRun(Run(s, a), b)
    ensures CanRun(s, a + b) && Run(s, a + b) == Run(Run(s, a), b)
    decreases |a|
  {
    if a == [] {
      assert a + b == b;
    } else {
      assert (a + b)[1..] == a[1..] + b;
      RunConcat(Apply(s, a[0]), a[1..], b);
    }
  }

  /** All n workers can fetch an event before the first of them marks it, and then handle it n times. */
  lemma EveryWorkerCanHandleIt(n: nat, id: Id)
    ensures exists steps :: CanRun(Init(n), steps) && multiset(Run(Init(n), steps).log)[id] == n
  {
    var arrive, fetch, handle := [Arrive(id, 0)], Everyone(0, n, false, id), Everyone(0, n, true, id);
    Arrival(n, id);
    OneRound(n, 0, false, id);
    OneRound(n, 0, true, id);
    Switch(n, id);
    RunConcat(Init(n), arrive, fetch);
    RunConcat(Init(n), arrive + fetch, handle);
    assert Run(Init(n), arrive + fetch + handle) == Midway(n, n, true, id);
    AllTheSame(n, id);
  }

  lemma Arrival(n: nat, id: Id)
    ensures CanRun(Init(n), [Arrive(id, 0)]) && Run(Init(n), [Arrive(id, 0)]) == Midway(n, 0, false, id)
  {
    var s := Apply(Init(n), Arrive(id, 0));
    assert s.workers == Midway(n, 0, false, id).workers;
    assert [Arrive(id, 0)][1..] == [];
    assert CanRun(s, []) && Run(s, []) == s;
  }

  lemma Switch(n: nat, id: Id)
    ensures Midway(n, n, false, id) == Midway(n, 0, true, id)
  {
    assert Midway(n, n, false, id).workers == Midway(n, 0, true, id).workers;
    assert Midway(n, n, false, id).log == [] == Midway(n, 0, true, id).log;
  }

  lemma {:induction false} AllTheSame(n: nat, id: Id)
    ensures multiset(seq(n, _ => id))[id] == n
  {
    if n > 0 {
      AllTheSame(n - 1, id);
      assert seq(n, _ => id) == seq(n - 1, _ => id) + [id];
    }
  }
}
