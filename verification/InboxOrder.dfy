/** In which order one worker handles received activities. */
module InboxOrder {
  import opened OldestFirst
  import opened InboxQueue

  ghost predicate Sorted(events: Events, log: seq<Id>) {
    forall i, j :: 0 <= i < j < |log| ==>
      log[i] in events && log[j] in events && events[log[i]].created <= events[log[j]].created
  }

  /** Handled by age, and no unprocessed event is older than a processed one. */
  ghost predicate InOrder(events: Events, log: seq<Id>) {
    && Sorted(events, log)
    && forall id, other :: id in log && other in Open(events) ==>
         id in events && events[id].created <= events[other].created
  }

  datatype Turn = Arrival(id: Id, created: int) | Tick(batch: seq<Id>, outcome: Id -> string)

  datatype Desk = Desk(events: Events, log: seq<Id>)

  function Next(d: Desk, turn: Turn): Desk {
    match turn
    case Arrival(id, created) => Desk(d.events[id := Event(created, false, "")], d.log)
    case Tick(batch, outcome) => Desk(HandleAll(d.events, batch, outcome), d.log + batch)
  }

  ghost predicate Possible(d: Desk, turn: Turn) {
    match turn
    case Arrival(id, _) => id !in d.events
    case Tick(batch, _) => ValidPick(Open(d.events), batch, BATCH)
  }

  ghost predicate CanTurn(d: Desk, turns: seq<Turn>)
    decreases |turns|
  {
    turns == [] || (Possible(d, turns[0]) && CanTurn(Next(d, turns[0]), turns[1..]))
  }

  function After(d: Desk, turns: seq<Turn>): Desk
    decreases |turns|
  {
    if turns == [] then d else After(Next(d, turns[0]), turns[1..])
  }

  ghost predicate AllProcessed(events: Events) {
    forall id :: id in events ==> Done(events, id)
  }

  /** Older than an event that is already processed. */
  ghost predicate Late(d: Desk, turn: Turn) {
    turn.Arrival? && exists id :: id in d.log && id in d.events && turn.created < d.events[id].created
  }

  ghost predicate Punctual(d: Desk, turns: seq<Turn>)
    decreases |turns|
  {
    turns == [] || (!Late(d, turns[0]) && Punctual(Next(d, turns[0]), turns[1..]))
  }

  /** What every turn keeps: handled once, and handled events and their times stay as they are. */
  ghost predicate Continues(d: Desk, e: Desk) {
    && d.log <= e.log
    && forall id :: id in d.events ==> id in e.events && e.events[id].created == d.events[id].created
  }

  lemma TurnContinues(d: Desk, turn: Turn)
    requires ExactlyOnce(d.events, d.log) && Possible(d, turn)
    ensures ExactlyOnce(Next(d, turn).events, Next(d, turn).log) && Continues(d, Next(d, turn))
  {
    if turn.Tick? {
      HandleAllIs(d.events, turn.batch, turn.outcome);
      TickKeepsExactlyOnce(d.events, d.log, turn.batch, turn.outcome);
    }
  }

  lemma {:induction false} TurnsContinue(d: Desk, turns: seq<Turn>)
    requires ExactlyOnce(d.events, d.log) && CanTurn(d, turns)
    ensures ExactlyOnce(After(d, turns).events, After(d, turns).log) && Continues(d, After(d, turns))
    decreases |turns|
  {
    if turns != [] {
      TurnContinues(d, turns[0]);
      TurnsContinue(Next(d, turns[0]), turns[1..]);
    }
  }

  lemma BatchIsSorted(events: Events, log: seq<Id>, batch: seq<Id>)
    requires ExactlyOnce(events, log) && InOrder(events, log) && ValidPick(Open(events), batch, BATCH)
    ensures Sorted(events, log + batch)
  {
    var longer := log + batch;
    forall i, j | 0 <= i < j < |longer|
      ensures longer[i] in events && longer[j] in events && events[longer[i]].created <= events[longer[j]].created
    {
      assert i < |log| ==> longer[i] in log && Done(events, longer[i]);
      assert j >= |log| ==> longer[j] == batch[j - |log|] && longer[j] in Open(events);
      assert i >= |log| ==> longer[i] == batch[i - |log|] && longer[i] in Open(events);
    }
  }

  lemma SortedWithSameTimes(events: Events, after: Events, log: seq<Id>)
    requires Sorted(events, log) && after.Keys == events.Keys
    requires forall id :: id in events ==> after[id].created == events[id].created
    ensures Sorted(after, log)
  {
    forall i, j | 0 <= i < j < |log|
      ensures log[i] in after && log[j] in after && after[log[i]].created <= after[log[j]].created
    {
      assert log[i] in events && log[j] in events && events[log[i]].created <= events[log[j]].created;
    }
  }

  lemma TickKeepsOrder(d: Desk, turn: Turn)
    requires ExactlyOnce(d.events, d.log) && InOrder(d.events, d.log) && Possible(d, turn) && turn.Tick?
    ensures InOrder(Next(d, turn).events, Next(d, turn).log)
  {
    var e := Next(d, turn);
    HandleAllIs(d.events, turn.batch, turn.outcome);
    BatchIsSorted(d.events, d.log, turn.batch);
    SortedWithSameTimes(d.events, e.events, e.log);
    forall id, other | id in e.log && other in Open(e.events)
      ensures id in e.events && e.events[id].created <= e.events[other].created
    {
      assert other in Open(d.events) && other !in turn.batch;
      if id in d.log {
        assert Done(d.events, id);
      } else {
        var i :| 0 <= i < |turn.batch| && turn.batch[i] == id;
      }
    }
  }

  lemma TurnKeepsOrder(d: Desk, turn: Turn)
    requires ExactlyOnce(d.events, d.log) && InOrder(d.events, d.log) && Possible(d, turn) && !Late(d, turn)
    ensures InOrder(Next(d, turn).events, Next(d, turn).log)
  {
    if turn.Tick? {
      TickKeepsOrder(d, turn);
    }
  }

  /** A late event that is handled at last breaks the order. */
  lemma LateBreaksOrder(d: Desk, turns: seq<Turn>)
    requires ExactlyOnce(d.events, d.log) && CanTurn(d, turns) && turns != [] && Late(d, turns[0])
    requires AllProcessed(After(d, turns).events)
    ensures !Sorted(After(d, turns).events, After(d, turns).log)
  {
    var mid, end := Next(d, turns[0]), After(d, turns);
    var id, late := turns[0].id, turns[0].created;
    TurnContinues(d, turns[0]);
    TurnsContinue(mid, turns[1..]);
    var old_ :| old_ in d.log && old_ in d.events && late < d.events[old_].created;
    var i := IndexIn(d.log, old_);
    assert end.log[i] == old_;
    assert Done(end.events, id);
    var j := IndexIn(end.log, id);
    NotInPrefix(d.events, d.log, end.log, id, j);
    assert end.events[end.log[j]].created < end.events[end.log[i]].created;
  }

  lemma IndexIn(log: seq<Id>, id: Id) returns (i: nat)
    requires id in log
    ensures i < |log| && log[i] == id
  {
    i :| 0 <= i < |log| && log[i] == id;
  }

  lemma NotInPrefix(events: Events, log: seq<Id>, more: seq<Id>, id: Id, j: nat)
    requires ExactlyOnce(events, log) && log <= more && id !in events && j < |more| && more[j] == id
    ensures |log| <= j
  {
    assert forall k :: 0 <= k < |log| ==> more[k] == log[k] && log[k] in log;
    assert !Done(events, id);
  }

  /** Over any run in which every event is processed in the end, events are handled in the order of their
      creation exactly if none arrives after a younger one was processed. */
  lemma {:induction false} SortedExactlyIfPunctual(d: Desk, turns: seq<Turn>)
    requires ExactlyOnce(d.events, d.log) && InOrder(d.events, d.log) && CanTurn(d, turns)
    requires AllProcessed(After(d, turns).events)
    ensures Sorted(After(d, turns).events, After(d, turns).log) <==> Punctual(d, turns)
    decreases |turns|
  {
    if turns != [] {
      if Late(d, turns[0]) {
        LateBreaksOrder(d, turns);
      } else {
        TurnContinues(d, turns[0]);
        TurnKeepsOrder(d, turns[0]);
        SortedExactlyIfPunctual(Next(d, turns[0]), turns[1..]);
      }
    }
  }
}
