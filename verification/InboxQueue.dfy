/**
  The queue of received activities: workers fetch the oldest fifty that are not processed, handle each,
  and then mark it, without locks.

  An event takes its creation time in the process that received it, before it is inserted, so an older
  event may be inserted after a younger one. What handling does is not part of this module; the log
  records each time it is done.
*/
module InboxQueue {
  import opened Wrappers
  import opened OldestFirst

  type Id = nat

  const BATCH := 50

  datatype Event = Event(created: int, processed: bool, error: string)

  type Events = map<Id, Event>

  function Marked(events: Events, id: Id, error: string): Events {
    if id in events then events[id := events[id].(processed := true, error := error)] else events
  }

  predicate Done(events: Events, id: Id) {
    id in events && events[id].processed
  }

  /** What the query for unprocessed events chooses from. */
  function Open(events: Events): map<Id, int> {
    map id | id in events && !events[id].processed :: events[id].created
  }

  ghost predicate NoRepeats(ids: seq<Id>) {
    forall i, j :: 0 <= i < j < |ids| ==> ids[i] != ids[j]
  }

  // ---------------------------------------------------------------------------------------------
  // One worker

  /** The processed events are those in the log, and the log shows each of them once. */
  ghost predicate ExactlyOnce(events: Events, log: seq<Id>) {
    NoRepeats(log) && forall id :: id in log <==> Done(events, id)
  }

  /** The table after a batch is handled; `outcome` is the error text of handling an event, empty for none. */
  function HandleAll(events: Events, batch: seq<Id>, outcome: Id -> string): Events
    decreases |batch|
  {
    if batch == [] then events else HandleAll(Marked(events, batch[0], outcome(batch[0])), batch[1..], outcome)
  }

  lemma {:induction false} HandleAllIs(events: Events, batch: seq<Id>, outcome: Id -> string)
    requires NoRepeats(batch) && forall i :: 0 <= i < |batch| ==> batch[i] in events
    ensures var after := HandleAll(events, batch, outcome);
            && after.Keys == events.Keys
            && forall id :: id in events ==>
                 after[id] == if id in batch then events[id].(processed := true, error := outcome(id)) else events[id]
    decreases |batch|
  {
    if batch != [] {
      HandleAllIs(Marked(events, batch[0], outcome(batch[0])), batch[1..], outcome);
      assert batch == [batch[0]] + batch[1..];
    }
  }

  lemma HandleNext(events: Events, batch: seq<Id>, i: nat, outcome: Id -> string)
    requires i < |batch|
    ensures HandleAll(events, batch[i..], outcome)
         == HandleAll(Marked(events, batch[i], outcome(batch[i])), batch[i + 1..], outcome)
    ensures batch[..i + 1] == batch[..i] + [batch[i]]
  {
    assert batch[i..][0] == batch[i] && batch[i..][1..] == batch[i + 1..];
  }

  lemma TickKeepsExactlyOnce(events: Events, log: seq<Id>, batch: seq<Id>, outcome: Id -> string)
    requires ExactlyOnce(events, log) && ValidPick(Open(events), batch, BATCH)
    ensures ExactlyOnce(HandleAll(events, batch, outcome), log + batch)
  {
    HandleAllIs(events, batch, outcome);
    var longer := log + batch;
    forall i, j | 0 <= i < j < |longer| ensures longer[i] != longer[j] {
      assert i < |log| ==> longer[i] in log && Done(events, longer[i]);
      assert j >= |log| ==> longer[j] == batch[j - |log|] && !Done(events, longer[j]);
    }
  }

  class InboxWorker {
    var events: Events
    var log: seq<Id>

    constructor ()
      ensures events == map[] && log == []
    {
      events, log := map[], [];
    }

    /** Fails when the primary key is taken. */
    method CreateInboxEvent(id: Id, created: int) returns (ok: bool)
      modifies this`events
      ensures ok <==> id !in old(events)
      ensures events == if ok then old(events)[id := Event(created, false, "")] else old(events)
      ensures old(ExactlyOnce(events, log)) ==> ExactlyOnce(events, log)
    {
      ok := id !in events;
      if ok {
        events := events[id := Event(created, false, "")];
      }
    }

    method GetUnprocessedInboxEvents(limit: nat, reached: bool) returns (answer: Option<seq<Id>>)
      ensures answer.Some? <==> reached
      ensures answer.Some? ==> ValidPick(Open(events), answer.value, limit)
    {
      if !reached {
        return None;
      }
      var ids := Pick(Open(events), limit);
      return Some(ids);
    }

    method MarkInboxEventProcessed(id: Id, error: string)
      modifies this`events
      ensures events == Marked(old(events), id, error)
    {
      if id in events {
        events := events[id := events[id].(processed := true, error := error)];
      }
    }

    /** Handles and marks the oldest unprocessed events, each once. */
    method ProcessInboxEvents(outcome: Id -> string, reached: bool) returns (batch: seq<Id>)
      requires ExactlyOnce(events, log)
      modifies this
      ensures if reached then ValidPick(Open(old(events)), batch, 50) else batch == []
      ensures events == HandleAll(old(events), batch, outcome) && log == old(log) + batch
      ensures ExactlyOnce(events, log)
    {
      var answer := GetUnprocessedInboxEvents(BATCH, reached);
      if answer.None? {
        return [];
      }
      batch := answer.value;
      TickKeepsExactlyOnce(events, log, batch, outcome);
      assert batch[0..] == batch && batch[|batch|..] == [];
      for i := 0 to |batch|
        invariant HandleAll(events, batch[i..], outcome) == HandleAll(old(events), batch, outcome)
        invariant log == old(log) + batch[..i]
      {
        HandleNext(events, batch, i, outcome);
        log := log + [batch[i]];
        MarkInboxEventProcessed(batch[i], outcome(batch[i]));
      }
      assert batch[..|batch|] == batch;
    }
  }
}
