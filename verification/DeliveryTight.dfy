/**
  The limit on POSTs is reached: a schedule for n workers that makes exactly PostLimit(n) of them.

  All workers read the row. They are let go one after the other; whenever one has written the next
  attempt count back, every worker that is free by then reads the row again.
*/
module DeliveryTight {
  import opened Wrappers
  import opened DeliveryQueue
  import opened DeliveryBound

  const ROW: Id := 0

  function Stored(row: Row, attempts: int): Row {
    row.(attempts := attempts, status := if attempts < MAX_ATTEMPTS then Pending else Failed)
  }

  ghost predicate Free(s: System, k: nat) {
    k <= |s.workers| && forall i :: 0 <= i < k ==> s.workers[i] == Worker([], None)
  }

  ghost predicate Reading(s: System, k: nat, row: Row) {
    k <= |s.workers| && forall i :: 0 <= i < k ==> s.workers[i] == Worker([Snapshot(ROW, row)], None)
  }

  ghost predicate OthersKept(s: System, t: System, k: nat) {
    |s.workers| == |t.workers| && forall i :: k <= i < |s.workers| ==> t.workers[i] == s.workers[i]
  }

  lemma {:induction false} ReadAll(s: System, k: nat, row: Row) returns (acts: seq<Action>)
    requires s.rows == map[ROW := row] && Eligible(row) && Free(s, k)
    ensures Exec(s, acts).Some?
    ensures var t := Exec(s, acts).value;
            Reading(t, k, row) && OthersKept(s, t, k) && t.rows == s.rows && t.log == s.log
  {
    if k == 0 {
      acts := [];
    } else {
      var before := ReadAll(s, k - 1, row);
      var batch := [Snapshot(ROW, row)];
      acts := before + [Poll(k - 1, batch)];
      ExecConcat(s, before, [Poll(k - 1, batch)]);
      assert batch[0].id in Ids(batch);
    }
  }

  ghost predicate OneRow(s: System, row: Row, g: nat) {
    s.rows == map[ROW := Stored(row, g)]
  }

  /** Worker k - 1, the only one of the first k that still holds a copy, is rejected and writes back. */
  lemma OneRound(s: System, k: nat, row: Row, g: nat, h: nat) returns (acts: seq<Action>)
    requires 0 < k <= |s.workers| && h < MAX_ATTEMPTS && OneRow(s, row, g) && Free(s, k - 1)
    requires s.workers[k - 1] == Worker([Snapshot(ROW, Stored(row, h))], None)
    ensures Exec(s, acts).Some?
    ensures var t := Exec(s, acts).value;
            Free(t, k) && OthersKept(s, t, k) && OneRow(t, row, h + 1) && Posts(t, ROW) == Posts(s, ROW) + 1
  {
    acts := [Attempt(k - 1, Rejected), Commit(k - 1)];
    var t := Apply(s, Attempt(k - 1, Rejected));
    assert acts[1..] == [Commit(k - 1)];
    assert t.workers[k - 1].owed == Some(AttemptUpdate(Snapshot(ROW, Stored(row, h)), Rejected));
    var u := Apply(t, Commit(k - 1));
    assert Exec(t, [Commit(k - 1)]) == Some(u);
    assert Write(s.rows, t.workers[k - 1].owed.value) == map[ROW := Stored(row, h + 1)];
    var log := Log(s, ROW) + [Rejected];
    assert log[..|log| - 1] == Log(s, ROW);
  }

  lemma {:induction false} NothingToSum(m: nat)
    ensures SumUpTo(0, m) == 0
  {
    if m > 0 {
      NothingToSum(m - 1);
    }
  }

  lemma SumStep(k: nat, m: nat)
    requires 0 < k && 0 < m
    ensures SumUpTo(k, m) == SumUpTo(k - 1, m) + 1 + SumUpTo(k, m - 1)
  {
    SumUpToIs(k - 1, m);
    SumUpToIs(k, m);
    SumUpToIs(k, m - 1);
  }

  /** k workers hold copies that have used h attempts; they can be made to POST SumUpTo(k, 5 - h) times. */
  lemma {:induction false} Release(s: System, k: nat, row: Row, g: nat, h: nat)
    returns (acts: seq<Action>, g': nat)
    requires h < MAX_ATTEMPTS && Reading(s, k, Stored(row, h)) && OneRow(s, row, g)
    ensures Exec(s, acts).Some?
    ensures var t := Exec(s, acts).value;
            Free(t, k) && OthersKept(s, t, k) && OneRow(t, row, g')
            && Posts(t, ROW) == Posts(s, ROW) + SumUpTo(k, MAX_ATTEMPTS - h)
    decreases MAX_ATTEMPTS - h, k, 1
  {
    if k == 0 {
      acts, g' := [], g;
      NothingToSum(MAX_ATTEMPTS - h);
    } else {
      var first, g1 := Release(s, k - 1, row, g, h);
      var t1 := Exec(s, first).value;
      var round := OneRound(t1, k, row, g1, h);
      var t2 := Exec(t1, round).value;
      ExecConcat(s, first, round);
      var last;
      last, g' := Reread(t2, k, row, h + 1);
      ExecConcat(s, first + round, last);
      acts := first + round + last;
      SumStep(k, MAX_ATTEMPTS - h);
    }
  }

  /** The first k workers are free and the row has used h attempts: all of them read it again. */
  lemma {:induction false} Reread(s: System, k: nat, row: Row, h: nat)
    returns (acts: seq<Action>, g': nat)
    requires h <= MAX_ATTEMPTS && Free(s, k) && OneRow(s, row, h)
    ensures Exec(s, acts).Some?
    ensures var t := Exec(s, acts).value;
            Free(t, k) && OthersKept(s, t, k) && OneRow(t, row, g')
            && Posts(t, ROW) == Posts(s, ROW) + SumUpTo(k, MAX_ATTEMPTS - h)
    decreases MAX_ATTEMPTS - h, k, 2
  {
    if h == MAX_ATTEMPTS {
      acts, g' := [], h;
    } else {
      var read := ReadAll(s, k, Stored(row, h));
      var t := Exec(s, read).value;
      var rest;
      rest, g' := Release(t, k, row, h, h);
      ExecConcat(s, read, rest);
      acts := read + rest;
    }
  }

  /** For every number of workers some schedule makes as many POSTs for one row as the limit allows. */
  lemma PostLimitIsReached(n: nat)
    ensures exists acts, id ::
              Exec(Init(n), acts).Some? && Posts(Exec(Init(n), acts).value, id) == PostLimit(n)
  {
    var row := Row("", "", 0, Pending, 0);
    var queue := [Enqueue(ROW, "", "", 0)];
    var s := Apply(Init(n), queue[0]);
    assert Exec(Init(n), queue) == Some(s);
    assert OneRow(s, row, 0);
    var rest, g := Reread(s, n, row, 0);
    ExecConcat(Init(n), queue, rest);
    assert Posts(s, ROW) == 0;
    assert Posts(Exec(Init(n), queue + rest).value, ROW) == PostLimit(n);
  }
}
