/**
  How many POSTs n workers can make for one queued row.

  Each worker is seen from one row: it is idle, holds a copy, or owes the table a write. Its level
  says how many further attempts its copy, its write or the stored row still leave behind. The
  credit `Spent` grows by at least one with every POST, never shrinks, and cannot exceed
  `PostLimit(n)`.
*/
module DeliveryBound {
  import opened Wrappers
  import opened DeliveryQueue

  /** The number of multisets of m elements taken from n. */
  function Multichoose(n: nat, m: nat): nat
    decreases n + m
  {
    if m == 0 then 1 else if n == 0 then 0 else Multichoose(n - 1, m) + Multichoose(n, m - 1)
  }

  /** The largest number of POSTs that n workers can make for one row. */
  function PostLimit(n: nat): nat {
    SumUpTo(n, MAX_ATTEMPTS)
  }

  /** Multichoose(n, 1) + ... + Multichoose(n, k) */
  function SumUpTo(n: nat, k: nat): nat {
    if k == 0 then 0 else SumUpTo(n, k - 1) + Multichoose(n, k)
  }

  lemma {:induction false} SumUpToIs(n: nat, k: nat)
    ensures SumUpTo(n, k) == Multichoose(n + 1, k) - 1
  {
    if k > 0 {
      SumUpToIs(n, k - 1);
    }
  }

  lemma {:induction false} MultichooseMonotone(a: nat, b: nat, m: nat)
    requires a <= b
    ensures Multichoose(a, m) <= Multichoose(b, m)
    decreases b
  {
    if a < b {
      MultichooseMonotone(a, b - 1, m);
    }
  }

  // ---------------------------------------------------------------------------------------------
  // A worker seen from one row

  datatype View = Idle | Holds(attempts: int) | Owes(left: int)

  function Find(queue: seq<Snapshot>, id: Id): Option<int> {
    if queue == [] then None
    else if queue[0].id == id then Some(queue[0].row.attempts)
    else Find(queue[1..], id)
  }

  function ViewOf(w: Worker, id: Id): View {
    if w.owed.Some? && w.owed.value.id == id then
      Owes(if w.owed.value.status.Pending? then MAX_ATTEMPTS - w.owed.value.attempts else 0)
    else match Find(w.queue, id)
      case Some(attempts) => Holds(attempts)
      case None => Idle
  }

  function Views(s: System, id: Id): seq<View> {
    seq(|s.workers|, k requires 0 <= k < |s.workers| => ViewOf(s.workers[k], id))
  }

  /** Attempts still left after the next one, as stored; -1 when the row is not pending. */
  function StoredLevel(rows: Table, id: Id): int {
    if id !in rows then MAX_ATTEMPTS - 1
    else if rows[id].status.Pending? then MAX_ATTEMPTS - 1 - rows[id].attempts
    else -1
  }

  // ---------------------------------------------------------------------------------------------
  // Counting workers

  datatype Test = IsIdle | IsOwing | BusyBelow(v: int)

  predicate Passes(x: View, t: Test) {
    match t
    case IsIdle => x.Idle?
    case IsOwing => x.Owes?
    case BusyBelow(v) => !x.Idle? && Level(x) < v
  }

  function Level(x: View): int
    requires !x.Idle?
  {
    if x.Holds? then MAX_ATTEMPTS - 1 - x.attempts else x.left
  }

  function Count(vs: seq<View>, t: Test): (c: nat)
    ensures c <= |vs|
  {
    if vs == [] then 0 else (if Passes(vs[0], t) then 1 else 0) + Count(vs[1..], t)
  }

  lemma {:induction false} CountUpdate(vs: seq<View>, k: nat, x: View, t: Test)
    requires k < |vs|
    ensures Count(vs[k := x], t)
         == Count(vs, t) - (if Passes(vs[k], t) then 1 else 0) + (if Passes(x, t) then 1 else 0)
  {
    var us := vs[k := x];
    if k == 0 {
      assert us[1..] == vs[1..];
    } else {
      CountUpdate(vs[1..], k - 1, x, t);
      assert us[1..] == vs[1..][k - 1 := x];
    }
  }

  lemma {:induction false} CountOrdered(vs: seq<View>, v: int, w: int)
    requires v <= w
    ensures Count(vs, BusyBelow(v)) <= Count(vs, BusyBelow(w))
    ensures Count(vs, BusyBelow(w)) + Count(vs, IsIdle) <= |vs|
  {
    if vs != [] {
      CountOrdered(vs[1..], v, w);
    }
  }

  /** Idle workers stand at the level of the stored row, which they may read at any time. */
  function Below(vs: seq<View>, stored: int, v: int): nat {
    Count(vs, BusyBelow(v)) + if stored < v then Count(vs, IsIdle) else 0
  }

  function Credit(vs: seq<View>, stored: int, k: nat): nat {
    if k == 0 then 0 else Credit(vs, stored, k - 1) + Multichoose(Below(vs, stored, k - 1), k)
  }

  function Spent(vs: seq<View>, stored: int): nat {
    Credit(vs, stored, MAX_ATTEMPTS) + Count(vs, IsOwing)
  }

  // ---------------------------------------------------------------------------------------------
  // The three ways in which a step touches the row

  lemma {:induction false} CreditMonotone(vs: seq<View>, a: int, us: seq<View>, b: int, from: nat, k: nat)
    requires from <= k
    requires forall v :: from <= v < k ==> Below(vs, a, v) <= Below(us, b, v)
    ensures Credit(us, b, k) - Credit(us, b, from) >= Credit(vs, a, k) - Credit(vs, a, from)
    decreases k
  {
    if from < k {
      CreditMonotone(vs, a, us, b, from, k - 1);
      MultichooseMonotone(Below(vs, a, k - 1), Below(us, b, k - 1), k);
    }
  }

  lemma ReadKeepsSpent(vs: seq<View>, stored: int, k: nat, attempts: int)
    requires k < |vs| && vs[k].Idle? && stored == MAX_ATTEMPTS - 1 - attempts
    ensures Spent(vs[k := Holds(attempts)], stored) >= Spent(vs, stored)
  {
    var us := vs[k := Holds(attempts)];
    forall v ensures Below(us, stored, v) == Below(vs, stored, v) {
      CountUpdate(vs, k, Holds(attempts), BusyBelow(v));
      CountUpdate(vs, k, Holds(attempts), IsIdle);
    }
    CountUpdate(vs, k, Holds(attempts), IsOwing);
    CreditMonotone(vs, stored, us, stored, 0, MAX_ATTEMPTS);
  }

  lemma AttemptSpendsOne(vs: seq<View>, stored: int, k: nat, left: int)
    requires k < |vs| && vs[k].Holds? && left <= Level(vs[k])
    ensures Spent(vs[k := Owes(left)], stored) >= Spent(vs, stored) + 1
  {
    var us := vs[k := Owes(left)];
    forall v ensures Below(us, stored, v) >= Below(vs, stored, v) {
      CountUpdate(vs, k, Owes(left), BusyBelow(v));
      CountUpdate(vs, k, Owes(left), IsIdle);
    }
    CountUpdate(vs, k, Owes(left), IsOwing);
    CreditMonotone(vs, stored, us, stored, 0, MAX_ATTEMPTS);
  }

  /** Levels under the one written lose at most what the written level gains, less one. */
  lemma {:induction false} CreditBelowWrite(vs: seq<View>, stored: int, top: nat, k: nat)
    requires forall v :: 0 <= v < k ==> Below(vs, stored, v) <= top
    ensures Credit(vs, stored, k) <= Multichoose(top + 1, k) - 1
  {
    if k > 0 {
      CreditBelowWrite(vs, stored, top, k - 1);
      MultichooseMonotone(Below(vs, stored, k - 1), top, k);
    }
  }

  lemma CommitKeepsSpent(vs: seq<View>, stored: int, k: nat)
    requires k < |vs| && vs[k].Owes? && 0 <= vs[k].left < MAX_ATTEMPTS
    ensures Spent(vs[k := Idle], vs[k].left - 1) >= Spent(vs, stored)
  {
    var w := vs[k].left;
    var us := vs[k := Idle];
    var top := Count(vs, BusyBelow(w)) + Count(vs, IsIdle);
    CountUpdate(vs, k, Idle, IsIdle);
    CountUpdate(vs, k, Idle, IsOwing);
    forall v ensures Count(us, BusyBelow(v)) == Count(vs, BusyBelow(v)) - if w < v then 1 else 0 {
      CountUpdate(vs, k, Idle, BusyBelow(v));
    }
    forall v | 0 <= v <= w ensures Below(vs, stored, v) <= top {
      CountOrdered(vs, v, w);
    }
    CreditBelowWrite(vs, stored, top, w);
    assert Below(us, w - 1, w) == top + 1;
    MultichooseMonotone(Below(vs, stored, w), top, w + 1);
    assert Credit(us, w - 1, w + 1) >= Credit(vs, stored, w + 1) + 1;
    CreditMonotone(vs, stored, us, w - 1, w + 1, MAX_ATTEMPTS);
  }

  lemma {:induction false} MultichooseOne(n: nat)
    ensures Multichoose(n, 1) == n
  {
    if n > 0 {
      MultichooseOne(n - 1);
    }
  }

  lemma {:induction false} IdleOrOwing(vs: seq<View>)
    requires forall x :: x in vs && x.Owes? ==> 0 <= x.left
    ensures Count(vs, BusyBelow(0)) + Count(vs, IsIdle) + Count(vs, IsOwing) <= |vs|
  {
    if vs != [] {
      IdleOrOwing(vs[1..]);
    }
  }

  lemma {:induction false} CreditAboveFirst(vs: seq<View>, stored: int, k: nat)
    requires 1 <= k
    ensures Credit(vs, stored, k) <= Below(vs, stored, 0) + SumUpTo(|vs|, k) - |vs|
  {
    MultichooseOne(Below(vs, stored, 0));
    MultichooseOne(|vs|);
    if k > 1 {
      CreditAboveFirst(vs, stored, k - 1);
      CountOrdered(vs, k - 1, k - 1);
      MultichooseMonotone(Below(vs, stored, k - 1), |vs|, k);
    } else {
      assert Credit(vs, stored, 1) == Multichoose(Below(vs, stored, 0), 1);
      assert SumUpTo(|vs|, 1) == Multichoose(|vs|, 1);
    }
  }

  // ---------------------------------------------------------------------------------------------
  // From views to runs

  /** POSTs made for a row so far: every logged attempt but those whose request could not be built. */
  function PostsIn(log: seq<Outcome>): nat {
    if log == [] then 0
    else PostsIn(log[..|log| - 1]) + if log[|log| - 1] == BuildError then 0 else 1
  }

  function Posts(s: System, id: Id): nat {
    PostsIn(Log(s, id))
  }

  ghost predicate Accounted(s: System, id: Id) {
    Posts(s, id) <= Spent(Views(s, id), StoredLevel(s.rows, id))
  }

  lemma {:induction false} FindAt(queue: seq<Snapshot>, id: Id, i: nat)
    requires i < |queue| && queue[i].id == id
    requires forall j, k :: 0 <= j < k < |queue| ==> queue[j].id != queue[k].id
    ensures Find(queue, id) == Some(queue[i].row.attempts)
  {
    if i > 0 {
      FindAt(queue[1..], id, i - 1);
    }
  }

  lemma {:induction false} FindNone(queue: seq<Snapshot>, id: Id)
    requires forall i :: 0 <= i < |queue| ==> queue[i].id != id
    ensures Find(queue, id) == None
  {
    if queue != [] {
      FindNone(queue[1..], id);
    }
  }

  lemma OneViewChanges(s: System, t: System, w: nat, id: Id)
    requires w < |s.workers| == |t.workers| && t.workers == s.workers[w := t.workers[w]]
    ensures Views(t, id) == Views(s, id)[w := ViewOf(t.workers[w], id)]
  {
  }

  lemma PollKeepsAccount(s: System, w: nat, batch: seq<Snapshot>, id: Id)
    requires SystemOk(s) && Enabled(s, Poll(w, batch)) && Accounted(s, id)
    ensures Accounted(Apply(s, Poll(w, batch)), id)
  {
    var t := Apply(s, Poll(w, batch));
    OneViewChanges(s, t, w, id);
    if i :| 0 <= i < |batch| && batch[i].id == id {
      FindAt(batch, id, i);
      ReadKeepsSpent(Views(s, id), StoredLevel(s.rows, id), w, batch[i].row.attempts);
    } else {
      FindNone(batch, id);
      assert Views(t, id) == Views(s, id);
    }
  }

  /** What a worker owes after an attempt on its copy. */
  function LeftAfter(fd: Snapshot, outcome: Outcome): int {
    var u := AttemptUpdate(fd, outcome);
    if u.status.Pending? then MAX_ATTEMPTS - u.attempts else 0
  }

  lemma AttemptView(worker: Worker, outcome: Outcome)
    requires worker.owed.None? && worker.queue != []
    ensures var fd := worker.queue[0];
            && ViewOf(worker, fd.id) == Holds(fd.row.attempts)
            && ViewOf(Worker(worker.queue[1..], Some(AttemptUpdate(fd, outcome))), fd.id) == Owes(LeftAfter(fd, outcome))
  {
  }

  lemma OtherAttemptView(worker: Worker, outcome: Outcome, id: Id)
    requires worker.owed.None? && worker.queue != [] && worker.queue[0].id != id
    ensures ViewOf(Worker(worker.queue[1..], Some(AttemptUpdate(worker.queue[0], outcome))), id) == ViewOf(worker, id)
  {
  }

  lemma AttemptKeepsAccount(s: System, w: nat, outcome: Outcome, id: Id)
    requires SystemOk(s) && Enabled(s, Attempt(w, outcome)) && Accounted(s, id)
    ensures Accounted(Apply(s, Attempt(w, outcome)), id)
  {
    var t := Apply(s, Attempt(w, outcome));
    var fd := s.workers[w].queue[0];
    OneViewChanges(s, t, w, id);
    if fd.id == id {
      assert WorkerOk(s.rows, s.workers[w]);
      AttemptView(s.workers[w], outcome);
      AttemptSpendsOne(Views(s, id), StoredLevel(s.rows, id), w, LeftAfter(fd, outcome));
    } else {
      OtherAttemptView(s.workers[w], outcome, id);
      assert Views(t, id) == Views(s, id);
    }
  }

  lemma CommitKeepsAccount(s: System, w: nat, id: Id)
    requires SystemOk(s) && Enabled(s, Commit(w)) && Accounted(s, id)
    ensures Accounted(Apply(s, Commit(w)), id)
  {
    var t := Apply(s, Commit(w));
    var u := s.workers[w].owed.value;
    assert WorkerOk(s.rows, s.workers[w]);
    OneViewChanges(s, t, w, id);
    if u.id == id {
      FindNone(s.workers[w].queue, id);
      CommitKeepsSpent(Views(s, id), StoredLevel(s.rows, id), w);
    } else {
      assert Views(t, id) == Views(s, id);
    }
  }

  lemma {:induction false} RunKeepsAccount(s: System, acts: seq<Action>, id: Id)
    requires SystemOk(s) && Accounted(s, id) && Exec(s, acts).Some?
    ensures Accounted(Exec(s, acts).value, id)
    decreases |acts|
  {
    if acts != [] {
      var t := Apply(s, acts[0]);
      StepKeepsOk(s, acts[0]);
      match acts[0] {
        case Enqueue(_, _, _, _) =>
          assert Views(t, id) == Views(s, id);
        case Poll(w, batch) => PollKeepsAccount(s, w, batch, id);
        case Attempt(w, outcome) => AttemptKeepsAccount(s, w, outcome, id);
        case Commit(w) => CommitKeepsAccount(s, w, id);
      }
      RunKeepsAccount(t, acts[1..], id);
    }
  }

  /** Whatever the interleaving and whatever the remote side answers, n workers make at most
      PostLimit(n) POSTs for one row, although they may overwrite one another's statuses. */
  lemma PostsAreBounded(n: nat, acts: seq<Action>, id: Id)
    requires Exec(Init(n), acts).Some?
    ensures Posts(Exec(Init(n), acts).value, id) <= PostLimit(n)
  {
    var t := Exec(Init(n), acts).value;
    RunKeepsOk(Init(n), acts);
    RunKeepsAccount(Init(n), acts, id);
    var vs, stored := Views(t, id), StoredLevel(t.rows, id);
    IdleOrOwing(vs);
    CreditAboveFirst(vs, stored, MAX_ATTEMPTS);
  }

  // ---------------------------------------------------------------------------------------------
  // The limit in closed form

  /** n * (n + 1) * ... * (n + m - 1) */
  function Rising(n: nat, m: nat): nat {
    if m == 0 then 1 else Rising(n, m - 1) * (n + m - 1)
  }

  lemma Regroup(a: nat, b: nat, c: nat)
    ensures a * b * c == a * (b * c)
  {
  }

  lemma {:induction false} RisingFront(n: nat, m: nat)
    requires 1 <= m
    ensures Rising(n, m) == n * Rising(n + 1, m - 1)
  {
    if m > 1 {
      RisingFront(n, m - 1);
      Regroup(n, Rising(n + 1, m - 2), n + m - 1);
    }
  }

  lemma Recombine(f: nat, m: nat, a: nat, b: nat, r: nat, n: nat)
    requires 1 <= n && f * m * a == (n - 1) * r && f * b == r
    ensures f * m * (a + b) == r * (n + m - 1)
  {
    assert f * m * (a + b) == f * m * a + f * m * b;
    assert f * m * b == f * b * m;
    assert (n - 1) * r + r * m == r * (n + m - 1);
  }

  lemma {:induction false} MultichooseIs(n: nat, m: nat)
    ensures Rising(1, m) * Multichoose(n, m) == Rising(n, m)
    decreases n + m
  {
    if m > 0 {
      if n == 0 {
        RisingFront(0, m);
      } else {
        MultichooseIs(n - 1, m);
        MultichooseIs(n, m - 1);
        RisingFront(n - 1, m);
        Recombine(Rising(1, m - 1), m, Multichoose(n - 1, m), Multichoose(n, m - 1), Rising(n, m - 1), n);
      }
    }
  }

  /** The limit is the binomial coefficient of n + 5 over 5, less one. */
  lemma PostLimitClosedForm(n: nat)
    ensures 120 * (PostLimit(n) + 1) == (n + 1) * (n + 2) * (n + 3) * (n + 4) * (n + 5)
  {
    SumUpToIs(n, MAX_ATTEMPTS);
    MultichooseIs(n + 1, MAX_ATTEMPTS);
    assert Rising(1, 5) == 120;
    assert Rising(n + 1, 1) == n + 1;
    assert Rising(n + 1, 2) == (n + 1) * (n + 2);
    assert Rising(n + 1, 3) == (n + 1) * (n + 2) * (n + 3);
    assert Rising(n + 1, 4) == (n + 1) * (n + 2) * (n + 3) * (n + 4);
  }

  /** One worker makes five POSTs at most, the application together with the worker process twenty. */
  lemma PostLimitOfSmallFleets()
    ensures PostLimit(1) == 5 && PostLimit(2) == 20
  {
    PostLimitClosedForm(1);
    PostLimitClosedForm(2);
  }
}
