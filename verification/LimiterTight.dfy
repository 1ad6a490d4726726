/** The bound on recorded failures is exact. */
module LimiterTight {
  import opened Wrappers
  import opened RateLimiter

  /** n attempts one by one at this time, each checked and then recorded, at once or only halfway. */
  function OneByOne(ip: string, time: int, record: Step, n: nat): seq<Event> {
    if n == 0 then [] else [Event(ip, time, Check), Event(ip, time, record)] + OneByOne(ip, time, record, n - 1)
  }

  function Many(ip: string, time: int, step: Step, n: nat): seq<Event> {
    if n == 0 then [] else [Event(ip, time, step)] + Many(ip, time, step, n - 1)
  }

  /** Nine failures one by one, then c attempts that are all checked before the first of them fails. */
  function Burst(ip: string, time: int, c: nat): seq<Event> {
    OneByOne(ip, time, Record, MAX_ATTEMPTS - 1) + (Many(ip, time, Check, c) + Many(ip, time, Record, c))
  }

  /** One failure; just before its counter expires d more that get halfway; and when it has expired, their
      late renewals and a burst. */
  function Overlap(ip: string, c: nat, d: nat): seq<Event> {
    OneByOne(ip, 0, Record, 1)
    + (OneByOne(ip, WINDOW - 1, Increment, d) + (Many(ip, WINDOW, Renew, d) + Burst(ip, WINDOW, c)))
  }

  /** What a run has reached. */
  predicate Stands(s: State, ip: string, time: int, count: nat, pending: nat, halfway: nat) {
    Pending(s, ip) == pending && Halfway(s, ip) == halfway && Count(s.counters, ip, time) == count
  }

  /** One attempt that is checked and recorded with nothing in between. */
  lemma OneFailure(s: State, ip: string, time: int, record: Step, rest: seq<Event>, c: nat, d: nat, t: State)
    requires record == Record || record == Increment
    requires Within(s, ip, c, d) && Pending(s, ip) < c && Count(s.counters, ip, time) < MAX_ATTEMPTS
    requires record == Increment ==> Halfway(s, ip) < d
    requires Reaches(Apply(Entered(s, ip), Event(ip, time, record)), rest, ip, c, d, t)
    ensures var events := [Event(ip, time, Check), Event(ip, time, record)] + rest;
            && Reaches(s, events, ip, c, d, t)
            && Failures(events, ip) == Failures(rest, ip) + 1 && Faults(events, ip) == Faults(rest, ip)
  {
    OneStep(Entered(s, ip), Event(ip, time, record), rest, ip, c, d, t);
    OneStep(s, Event(ip, time, Check), [Event(ip, time, record)] + rest, ip, c, d, t);
    assert [Event(ip, time, Check)] + ([Event(ip, time, record)] + rest)
        == [Event(ip, time, Check), Event(ip, time, record)] + rest;
  }

  lemma {:induction false} RecordsOneByOne(s: State, ip: string, time: int, c: nat, d: nat, n: nat) returns (t: State)
    requires Within(s, ip, c, d) && Pending(s, ip) < c && Count(s.counters, ip, time) + n <= MAX_ATTEMPTS
    ensures Reaches(s, OneByOne(ip, time, Record, n), ip, c, d, t)
    ensures Stands(t, ip, time, Count(s.counters, ip, time) + n, Pending(s, ip), Halfway(s, ip))
    ensures n > 0 ==> ip in t.counters && t.counters[ip].expires == Some(time + WINDOW)
    ensures Failures(OneByOne(ip, time, Record, n), ip) == n && Faults(OneByOne(ip, time, Record, n), ip) == 0
    decreases n
  {
    if n == 0 {
      t := s;
      NoStep(s, ip, c, d);
    } else {
      var u := Apply(Entered(s, ip), Event(ip, time, Record));
      t := RecordsOneByOne(u, ip, time, c, d, n - 1);
      if n == 1 {
        assert Reaches(u, [], ip, c, d, u) && t == u;
      }
      OneFailure(s, ip, time, Record, OneByOne(ip, time, Record, n - 1), c, d, t);
    }
  }

  /** A counter that runs out at the end of the window. */
  predicate RunsOut(s: State, ip: string, count: nat) {
    ip in s.counters && s.counters[ip] == Counter(count, Some(WINDOW))
  }

  lemma {:induction false} IncrementsOneByOne(s: State, ip: string, k: nat, c: nat, d: nat, n: nat) returns (t: State)
    requires Within(s, ip, c, d) && Pending(s, ip) == 0 < c && Halfway(s, ip) + n == d
    requires RunsOut(s, ip, k) && k + n <= MAX_ATTEMPTS
    ensures Reaches(s, OneByOne(ip, WINDOW - 1, Increment, n), ip, c, d, t)
    ensures RunsOut(t, ip, k + n) && Pending(t, ip) == 0 && Halfway(t, ip) == d
    ensures Failures(OneByOne(ip, WINDOW - 1, Increment, n), ip) == n
    ensures Faults(OneByOne(ip, WINDOW - 1, Increment, n), ip) == 0
    decreases n
  {
    if n == 0 {
      t := s;
      NoStep(s, ip, c, d);
    } else {
      var u := Apply(Entered(s, ip), Event(ip, WINDOW - 1, Increment));
      t := IncrementsOneByOne(u, ip, k + 1, c, d, n - 1);
      OneFailure(s, ip, WINDOW - 1, Increment, OneByOne(ip, WINDOW - 1, Increment, n - 1), c, d, t);
    }
  }

  lemma {:induction false} LateRenewals(s: State, ip: string, k: nat, c: nat, d: nat, n: nat) returns (t: State)
    requires Within(s, ip, c, d) && Pending(s, ip) == 0 && Halfway(s, ip) == n && RunsOut(s, ip, k)
    ensures Reaches(s, Many(ip, WINDOW, Renew, n), ip, c, d, t)
    ensures Stands(t, ip, WINDOW, 0, 0, 0)
    ensures Failures(Many(ip, WINDOW, Renew, n), ip) == 0 && Faults(Many(ip, WINDOW, Renew, n), ip) == 0
    decreases n
  {
    if n == 0 {
      t := s;
      NoStep(s, ip, c, d);
    } else {
      var e := Event(ip, WINDOW, Renew);
      t := LateRenewals(Apply(s, e), ip, k, c, d, n - 1);
      OneStep(s, e, Many(ip, WINDOW, Renew, n - 1), ip, c, d, t);
    }
  }

  lemma {:induction false} ChecksAtOnce(s: State, ip: string, time: int, c: nat, d: nat, n: nat) returns (t: State)
    requires Within(s, ip, c, d) && Pending(s, ip) + n <= c && Count(s.counters, ip, time) < MAX_ATTEMPTS
    ensures Reaches(s, Many(ip, time, Check, n), ip, c, d, t)
    ensures Pending(t, ip) == Pending(s, ip) + n && Halfway(t, ip) == Halfway(s, ip)
    ensures Failures(Many(ip, time, Check, n), ip) == 0 && Faults(Many(ip, time, Check, n), ip) == 0
    decreases n
  {
    if n == 0 {
      t := s;
      NoStep(s, ip, c, d);
    } else {
      t := ChecksAtOnce(Entered(s, ip), ip, time, c, d, n - 1);
      OneStep(s, Event(ip, time, Check), Many(ip, time, Check, n - 1), ip, c, d, t);
    }
  }

  lemma {:induction false} RecordsAtOnce(s: State, ip: string, time: int, c: nat, d: nat, n: nat) returns (t: State)
    requires Within(s, ip, c, d) && Pending(s, ip) == n
    ensures Reaches(s, Many(ip, time, Record, n), ip, c, d, t)
    ensures Failures(Many(ip, time, Record, n), ip) == n && Faults(Many(ip, time, Record, n), ip) == 0
    decreases n
  {
    if n == 0 {
      t := s;
      NoStep(s, ip, c, d);
    } else {
      var e := Event(ip, time, Record);
      t := RecordsAtOnce(Apply(s, e), ip, time, c, d, n - 1);
      OneStep(s, e, Many(ip, time, Record, n - 1), ip, c, d, t);
    }
  }

  lemma BurstRuns(s: State, ip: string, time: int, c: nat, d: nat) returns (t: State)
    requires 1 <= c && Within(s, ip, c, d) && Stands(s, ip, time, 0, 0, Halfway(s, ip))
    ensures Reaches(s, Burst(ip, time, c), ip, c, d, t)
    ensures Failures(Burst(ip, time, c), ip) == MAX_ATTEMPTS - 1 + c && Faults(Burst(ip, time, c), ip) == 0
  {
    var s1 := RecordsOneByOne(s, ip, time, c, d, MAX_ATTEMPTS - 1);
    var s2 := ChecksAtOnce(s1, ip, time, c, d, c);
    t := RecordsAtOnce(s2, ip, time, c, d, c);
    var first, second, third := OneByOne(ip, time, Record, MAX_ATTEMPTS - 1), Many(ip, time, Check, c),
                                Many(ip, time, Record, c);
    RunsJoin(s1, second, s2, third, t, ip, c, d);
    RunsJoin(s, first, s1, second + third, t, ip, c, d);
    FailuresConcat(second, third, ip);
    FailuresConcat(first, second + third, ip);
  }

  lemma {:induction false} ManyAt(ip: string, time: int, step: Step, n: nat)
    ensures forall i :: 0 <= i < |Many(ip, time, step, n)| ==> Many(ip, time, step, n)[i].time == time
  {
    if n > 0 {
      ManyAt(ip, time, step, n - 1);
    }
  }

  lemma {:induction false} OneByOneAt(ip: string, time: int, record: Step, n: nat)
    ensures forall i :: 0 <= i < |OneByOne(ip, time, record, n)| ==> OneByOne(ip, time, record, n)[i].time == time
    ensures |OneByOne(ip, time, record, n)| == 2 * n
  {
    if n > 0 {
      OneByOneAt(ip, time, record, n - 1);
    }
  }

  ghost predicate AllAt(events: seq<Event>, time: int) {
    forall i :: 0 <= i < |events| ==> events[i].time == time
  }

  lemma BurstAt(ip: string, time: int, c: nat)
    ensures AllAt(Burst(ip, time, c), time)
  {
    OneByOneAt(ip, time, Record, MAX_ATTEMPTS - 1);
    ManyAt(ip, time, Check, c);
    ManyAt(ip, time, Record, c);
  }

  /** 9 + c failures can be recorded at one moment, so with whole records the number cannot be lowered. */
  lemma BurstIsPossible(ip: string, c: nat)
    requires 1 <= c
    ensures Run(START, Burst(ip, 0, c), ip, c, 0) && InTime(Burst(ip, 0, c))
    ensures Failures(Burst(ip, 0, c), ip) == 9 + c && Faults(Burst(ip, 0, c), ip) == 0
    ensures forall i :: 0 <= i < |Burst(ip, 0, c)| ==> Burst(ip, 0, c)[i].time == 0
  {
    var t := BurstRuns(START, ip, 0, c, 0);
    BurstAt(ip, 0, c);
  }

  lemma OverlapInTime(ip: string, c: nat, d: nat)
    ensures InTime(Overlap(ip, c, d))
    ensures forall i :: 2 <= i < |Overlap(ip, c, d)| ==> Overlap(ip, c, d)[i].time >= WINDOW - 1
    ensures forall i :: 0 <= i < |Overlap(ip, c, d)| ==> Overlap(ip, c, d)[i].time <= WINDOW
  {
    var first, second := OneByOne(ip, 0, Record, 1), OneByOne(ip, WINDOW - 1, Increment, d);
    var last := Many(ip, WINDOW, Renew, d) + Burst(ip, WINDOW, c);
    OneByOneAt(ip, 0, Record, 1);
    OneByOneAt(ip, WINDOW - 1, Increment, d);
    ManyAt(ip, WINDOW, Renew, d);
    BurstAt(ip, WINDOW, c);
    assert AllAt(last, WINDOW);
  }

  /** The counter of d failures can run out between the two commands of their records, and 9 + c + d failures
      then fall into one second: the part of the bound for records that are not whole is needed too. */
  lemma OverlapIsPossible(ip: string, c: nat, d: nat)
    requires 1 <= c && d <= 9
    ensures Run(START, Overlap(ip, c, d), ip, c, d) && InTime(Overlap(ip, c, d))
    ensures var stretch := Overlap(ip, c, d)[2..];
            && Failures(stretch, ip) == 9 + c + d && Faults(stretch, ip) == 0
            && forall i :: 0 <= i < |stretch| ==> 899 <= stretch[i].time <= 900
  {
    var first, second := OneByOne(ip, 0, Record, 1), OneByOne(ip, WINDOW - 1, Increment, d);
    var third, last := Many(ip, WINDOW, Renew, d), Burst(ip, WINDOW, c);
    var s1 := RecordsOneByOne(START, ip, 0, c, d, 1);
    var s2 := IncrementsOneByOne(s1, ip, 1, c, d, d);
    var s3 := LateRenewals(s2, ip, 1 + d, c, d, d);
    var s4 := BurstRuns(s3, ip, WINDOW, c, d);
    RunsJoin(s2, third, s3, last, s4, ip, c, d);
    RunsJoin(s1, second, s2, third + last, s4, ip, c, d);
    RunsJoin(START, first, s1, second + (third + last), s4, ip, c, d);
    FailuresConcat(third, last, ip);
    FailuresConcat(second, third + last, ip);
    OneByOneAt(ip, 0, Record, 1);
    assert Overlap(ip, c, d)[2..] == second + (third + last);
    OverlapInTime(ip, c, d);
  }
}
