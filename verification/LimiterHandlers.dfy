/** What either handler does, as a run of the steps of all connections. */
module LimiterHandlers {
  import opened RateLimiter

  function Entry(a: Attempt): Event {
    Event(a.ip, a.checkedAt, if a.checkReached then Check else CheckFails)
  }

  /** The steps of an attempt. */
  function StepsOf(counters: Counters, a: Attempt, counts: bool): seq<Event> {
    if !Admitted(counters, a) then [Entry(a)]
    else if !counts || a.sent == Neither then [Entry(a), Event(a.ip, a.incrementedAt, Leave)]
    else [Entry(a), Event(a.ip, a.incrementedAt, Increment),
          Event(a.ip, a.renewedAt, if a.sent == Both then Renew else Drop)]
  }

  ghost predicate SameInFlight(s: State, t: State) {
    forall ip :: Pending(s, ip) == Pending(t, ip) && Halfway(s, ip) == Halfway(t, ip)
  }

  /** The state after an attempt. */
  function EndOf(s: State, a: Attempt, counts: bool): State {
    if !Admitted(s.counters, a) then s
    else if !counts || a.sent == Neither then Apply(Entered(s, a.ip), Event(a.ip, a.incrementedAt, Leave))
    else Apply(Apply(Entered(s, a.ip), Event(a.ip, a.incrementedAt, Increment)),
               Event(a.ip, a.renewedAt, if a.sent == Both then Renew else Drop))
  }

  lemma EntryIs(s: State, a: Attempt)
    ensures Apply(s, Entry(a)) == if Admitted(s.counters, a) then Entered(s, a.ip) else s
  {
  }

  lemma StepsReachEnd(s: State, a: Attempt, counts: bool)
    ensures Reaches(s, StepsOf(s.counters, a, counts), a.ip, Pending(s, a.ip) + 1, Halfway(s, a.ip) + 1,
                    EndOf(s, a, counts))
  {
    var c, d := Pending(s, a.ip) + 1, Halfway(s, a.ip) + 1;
    var entry := Entry(a);
    EntryIs(s, a);
    if !Admitted(s.counters, a) {
      NoStep(s, a.ip, c, d);
      OneStep(s, entry, [], a.ip, c, d, s);
      assert [entry] + [] == [entry];
    } else if !counts || a.sent == Neither {
      TwoSteps(s, entry, Event(a.ip, a.incrementedAt, Leave), a.ip, c, d);
    } else {
      var e := Event(a.ip, a.incrementedAt, Increment);
      var f := Event(a.ip, a.renewedAt, if a.sent == Both then Renew else Drop);
      TwoSteps(Entered(s, a.ip), e, f, a.ip, c, d);
      OneStep(s, entry, [e, f], a.ip, c, d, EndOf(s, a, counts));
      assert [entry] + [e, f] == [entry, e, f];
    }
  }

  lemma StepsInTime(counters: Counters, a: Attempt, counts: bool)
    ensures a.checkedAt <= a.incrementedAt <= a.renewedAt ==> InTime(StepsOf(counters, a, counts))
  {
  }

  /** What either handler does to the counters is a run of these steps, and leaves nothing in flight. */
  lemma AttemptIsARun(s: State, a: Attempt, counts: bool)
    ensures Reaches(s, StepsOf(s.counters, a, counts), a.ip, Pending(s, a.ip) + 1, Halfway(s, a.ip) + 1,
                    EndOf(s, a, counts))
    ensures EndOf(s, a, counts).counters == AfterAttempt(s.counters, a, counts)
    ensures SameInFlight(s, EndOf(s, a, counts))
    ensures a.checkedAt <= a.incrementedAt <= a.renewedAt ==> InTime(StepsOf(s.counters, a, counts))
  {
    StepsReachEnd(s, a, counts);
    StepsInTime(s.counters, a, counts);
  }
}
