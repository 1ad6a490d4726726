/** At most 9 + c + d failures, and one more for each fault, are recorded in less than the window. */
module LimiterBound {
  import opened Wrappers
  import opened RateLimiter

  /** Counts since the start of a window: failures, checks without an answer, lost renewals, and of the failures
      those that the counter may have lost. `safe` says that the counter cannot expire inside the window any more. */
  datatype Tally = Tally(failures: nat, unchecked: nat, dropped: nat, lost: nat, safe: bool)

  predicate Lasting(s: State, ip: string, start: int) {
    ip in s.counters && (s.counters[ip].expires.None? || s.counters[ip].expires.value >= start + WINDOW)
  }

  ghost predicate Counted(s: State, ip: string, c: nat, d: nat, t: Tally, start: int, now: int) {
    && t.lost <= t.failures
    && t.lost <= d + t.dropped
    && if t.safe then
         var kept := t.failures - t.lost;
         && Lasting(s, ip, start) && s.counters[ip].count >= kept
         && (kept >= MAX_ATTEMPTS ==> Pending(s, ip) + kept < MAX_ATTEMPTS + c + t.unchecked)
       else
         && !Lasting(s, ip, start) && t.lost == t.failures
         && (Alive(s.counters, ip, now) ==> t.failures <= Halfway(s, ip) + t.dropped)
  }

  /** The tally after an event: once the counter cannot expire in the window, no more failures get lost. */
  function NextTally(s: State, t: Tally, e: Event, ip: string, start: int): Tally
    requires Enabled(s, e)
  {
    var failures := t.failures + if IsFailure(e, ip) then 1 else 0;
    var unchecked := t.unchecked + if e.ip == ip && e.step == CheckFails then 1 else 0;
    var dropped := t.dropped + if e.ip == ip && e.step == Drop then 1 else 0;
    if t.safe then Tally(failures, unchecked, dropped, t.lost, true)
    else if Lasting(Apply(s, e), ip, start) then Tally(failures, unchecked, dropped, t.failures, true)
    else Tally(failures, unchecked, dropped, failures, false)
  }

  lemma EventKeepsCount(s: State, e: Event, ip: string, c: nat, d: nat, t: Tally, start: int, now: int)
    requires Enabled(s, e) && Counted(s, ip, c, d, t, start, now)
    requires Within(s, ip, c, d) && Within(Apply(s, e), ip, c, d)
    requires start <= e.time < start + WINDOW && now <= e.time
    ensures Counted(Apply(s, e), ip, c, d, NextTally(s, t, e, ip, start), start, e.time)
  {
  }

  lemma {:induction false} WindowHoldsFew(s: State, events: seq<Event>, ip: string, c: nat, d: nat, t: Tally,
                                          start: int, now: int)
    requires Run(s, events, ip, c, d) && Counted(s, ip, c, d, t, start, now) && InTime(events)
    requires forall i :: 0 <= i < |events| ==> start <= events[i].time < start + WINDOW && now <= events[i].time
    ensures t.failures + Failures(events, ip) < MAX_ATTEMPTS + c + d + t.unchecked + t.dropped + Faults(events, ip)
    decreases |events|
  {
    if events != [] {
      var e := events[0];
      EventKeepsCount(s, e, ip, c, d, t, start, now);
      WindowHoldsFew(Apply(s, e), events[1..], ip, c, d, NextTally(s, t, e, ip, start), start, e.time);
    }
  }

  lemma {:induction false} RunSlice(s: State, events: seq<Event>, ip: string, c: nat, d: nat, i: nat, j: nat)
    returns (t: State)
    requires Run(s, events, ip, c, d) && i <= j <= |events|
    ensures Run(t, events[i..j], ip, c, d)
    decreases |events|
  {
    if i > 0 {
      t := RunSlice(Apply(s, events[0]), events[1..], ip, c, d, i - 1, j - 1);
      assert events[1..][i - 1..j - 1] == events[i..j];
    } else {
      RunPrefix(s, events, ip, c, d, j);
      assert events[0..j] == events[..j];
      t := s;
    }
  }

  lemma {:induction false} RunPrefix(s: State, events: seq<Event>, ip: string, c: nat, d: nat, j: nat)
    requires Run(s, events, ip, c, d) && j <= |events|
    ensures Run(s, events[..j], ip, c, d)
    decreases j
  {
    if j > 0 {
      RunPrefix(Apply(s, events[0]), events[1..], ip, c, d, j - 1);
      assert events[..j][1..] == events[1..][..j - 1];
    }
  }

  /** When at most c attempts from an address are ever behind their check and at most d inside their record,
      a stretch of any run with 10 + c + d failures of that address, and one more for each fault in it, lasts
      the whole window at least: 11 failures when attempts are sequential and each record takes effect at
      one moment. */
  lemma SlidingWindow(events: seq<Event>, ip: string, c: nat, d: nat, i: nat, j: nat)
    requires Run(START, events, ip, c, d) && InTime(events) && i < j <= |events|
    requires Failures(events[i..j], ip) >= 10 + c + d + Faults(events[i..j], ip)
    ensures events[j - 1].time - events[i].time >= 900
  {
    var slice := events[i..j];
    var start := events[i].time;
    var s := RunSlice(START, events, ip, c, d, i, j);
    if events[j - 1].time - start < WINDOW {
      forall k | 0 <= k < |slice| ensures start <= slice[k].time < start + WINDOW {
        assert slice[k] == events[i + k];
      }
      var t := Tally(0, 0, 0, 0, Lasting(s, ip, start));
      WindowHoldsFew(s, slice, ip, c, d, t, start, start);
    }
  }
}
