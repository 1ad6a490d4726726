/**
  The limiter of login attempts: one expiring counter for each address, shared by the two
  authentication handlers of all connections.

  An attempt first checks the counter. If it fails it records that later with two commands in one pipeline,
  which increment the counter and set its time to live anew, every time. Steps of other connections fall in
  between, also between the two commands, and each of the three can get lost.
*/
module RateLimiter {
  import opened Wrappers

  const MAX_ATTEMPTS: nat := 10
  const WINDOW: int := 15 * 60

  /** A counter without `expires` stays until it gets one. */
  datatype Counter = Counter(count: nat, expires: Option<int>)

  type Counters = map<string, Counter>

  predicate Alive(counters: Counters, ip: string, now: int) {
    ip in counters && (counters[ip].expires.None? || now < counters[ip].expires.value)
  }

  /** A counter that has expired reads as zero. */
  function Count(counters: Counters, ip: string, now: int): nat {
    if Alive(counters, ip, now) then counters[ip].count else 0
  }

  function Incremented(counters: Counters, ip: string, now: int): Counters {
    if Alive(counters, ip, now) then counters[ip := counters[ip].(count := counters[ip].count + 1)]
    else counters[ip := Counter(1, None)]
  }

  /** Nothing happens if the counter is gone. */
  function Renewed(counters: Counters, ip: string, now: int): Counters {
    if Alive(counters, ip, now) then counters[ip := counters[ip].(expires := Some(now + WINDOW))] else counters
  }

  /** How far the pipeline of a record gets. */
  datatype Sent = Neither | OnlyIncrement | Both

  function Recorded(counters: Counters, ip: string, incrementedAt: int, renewedAt: int, sent: Sent): Counters {
    match sent
    case Neither => counters
    case OnlyIncrement => Incremented(counters, ip, incrementedAt)
    case Both => Renewed(Incremented(counters, ip, incrementedAt), ip, renewedAt)
  }

  class Limiter {
    var counters: Counters

    constructor ()
      ensures counters == map[]
    {
      counters := map[];
    }

    /** No answer when Redis fails. */
    method CheckLoginAttempts(ip: string, now: int, reached: bool) returns (allowed: Option<bool>)
      ensures allowed == if reached then Some(Count(counters, ip, now) < 10) else None
    {
      if !reached {
        return None;
      }
      var count := 0;
      if ip in counters && (counters[ip].expires.None? || now < counters[ip].expires.value) {
        count := counters[ip].count;
      }
      return Some(count < MAX_ATTEMPTS);
    }

    method RecordLoginAttempt(ip: string, incrementedAt: int, renewedAt: int, sent: Sent) returns (ok: bool)
      modifies this
      ensures counters == Recorded(old(counters), ip, incrementedAt, renewedAt, sent)
      ensures ok <==> sent == Both
      ensures sent == Neither ==> counters == old(counters)
      ensures sent != Neither ==> ip in counters && counters[ip].count == old(Count(counters, ip, incrementedAt)) + 1
      ensures var prior := old(if Alive(counters, ip, incrementedAt) then counters[ip].expires else None);
              && (sent == OnlyIncrement ==> counters[ip].expires == prior)
              && (sent == Both ==>
                    counters[ip].expires
                    == if prior == None || renewedAt < prior.value then Some(renewedAt + 900) else prior)
    {
      if sent == Neither {
        return false;
      }
      var counter := Counter(0, None);
      if Alive(counters, ip, incrementedAt) {
        counter := counters[ip];
      }
      counters := counters[ip := counter.(count := counter.count + 1)];
      if sent == OnlyIncrement {
        return false;
      }
      if Alive(counters, ip, renewedAt) {
        counters := counters[ip := counters[ip].(expires := Some(renewedAt + WINDOW))];
      }
      return true;
    }
  }

  /** What the database and the password check find out about an attempt. */
  datatype PasswordFinding = LookupFailed | UnknownUser | LockedUser | WrongPassword | RightPassword

  datatype KeyFinding = KeyLookupFailed | UnknownKey | UserMissing | KeyOfLockedUser | KnownKey

  /** One connection trying to log in: when its commands run, and which of them get through. */
  datatype Attempt = Attempt(ip: string, checkedAt: int, checkReached: bool, incrementedAt: int, renewedAt: int,
                             sent: Sent)

  /** When the check fails the attempt goes on. */
  predicate Admitted(counters: Counters, a: Attempt) {
    !a.checkReached || Count(counters, a.ip, a.checkedAt) < MAX_ATTEMPTS
  }

  function AfterAttempt(counters: Counters, a: Attempt, counts: bool): Counters {
    if Admitted(counters, a) && counts then Recorded(counters, a.ip, a.incrementedAt, a.renewedAt, a.sent) else counters
  }

  /** A record that takes effect at one moment adds one failure, which is remembered for fifteen minutes from
      then; other addresses are not touched. */
  ghost predicate RecordsAtOnce(before: Counters, after: Counters, a: Attempt) {
    a.sent == Both && a.incrementedAt == a.renewedAt ==>
      && a.ip in after && after[a.ip].expires == Some(a.renewedAt + 900)
      && after[a.ip].count == Count(before, a.ip, a.renewedAt) + 1
      && forall ip :: ip != a.ip ==> (ip in after <==> ip in before) && (ip in after ==> after[ip] == before[ip])
  }

  class Server {
    const limiter: Limiter

    constructor (limiter: Limiter)
      ensures this.limiter == limiter
    {
      this.limiter := limiter;
    }

    /** A failed look-up, an unknown user and a wrong password count as failed logins, a locked account does not. */
    method HandlePasswordAuth(a: Attempt, finding: PasswordFinding) returns (accepted: bool)
      modifies limiter
      ensures accepted <==>
                (!a.checkReached || Count(old(limiter.counters), a.ip, a.checkedAt) < 10) && finding == RightPassword
      ensures limiter.counters
           == AfterAttempt(old(limiter.counters), a, finding in {LookupFailed, UnknownUser, WrongPassword})
      ensures finding in {LookupFailed, UnknownUser, WrongPassword} && Admitted(old(limiter.counters), a) ==>
                RecordsAtOnce(old(limiter.counters), limiter.counters, a)
    {
      var allowed := limiter.CheckLoginAttempts(a.ip, a.checkedAt, a.checkReached);
      if allowed == Some(false) {
        return false;
      }
      match finding
      case LookupFailed | UnknownUser | WrongPassword =>
        var ok := limiter.RecordLoginAttempt(a.ip, a.incrementedAt, a.renewedAt, a.sent);
        return false;
      case LockedUser =>
        return false;
      case RightPassword =>
        return true;
    }

    /** Only an unknown key counts, not an error of its look-up. */
    method HandlePublicKeyAuth(a: Attempt, finding: KeyFinding) returns (accepted: bool)
      modifies limiter
      ensures accepted <==>
                (!a.checkReached || Count(old(limiter.counters), a.ip, a.checkedAt) < 10) && finding == KnownKey
      ensures limiter.counters == AfterAttempt(old(limiter.counters), a, finding == UnknownKey)
      ensures finding == UnknownKey && Admitted(old(limiter.counters), a) ==>
                RecordsAtOnce(old(limiter.counters), limiter.counters, a)
    {
      var allowed := limiter.CheckLoginAttempts(a.ip, a.checkedAt, a.checkReached);
      if allowed == Some(false) {
        return false;
      }
      match finding
      case KeyLookupFailed | UserMissing | KeyOfLockedUser =>
        return false;
      case UnknownKey =>
        var ok := limiter.RecordLoginAttempt(a.ip, a.incrementedAt, a.renewedAt, a.sent);
        return false;
      case KnownKey =>
        return true;
    }
  }

  // ---------------------------------------------------------------------------------------------
  // Timed runs of all connections

  /** `Record` is both commands at one moment; `Leave` ends an attempt that records nothing, `Drop` one whose
      second command is lost. */
  datatype Step = Check | CheckFails | Leave | Record | Increment | Renew | Drop

  datatype Event = Event(ip: string, time: int, step: Step)

  /** For each address, `pending` counts the attempts behind their check, `halfway` those between the two
      commands of their record. */
  datatype State = State(counters: Counters, pending: map<string, nat>, halfway: map<string, nat>)

  const START := State(map[], map[], map[])

  function Pending(s: State, ip: string): nat {
    if ip in s.pending then s.pending[ip] else 0
  }

  function Halfway(s: State, ip: string): nat {
    if ip in s.halfway then s.halfway[ip] else 0
  }

  predicate Enabled(s: State, e: Event) {
    match e.step
    case Check | CheckFails => true
    case Leave | Record | Increment => Pending(s, e.ip) > 0
    case Renew | Drop => Halfway(s, e.ip) > 0
  }

  function Entered(s: State, ip: string): State {
    s.(pending := s.pending[ip := Pending(s, ip) + 1])
  }

  /** A check that is refused ends its attempt at once. */
  function Apply(s: State, e: Event): State
    requires Enabled(s, e)
  {
    match e.step
    case Check => if Count(s.counters, e.ip, e.time) < MAX_ATTEMPTS then Entered(s, e.ip) else s
    case CheckFails => Entered(s, e.ip)
    case Leave => s.(pending := s.pending[e.ip := Pending(s, e.ip) - 1])
    case Record =>
      s.(counters := Renewed(Incremented(s.counters, e.ip, e.time), e.ip, e.time),
         pending := s.pending[e.ip := Pending(s, e.ip) - 1])
    case Increment =>
      State(Incremented(s.counters, e.ip, e.time), s.pending[e.ip := Pending(s, e.ip) - 1],
            s.halfway[e.ip := Halfway(s, e.ip) + 1])
    case Renew =>
      s.(counters := Renewed(s.counters, e.ip, e.time), halfway := s.halfway[e.ip := Halfway(s, e.ip) - 1])
    case Drop => s.(halfway := s.halfway[e.ip := Halfway(s, e.ip) - 1])
  }

  /** At most c attempts from `ip` are behind their check and at most d inside their record. */
  predicate Within(s: State, ip: string, c: nat, d: nat) {
    Pending(s, ip) <= c && Halfway(s, ip) <= d
  }

  /** A run that stays within these limits. */
  ghost predicate Run(s: State, events: seq<Event>, ip: string, c: nat, d: nat)
    decreases |events|
  {
    && Within(s, ip, c, d)
    && (events == [] || (Enabled(s, events[0]) && Run(Apply(s, events[0]), events[1..], ip, c, d)))
  }

  ghost function Exec(s: State, events: seq<Event>, ip: string, c: nat, d: nat): State
    requires Run(s, events, ip, c, d)
    decreases |events|
  {
    if events == [] then s else Exec(Apply(s, events[0]), events[1..], ip, c, d)
  }

  ghost predicate InTime(events: seq<Event>) {
    forall i, j :: 0 <= i < j < |events| ==> events[i].time <= events[j].time
  }

  predicate IsFailure(e: Event, ip: string) {
    e.ip == ip && (e.step == Record || e.step == Increment)
  }

  /** What makes the limiter see less: checks without an answer, and renewals that are lost. */
  predicate IsFault(e: Event, ip: string) {
    e.ip == ip && (e.step == CheckFails || e.step == Drop)
  }

  function Failures(events: seq<Event>, ip: string): nat {
    if events == [] then 0 else (if IsFailure(events[0], ip) then 1 else 0) + Failures(events[1..], ip)
  }

  function Faults(events: seq<Event>, ip: string): nat {
    if events == [] then 0 else (if IsFault(events[0], ip) then 1 else 0) + Faults(events[1..], ip)
  }

  ghost predicate Reaches(s: State, events: seq<Event>, ip: string, c: nat, d: nat, t: State) {
    Run(s, events, ip, c, d) && Exec(s, events, ip, c, d) == t
  }

  lemma NoStep(s: State, ip: string, c: nat, d: nat)
    requires Within(s, ip, c, d)
    ensures Reaches(s, [], ip, c, d, s)
  {
  }

  lemma OneStep(s: State, e: Event, rest: seq<Event>, ip: string, c: nat, d: nat, t: State)
    requires Within(s, ip, c, d) && Enabled(s, e) && Reaches(Apply(s, e), rest, ip, c, d, t)
    ensures Reaches(s, [e] + rest, ip, c, d, t)
    ensures Failures([e] + rest, ip) == Failures(rest, ip) + if IsFailure(e, ip) then 1 else 0
    ensures Faults([e] + rest, ip) == Faults(rest, ip) + if IsFault(e, ip) then 1 else 0
  {
    assert ([e] + rest)[1..] == rest;
  }

  lemma TwoSteps(s: State, e: Event, f: Event, ip: string, c: nat, d: nat)
    requires Within(s, ip, c, d) && Enabled(s, e) && Within(Apply(s, e), ip, c, d)
    requires Enabled(Apply(s, e), f) && Within(Apply(Apply(s, e), f), ip, c, d)
    ensures Reaches(s, [e, f], ip, c, d, Apply(Apply(s, e), f))
  {
    var t := Apply(Apply(s, e), f);
    NoStep(t, ip, c, d);
    OneStep(Apply(s, e), f, [], ip, c, d, t);
    OneStep(s, e, [f] + [], ip, c, d, t);
    assert [e] + ([f] + []) == [e, f];
  }

  lemma {:induction false} FailuresConcat(a: seq<Event>, b: seq<Event>, ip: string)
    ensures Failures(a + b, ip) == Failures(a, ip) + Failures(b, ip)
    ensures Faults(a + b, ip) == Faults(a, ip) + Faults(b, ip)
    decreases |a|
  {
    if a == [] {
      assert a + b == b;
    } else {
      assert (a + b)[1..] == a[1..] + b;
      FailuresConcat(a[1..], b, ip);
    }
  }

  lemma {:induction false} RunsJoin(s: State, a: seq<Event>, m: State, b: seq<Event>, t: State, ip: string, c: nat, d: nat)
    requires Reaches(s, a, ip, c, d, m) && Reaches(m, b, ip, c, d, t)
    ensures Reaches(s, a + b, ip, c, d, t)
    decreases |a|
  {
    if a == [] {
      assert a + b == b;
    } else {
      RunsJoin(Apply(s, a[0]), a[1..], m, b, t, ip, c, d);
      OneStep(s, a[0], a[1..] + b, ip, c, d, t);
      assert [a[0]] + (a[1..] + b) == a + b;
    }
  }
}
