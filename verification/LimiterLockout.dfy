/** What the limiter is for: ten failed logins lock an address out, and fifteen minutes open it again. */
module LimiterLockout {
  import opened Wrappers
  import opened RateLimiter

  datatype Login = ByPassword(a: Attempt, password: PasswordFinding) | ByKey(a: Attempt, key: KeyFinding)

  predicate Fails(l: Login) {
    match l
    case ByPassword(_, finding) => finding == WrongPassword || finding == UnknownUser || finding == LookupFailed
    case ByKey(_, finding) => finding == UnknownKey
  }

  /** Redis answers, and the record takes effect at one moment. */
  predicate Clean(a: Attempt) {
    a.checkReached && a.sent == Both && a.checkedAt <= a.incrementedAt == a.renewedAt
  }

  /** Failed logins of one address, one after the other, each less than fifteen minutes after the one before. */
  predicate Series(failures: seq<Login>, ip: string) {
    && (forall i :: 0 <= i < |failures| ==> Fails(failures[i]) && Clean(failures[i].a) && failures[i].a.ip == ip)
    && forall i :: 1 <= i < |failures| ==> Follows(failures[i - 1], failures[i])
  }

  predicate Follows(l: Login, next: Login) {
    l.a.renewedAt <= next.a.checkedAt && next.a.incrementedAt < l.a.renewedAt + 900
  }

  method Handle(server: Server, l: Login) returns (accepted: bool)
    modifies server.limiter
    ensures accepted <==> Admitted(old(server.limiter.counters), l.a)
                          && (l == ByPassword(l.a, RightPassword) || l == ByKey(l.a, KnownKey))
    ensures !Fails(l) || !Admitted(old(server.limiter.counters), l.a) ==>
              server.limiter.counters == old(server.limiter.counters)
    ensures Fails(l) && Admitted(old(server.limiter.counters), l.a) ==>
              RecordsAtOnce(old(server.limiter.counters), server.limiter.counters, l.a)
  {
    match l
    case ByPassword(a, finding) => accepted := server.HandlePasswordAuth(a, finding);
    case ByKey(a, finding) => accepted := server.HandlePublicKeyAuth(a, finding);
  }

  /** After ten failed logins that were let through, by password or by key, the next attempt less than fifteen
      minutes later is refused, even with the right password; and an address without failures before is let
      through ten times. */
  method LockOut(server: Server, ip: string, failures: seq<Login>, last: Login)
    returns (accepted: bool, ghost allAdmitted: bool)
    requires |failures| >= 10 && Series(failures, ip)
    requires last.a.ip == ip && last.a.checkReached
    requires last.a.checkedAt < failures[|failures| - 1].a.renewedAt + 900
    modifies server.limiter
    ensures allAdmitted ==> !accepted
    ensures |failures| == 10 && ip !in old(server.limiter.counters) ==> allAdmitted
  {
    allAdmitted := true;
    for i := 0 to |failures|
      invariant allAdmitted && i > 0 ==>
                  && ip in server.limiter.counters
                  && server.limiter.counters[ip].count >= i
                  && server.limiter.counters[ip].expires == Some(failures[i - 1].a.renewedAt + 900)
      invariant |failures| == 10 && ip !in old(server.limiter.counters) ==>
                  && allAdmitted
                  && (i == 0 ==> ip !in server.limiter.counters)
                  && (i > 0 ==> ip in server.limiter.counters && server.limiter.counters[ip].count == i)
    {
      assert i > 0 ==> Follows(failures[i - 1], failures[i]);
      allAdmitted := allAdmitted && Admitted(server.limiter.counters, failures[i].a);
      var ok := Handle(server, failures[i]);
    }
    accepted := Handle(server, last);
  }

  /** Fifteen minutes after the last recorded failure an attempt is let through again. */
  lemma OpenAgain(counters: Counters, ip: string, failedAt: int, a: Attempt)
    requires a.ip == ip && a.checkedAt >= failedAt + 900
    ensures Admitted(Recorded(counters, ip, failedAt, failedAt, Both), a)
  {
  }
}
