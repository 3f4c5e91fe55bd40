/** What a login answers and what it leaves on the account, in terms of the password and the stored hash. */
module LoginOutcomes {
  import opened Collections
  import opened Lockout
  import opened LockoutRuns
  import opened LockoutEviction

  /** Ten failures and less than 900 seconds since the first of them. */
  ghost predicate Locked(s: State, email: string, now: nat) {
    && email in s.attempts && s.attempts[email].count >= 10
    && now < s.attempts[email].firstFailureAt + 900
  }

  /** The email is `id`'s, and that user exists. */
  ghost predicate Names(s: State, email: string, id: string) {
    email in s.emailIndex && s.emailIndex[email] == id && id in s.users
  }

  /**
   After every run: a login gets in, or is asked for its second factor, if and only if the email is not locked, its
   user exists and is enabled, and the password verifies against the stored hash.
   */
  lemma LetInIff(verify: (string, string) -> bool, run: seq<Event>, id: string)
    requires IsRun(verify, run) && run != [] && run[|run| - 1].Login?
    ensures var s, login := After(verify, run[..|run| - 1]), run[|run| - 1];
            var r := LastOutcome(verify, run);
            var accepted := && !Locked(s, login.email, login.now) && Names(s, login.email, id) && s.users[id].enabled
                            && verify(login.password, s.users[id].passwordHash);
            && (r == Success(id) <==> accepted && !s.users[id].mfaEnabled)
            && (r == MfaRequired(id) <==> accepted && s.users[id].mfaEnabled)
  {
  }

  /** And why it is refused otherwise. */
  lemma RefusedIff(verify: (string, string) -> bool, run: seq<Event>)
    requires IsRun(verify, run) && run != [] && run[|run| - 1].Login?
    ensures var s, login := After(verify, run[..|run| - 1]), run[|run| - 1];
            var r, email, now := LastOutcome(verify, run), login.email, login.now;
            && (r.LockedOut? <==> Locked(s, email, now))
            && (r.AccountDisabled? <==>
                  !Locked(s, email, now) && exists id :: Names(s, email, id) && !s.users[id].enabled)
            && (r.InvalidCredentials? <==>
                  && !Locked(s, email, now)
                  && forall id :: Names(s, email, id) ==>
                       s.users[id].enabled && !verify(login.password, s.users[id].passwordHash))
  {
    var s, login := After(verify, run[..|run| - 1]), run[|run| - 1];
    if UserOf(s, login.email).Some? {
      assert Names(s, login.email, s.emailIndex[login.email]);
    }
  }

  // ----- the account

  /** A login that gets in as `id`. */
  ghost predicate LetsIn(s: State, verify: (string, string) -> bool, login: Event, id: string)
    requires login.Login?
  {
    && !Locked(s, login.email, login.now) && Names(s, login.email, id)
    && s.users[id].enabled && !s.users[id].mfaEnabled && verify(login.password, s.users[id].passwordHash)
  }

  ghost predicate AllLogins(events: seq<Event>) {
    forall i :: 0 <= i < |events| ==> events[i].Login?
  }

  /** When logins got in as `id`. */
  ghost function LetInTimes(s: State, verify: (string, string) -> bool, logins: seq<Event>, id: string): seq<nat>
    requires AllLogins(logins)
    decreases |logins|
  {
    if logins == [] then []
    else
      (if LetsIn(s, verify, logins[0], id) then [logins[0].now] else [])
      + LetInTimes(Step(s, verify, logins[0]), verify, logins[1..], id)
  }

  function LastOf(times: seq<nat>, otherwise: nat): nat {
    if times == [] then otherwise else times[|times| - 1]
  }

  lemma LoginChanges(s: State, verify: (string, string) -> bool, login: Event, id: string)
    requires login.Login? && id in s.users
    ensures var s' := Step(s, verify, login);
            && s'.users.Keys == s.users.Keys && s'.emailIndex == s.emailIndex
            && s'.users[id] == if LetsIn(s, verify, login, id)
                               then s.users[id].(loginCount := s.users[id].loginCount + 1, lastLogin := login.now)
                               else s.users[id]
  {
  }

  /** The account counts the logins that got in and keeps the time of the last; nothing else of it changes. */
  lemma {:induction false} AccountCountsLogins(s: State, verify: (string, string) -> bool, logins: seq<Event>,
                                               id: string)
    requires AllLogins(logins) && id in s.users
    ensures var end, times := StateAfter(s, verify, logins), LetInTimes(s, verify, logins, id);
            && end.users.Keys == s.users.Keys && end.emailIndex == s.emailIndex
            && end.users[id] == s.users[id].(loginCount := s.users[id].loginCount + |times|,
                                             lastLogin := LastOf(times, s.users[id].lastLogin))
    decreases |logins|
  {
    if logins != [] {
      var s', rest := Step(s, verify, logins[0]), logins[1..];
      LoginChanges(s, verify, logins[0], id);
      AccountCountsLogins(s', verify, rest, id);
      var later := LetInTimes(s', verify, rest, id);
      assert LetInTimes(s, verify, logins, id) ==
             if LetsIn(s, verify, logins[0], id) then [logins[0].now] + later else later;
    }
  }

  /** Logins of which none presents a password that verifies for `id` leave its account alone. */
  lemma {:induction false} WrongPasswordsLeaveNoTrace(s: State, verify: (string, string) -> bool, logins: seq<Event>,
                                                      id: string)
    requires AllLogins(logins) && id in s.users
    requires forall i :: 0 <= i < |logins| && Names(s, logins[i].email, id) ==>
               !verify(logins[i].password, s.users[id].passwordHash)
    ensures var end := StateAfter(s, verify, logins);
            id in end.users && end.users[id] == s.users[id]
    decreases |logins|
  {
    if logins != [] {
      var s', rest := Step(s, verify, logins[0]), logins[1..];
      LoginChanges(s, verify, logins[0], id);
      forall i | 0 <= i < |rest| && Names(s', rest[i].email, id)
        ensures !verify(rest[i].password, s'.users[id].passwordHash)
      {
        assert rest[i] == logins[i + 1];
      }
      WrongPasswordsLeaveNoTrace(s', verify, rest, id);
    }
  }

  // ----- the failed attempts

  /** A full count whose window is over no longer counts. */
  ghost function Standing(s: State, email: string, now: nat): Attempts {
    if email in s.attempts && s.attempts[email].count >= 10 && !Locked(s, email, now) then s.attempts - {email}
    else s.attempts
  }

  /** At 10,000 entries only those of the last 900 seconds stay, and of 10,000 such ones not the oldest. */
  ghost predicate Stays(table: Attempts, k: string, now: nat, victim: Option<string>) {
    k in table && victim != Some(k) && (|table| < 10_000 || now <= table[k].firstFailureAt + 900)
  }

  /** What one login does to every email's failed attempts. */
  lemma {:induction false} AttemptsAfterLogin(verify: (string, string) -> bool, run: seq<Event>, k: string)
    requires IsRun(verify, run) && run != [] && run[|run| - 1].Login?
    ensures var s, login, r := After(verify, run[..|run| - 1]), run[|run| - 1], LastOutcome(verify, run);
            var table, attempts := Standing(s, login.email, login.now), After(verify, run).attempts;
            && (r.Success? || r.MfaRequired? ==> attempts == s.attempts - {login.email})
            && (r.LockedOut? || r.AccountDisabled? ==> attempts == table)
            && (r.InvalidCredentials? ==>
                  && (k in attempts <==> k == login.email || Stays(table, k, login.now, login.victim))
                  && (k != login.email && k in attempts ==> attempts[k] == table[k])
                  && attempts[login.email] ==
                     if Stays(table, login.email, login.now, login.victim)
                     then Attempt(table[login.email].count + 1, table[login.email].firstFailureAt)
                     else Attempt(1, login.now))
  {
    var s, login := After(verify, run[..|run| - 1]), run[|run| - 1];
    assert Standing(s, login.email, login.now) == Checked(s.attempts, login.email, login.now);
  }

  /** Who makes room at the cap: an oldest entry of those that would stay otherwise, if these are still 10,000. */
  lemma VictimIsOldest(verify: (string, string) -> bool, run: seq<Event>)
    requires IsRun(verify, run) && run != [] && run[|run| - 1].Login?
    ensures var s, login, r := After(verify, run[..|run| - 1]), run[|run| - 1], LastOutcome(verify, run);
            var table := Standing(s, login.email, login.now);
            var recent := set x | x in table && Stays(table, x, login.now, None);
            if r.InvalidCredentials? && |recent| >= 10_000
            then
              && login.victim.Some? && login.victim.value in recent
              && forall x :: x in recent ==> table[login.victim.value].firstFailureAt <= table[x].firstFailureAt
            else login.victim == None
  {
    var s, login := After(verify, run[..|run| - 1]), run[|run| - 1];
    var table := Standing(s, login.email, login.now);
    assert table == Checked(s.attempts, login.email, login.now);
    var recent := set x | x in table && Stays(table, x, login.now, None);
    var pruned := Pruned(table, login.now);
    assert pruned.Keys == recent && |pruned| == |pruned.Keys|;
  }
}
