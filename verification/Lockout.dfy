/** Login with a per-email lockout: the control flow of `authenticate` and its failed-attempt table. */
module Lockout {
  import opened Collections

  const MAX_FAILED_ATTEMPTS := 10
  const LOCKOUT_WINDOW_SECS := 900
  const MAX_ENTRIES := 10_000
  const U64_MAX := 0xFFFF_FFFF_FFFF_FFFF

  datatype Attempt = Attempt(count: nat, firstFailureAt: nat)

  datatype User = User(passwordHash: string, enabled: bool, mfaEnabled: bool, lastLogin: nat, loginCount: nat)

  datatype AuthResult =
    | Success(userId: string)
    | InvalidCredentials
    | AccountDisabled
    | MfaRequired(userId: string)
    | LockedOut(retryAfterSecs: nat)

  type Attempts = map<string, Attempt>

  // ----- the failed-attempt table

  function Expired(a: Attempt, now: nat): bool {
    now >= a.firstFailureAt && now - a.firstFailureAt >= LOCKOUT_WINDOW_SECS
  }

  function RetryAfter(attempts: Attempts, email: string, now: nat): Option<nat> {
    if email !in attempts || attempts[email].count < MAX_FAILED_ATTEMPTS || Expired(attempts[email], now) then None
    else
      var elapsed := if now >= attempts[email].firstFailureAt then now - attempts[email].firstFailureAt else 0;
      Some(LOCKOUT_WINDOW_SECS - elapsed)
  }

  /** A full count whose window is over is forgotten when it is looked at. */
  function Checked(attempts: Attempts, email: string, now: nat): Attempts {
    if email in attempts && attempts[email].count >= MAX_FAILED_ATTEMPTS && Expired(attempts[email], now)
    then attempts - {email} else attempts
  }

  function Cutoff(now: nat): nat {
    if now >= LOCKOUT_WINDOW_SECS then now - LOCKOUT_WINDOW_SECS else 0
  }

  function Pruned(attempts: Attempts, now: nat): Attempts {
    if |attempts| < MAX_ENTRIES then attempts
    else map k | k in attempts && attempts[k].firstFailureAt >= Cutoff(now) :: attempts[k]
  }

  ghost predicate IsOldest(attempts: Attempts, k: string) {
    k in attempts && forall x :: x in attempts ==> attempts[k].firstFailureAt <= attempts[x].firstFailureAt
  }

  /** At the cap one oldest entry goes; ties are broken by the iteration order of the table. */
  ghost predicate ValidVictim(attempts: Attempts, now: nat, victim: Option<string>) {
    var pruned := Pruned(attempts, now);
    if |pruned| >= MAX_ENTRIES then victim.Some? && IsOldest(pruned, victim.value) else victim == None
  }

  function Evicted(attempts: Attempts, victim: Option<string>): Attempts {
    if victim.Some? then attempts - {victim.value} else attempts
  }

  function Recorded(attempts: Attempts, email: string, now: nat, victim: Option<string>): Attempts {
    var table := Evicted(Pruned(attempts, now), victim);
    table[email := if email in table then table[email].(count := table[email].count + 1) else Attempt(1, now)]
  }

  // ----- one call of authenticate

  datatype State = State(users: map<string, User>, emailIndex: map<string, string>, attempts: Attempts)

  function UserOf(s: State, email: string): Option<User> {
    if email in s.emailIndex && s.emailIndex[email] in s.users then Some(s.users[s.emailIndex[email]]) else None
  }

  /** What the password decides, the lockout aside. */
  function Decision(s: State, verify: (string, string) -> bool, email: string, password: string): AuthResult {
    match UserOf(s, email)
    case None => InvalidCredentials
    case Some(user) =>
      if !user.enabled then AccountDisabled
      else if !verify(password, user.passwordHash) then InvalidCredentials
      else if user.mfaEnabled then MfaRequired(s.emailIndex[email])
      else Success(s.emailIndex[email])
  }

  function Outcome(s: State, verify: (string, string) -> bool, email: string, password: string, now: nat): AuthResult {
    match RetryAfter(s.attempts, email, now)
    case Some(secs) => LockedOut(secs)
    case None => Decision(s, verify, email, password)
  }

  function LoggedIn(user: User, now: nat): User {
    user.(lastLogin := now, loginCount := user.loginCount + 1)
  }

  /** The state after an outcome; a disabled account leaves no mark. */
  function Applied(s: State, outcome: AuthResult, email: string, now: nat, victim: Option<string>): State {
    match outcome
    case LockedOut(_) => s
    case InvalidCredentials => s.(attempts := Recorded(s.attempts, email, now, victim))
    case AccountDisabled => s
    case MfaRequired(_) => s.(attempts := s.attempts - {email})
    case Success(id) =>
      State(if id in s.users then s.users[id := LoggedIn(s.users[id], now)] else s.users,
            s.emailIndex, s.attempts - {email})
  }

  function Authenticated(s: State, verify: (string, string) -> bool, email: string, password: string, now: nat,
                         victim: Option<string>): State {
    Applied(s.(attempts := Checked(s.attempts, email, now)), Outcome(s, verify, email, password, now),
            email, now, victim)
  }

  class UserManager {
    const normalize: string -> string
    const verify: (string, string) -> bool
    var users: map<string, User>
    var emailIndex: map<string, string>
    var failedAttempts: Attempts

    function Contents(): State
      reads this
    {
      State(users, emailIndex, failedAttempts)
    }

    ghost predicate Stamped()
      reads this
    {
      forall k :: k in failedAttempts ==> failedAttempts[k].firstFailureAt < U64_MAX
    }

    constructor (normalize: string -> string, verify: (string, string) -> bool)
      ensures Contents() == State(map[], map[], map[]) && Stamped()
      ensures this.normalize == normalize && this.verify == verify
    {
      this.normalize, this.verify := normalize, verify;
      users, emailIndex, failedAttempts := map[], map[], map[];
    }

    method LockoutCheck(email: string, now: nat) returns (retry: Option<nat>)
      modifies this`failedAttempts
      ensures failedAttempts == Checked(old(failedAttempts), email, now)
      ensures retry == RetryAfter(old(failedAttempts), email, now)
    {
      if email !in failedAttempts {
        return None;
      }
      var entry := failedAttempts[email];
      if entry.count < MAX_FAILED_ATTEMPTS {
        return None;
      }
      var elapsed := if now >= entry.firstFailureAt then now - entry.firstFailureAt else 0;
      if elapsed >= LOCKOUT_WINDOW_SECS {
        failedAttempts := failedAttempts - {email};
        return None;
      }
      return Some(LOCKOUT_WINDOW_SECS - elapsed);
    }

    method RecordFailure(email: string, now: nat) returns (victim: Option<string>)
      requires Stamped() && now < U64_MAX
      modifies this`failedAttempts
      ensures Stamped()
      ensures ValidVictim(old(failedAttempts), now, victim)
      ensures failedAttempts == Recorded(old(failedAttempts), email, now, victim)
    {
      victim := None;
      if |failedAttempts| >= MAX_ENTRIES {
        var cutoff := Cutoff(now);
        failedAttempts :=
          map k | k in failedAttempts && failedAttempts[k].firstFailureAt >= cutoff :: failedAttempts[k];
        if |failedAttempts| >= MAX_ENTRIES {
          var oldestTs := U64_MAX;
          var left := failedAttempts.Keys;
          while left != {}
            invariant left <= failedAttempts.Keys
            invariant victim.Some? ==> victim.value in failedAttempts.Keys - left
                                       && oldestTs == failedAttempts[victim.value].firstFailureAt
            invariant victim == None ==> oldestTs == U64_MAX && left == failedAttempts.Keys
            invariant forall k :: k in failedAttempts.Keys - left ==> oldestTs <= failedAttempts[k].firstFailureAt
            decreases left
          {
            var k :| k in left;
            var ts := failedAttempts[k].firstFailureAt;
            if ts < oldestTs {
              oldestTs := ts;
              victim := Some(k);
            }
            left := left - {k};
          }
          assert failedAttempts.Keys - left == failedAttempts.Keys;
          if victim.Some? {
            failedAttempts := failedAttempts - {victim.value};
          }
        }
      }
      if email in failedAttempts {
        failedAttempts := failedAttempts[email := failedAttempts[email].(count := failedAttempts[email].count + 1)];
      } else {
        failedAttempts := failedAttempts[email := Attempt(1, now)];
      }
    }

    method Authenticate(rawEmail: string, password: string, now: nat) returns (r: AuthResult, victim: Option<string>)
      requires Stamped() && now < U64_MAX
      modifies this
      ensures Stamped()
      ensures r == Outcome(old(Contents()), verify, normalize(rawEmail), password, now)
      ensures r.InvalidCredentials? ==>
                ValidVictim(Checked(old(failedAttempts), normalize(rawEmail), now), now, victim)
      ensures Contents() == Authenticated(old(Contents()), verify, normalize(rawEmail), password, now, victim)
    {
      victim := None;
      var email := normalize(rawEmail);
      var retry := LockoutCheck(email, now);
      if retry.Some? {
        return LockedOut(retry.value), victim;
      }
      r, victim := CheckPassword(email, password, now);
    }

    /** The rest of `authenticate`, once the lockout has let the email through. */
    method CheckPassword(email: string, password: string, now: nat) returns (r: AuthResult, victim: Option<string>)
      requires Stamped() && now < U64_MAX
      modifies this
      ensures Stamped()
      ensures r == Decision(old(Contents()), verify, email, password)
      ensures if r.InvalidCredentials? then ValidVictim(old(failedAttempts), now, victim) else victim == None
      ensures Contents() == Applied(old(Contents()), r, email, now, victim)
    {
      victim := None;
      var known := email in emailIndex && emailIndex[email] in users;
      var passwordOk := known && verify(password, users[emailIndex[email]].passwordHash);
      if !known {
        victim := RecordFailure(email, now);
        return InvalidCredentials, victim;
      }
      var id := emailIndex[email];
      if !users[id].enabled {
        return AccountDisabled, victim;
      }
      if !passwordOk {
        victim := RecordFailure(email, now);
        return InvalidCredentials, victim;
      }
      failedAttempts := failedAttempts - {email};
      if users[id].mfaEnabled {
        return MfaRequired(id), victim;
      }
      users := users[id := users[id].(lastLogin := now, loginCount := users[id].loginCount + 1)];
      return Success(id), victim;
    }
  }
}
