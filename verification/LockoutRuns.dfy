/** What the lockout guarantees over every sequence of logins and user changes. */
module LockoutRuns {
  import opened Collections
  import opened Lockout
  import opened Windows

  /** `Manage` is any registration, disabling, password or MFA change: it may replace the users at will. */
  datatype Event =
    | Login(now: nat, email: string, password: string, victim: Option<string>)
    | Manage(now: nat, users: map<string, User>, emailIndex: map<string, string>)

  function Step(s: State, verify: (string, string) -> bool, event: Event): State {
    match event
    case Login(now, email, password, victim) => Authenticated(s, verify, email, password, now, victim)
    case Manage(_, users, emailIndex) => State(users, emailIndex, s.attempts)
  }

  function After(verify: (string, string) -> bool, run: seq<Event>): State {
    if run == [] then State(map[], map[], map[]) else Step(After(verify, run[..|run| - 1]), verify, run[|run| - 1])
  }

  function EndOf(run: seq<Event>): nat {
    if run == [] then 0 else run[|run| - 1].now
  }

  function LastOutcome(verify: (string, string) -> bool, run: seq<Event>): AuthResult
    requires run != [] && run[|run| - 1].Login?
  {
    var n := |run| - 1;
    Outcome(After(verify, run[..n]), verify, run[n].email, run[n].password, run[n].now)
  }

  /** The clock is monotone and at the cap an oldest entry is the victim. */
  ghost predicate IsRun(verify: (string, string) -> bool, run: seq<Event>) {
    run == [] ||
    var n := |run| - 1;
    && IsRun(verify, run[..n])
    && EndOf(run[..n]) <= run[n].now
    && (run[n].Login? ==>
          if LastOutcome(verify, run).InvalidCredentials?
          then
            var attempts := After(verify, run[..n]).attempts;
            ValidVictim(Checked(attempts, run[n].email, run[n].now), run[n].now, run[n].victim)
          else run[n].victim == None)
  }

  /** The failures of `email` after one more login, of whoever, with this outcome. */
  function Counting(times: seq<nat>, login: Event, outcome: AuthResult, email: string): seq<nat>
    requires login.Login?
  {
    var kept := if login.victim == Some(email) then [] else times;
    if login.email != email then kept
    else match outcome
      case InvalidCredentials => kept + [login.now]
      case Success(_) => []
      case MfaRequired(_) => []
      case _ => kept
  }

  /** Failed password checks for `email` since it last succeeded or lost its entry as the oldest at the cap. */
  function Failures(verify: (string, string) -> bool, run: seq<Event>, email: string): seq<nat> {
    if run == [] then []
    else
      var n := |run| - 1;
      var earlier := Failures(verify, run[..n], email);
      if run[n].Manage? then earlier else Counting(earlier, run[n], LastOutcome(verify, run), email)
  }

  const WINDOW := LOCKOUT_WINDOW_SECS - 1

  /** The failures come in blocks of at most ten that begin at least a lockout window apart. */
  ghost predicate Tracks(times: seq<nat>, attempts: Attempts, email: string, first: nat, previous: nat, upTo: nat) {
    && Blocked(times, MAX_FAILED_ATTEMPTS, WINDOW, first, previous, upTo)
    && (email in attempts ==>
          times != [] && times[first] == attempts[email].firstFailureAt && |times| - first == attempts[email].count)
    && (email !in attempts && times != [] ==> times[first] + LOCKOUT_WINDOW_SECS <= upTo)
  }

  lemma {:induction false} AlwaysTracks(verify: (string, string) -> bool, run: seq<Event>, email: string)
    returns (first: nat, previous: nat)
    requires IsRun(verify, run)
    ensures Tracks(Failures(verify, run, email), After(verify, run).attempts, email, first, previous, EndOf(run))
  {
    if run == [] {
      first, previous := 0, 0;
    } else {
      var n := |run| - 1;
      first, previous := AlwaysTracks(verify, run[..n], email);
      var s, times := After(verify, run[..n]), Failures(verify, run[..n], email);
      if run[n].Manage? {
        TracksLater(times, s.attempts, email, first, previous, EndOf(run[..n]), run[n].now);
      } else {
        first, previous := LoginTracks(s, verify, run[n], times, email, first, previous, EndOf(run[..n]));
      }
    }
  }

  lemma TracksLater(times: seq<nat>, attempts: Attempts, email: string, first: nat, previous: nat, upTo: nat, now: nat)
    requires Tracks(times, attempts, email, first, previous, upTo) && upTo <= now
    ensures Tracks(times, attempts, email, first, previous, now)
  {
    BlockedLater(times, MAX_FAILED_ATTEMPTS, WINDOW, first, previous, upTo, now);
  }

  lemma {:induction false} CheckTracks(times: seq<nat>, attempts: Attempts, who: string, email: string, first: nat,
                                       previous: nat,
                    upTo: nat, now: nat)
    requires Tracks(times, attempts, email, first, previous, upTo) && upTo <= now
    ensures Tracks(times, Checked(attempts, who, now), email, first, previous, now)
  {
    BlockedLater(times, MAX_FAILED_ATTEMPTS, WINDOW, first, previous, upTo, now);
  }

  lemma {:induction false} LoginTracks(s: State, verify: (string, string) -> bool, login: Event, times: seq<nat>,
                                       email: string,
                    first: nat, previous: nat, upTo: nat)
    returns (first': nat, previous': nat)
    requires login.Login? && Tracks(times, s.attempts, email, first, previous, upTo) && upTo <= login.now
    requires var outcome := Outcome(s, verify, login.email, login.password, login.now);
             if outcome.InvalidCredentials?
             then ValidVictim(Checked(s.attempts, login.email, login.now), login.now, login.victim)
             else login.victim == None
    ensures var outcome := Outcome(s, verify, login.email, login.password, login.now);
            var s' := Authenticated(s, verify, login.email, login.password, login.now, login.victim);
            Tracks(Counting(times, login, outcome, email), s'.attempts, email, first', previous', login.now)
  {
    var now := login.now;
    TracksLater(times, s.attempts, email, first, previous, upTo, now);
    CheckTracks(times, s.attempts, login.email, email, first, previous, upTo, now);
    first', previous' := first, previous;
    var checked := Checked(s.attempts, login.email, now);
    if Outcome(s, verify, login.email, login.password, now).InvalidCredentials? {
      if login.email == email {
        first', previous' := OwnFailure(checked, times, login, email, first, previous);
      } else {
        OtherFailure(checked, times, login, email, first, previous);
      }
    }
  }

  /** A failure of another email can prune or evict this one's entry, but not change its count. */
  lemma OtherFailure(attempts: Attempts, times: seq<nat>, login: Event, email: string, first: nat, previous: nat)
    requires login.Login? && login.email != email && ValidVictim(attempts, login.now, login.victim)
    requires Tracks(times, attempts, email, first, previous, login.now)
    ensures Tracks(Counting(times, login, InvalidCredentials, email),
                   Recorded(attempts, login.email, login.now, login.victim), email, first, previous, login.now)
  {
    PruningTracks(attempts, times, email, first, previous, login.now);
  }

  lemma PruningTracks(attempts: Attempts, times: seq<nat>, email: string, first: nat, previous: nat, now: nat)
    requires Tracks(times, attempts, email, first, previous, now)
    ensures Tracks(times, Pruned(attempts, now), email, first, previous, now)
  {
  }

  lemma {:induction false} OwnFailure(attempts: Attempts, times: seq<nat>, login: Event, email: string, first: nat,
                                      previous: nat)
    returns (first': nat, previous': nat)
    requires login.Login? && login.email == email && ValidVictim(attempts, login.now, login.victim)
    requires Tracks(times, attempts, email, first, previous, login.now)
    requires email in attempts ==> attempts[email].count < MAX_FAILED_ATTEMPTS
    ensures Tracks(Counting(times, login, InvalidCredentials, email),
                   Recorded(attempts, email, login.now, login.victim), email, first', previous', login.now)
  {
    PruningTracks(attempts, times, email, first, previous, login.now);
    var table := Evicted(Pruned(attempts, login.now), login.victim);
    first', previous' := first, previous;
    if login.victim == Some(email) {
      first', previous' := 0, 0;
    } else if email in table {
      AppendToBlock(times, MAX_FAILED_ATTEMPTS, WINDOW, first, previous, login.now, login.now);
    } else {
      AppendNewBlock(times, MAX_FAILED_ATTEMPTS, WINDOW, first, previous, login.now, login.now);
      first', previous' := |times|, first;
    }
  }

  /**
   The lockout bound: any span of 900 seconds holds at most 19 of an email's failed password checks since it last
   succeeded or its entry was evicted as the oldest at the cap. What evictions do to the bound is in `LockoutEviction`.
   */
  lemma {:induction false} LockoutBound(verify: (string, string) -> bool, run: seq<Event>, email: string, from: nat)
    requires IsRun(verify, run)
    ensures |Within(Failures(verify, run, email), from, from + LOCKOUT_WINDOW_SECS - 1)| <= 2 * MAX_FAILED_ATTEMPTS - 1
  {
    var first, previous := AlwaysTracks(verify, run, email);
    SpanSize(Failures(verify, run, email), MAX_FAILED_ATTEMPTS, WINDOW, from);
  }

  lemma {:induction false} RecordedIsBounded(attempts: Attempts, email: string, now: nat, victim: Option<string>)
    requires |attempts| <= MAX_ENTRIES && ValidVictim(attempts, now, victim)
    ensures |Recorded(attempts, email, now, victim)| <= MAX_ENTRIES
  {
    var pruned := Pruned(attempts, now);
    SmallerMap(pruned, attempts);
    var table := Evicted(pruned, victim);
    if victim.Some? {
      assert table.Keys == pruned.Keys - {victim.value};
    }
    assert |table| == |table.Keys| && |pruned| == |pruned.Keys|;
    assert |table| < MAX_ENTRIES;
    var table' := Recorded(attempts, email, now, victim);
    assert table'.Keys == table.Keys + {email};
    assert |table'| == |table'.Keys|;
  }

  lemma OutcomeKeepsBound(s: State, outcome: AuthResult, email: string, now: nat, victim: Option<string>)
    requires |s.attempts| <= MAX_ENTRIES
    requires outcome.InvalidCredentials? ==> ValidVictim(s.attempts, now, victim)
    ensures |Applied(s, outcome, email, now, victim).attempts| <= MAX_ENTRIES
  {
    match outcome
    case InvalidCredentials => RecordedIsBounded(s.attempts, email, now, victim);
    case MfaRequired(_) => SmallerMap(s.attempts - {email}, s.attempts);
    case Success(_) => SmallerMap(s.attempts - {email}, s.attempts);
    case _ =>
  }

  /** The table of failed attempts never outgrows its cap. */
  lemma {:induction false} AttemptsStayBounded(verify: (string, string) -> bool, run: seq<Event>)
    requires IsRun(verify, run)
    ensures |After(verify, run).attempts| <= MAX_ENTRIES
  {
    if run != [] {
      var n := |run| - 1;
      AttemptsStayBounded(verify, run[..n]);
      if run[n].Login? {
        var s := After(verify, run[..n]);
        var checked := Checked(s.attempts, run[n].email, run[n].now);
        SmallerMap(checked, s.attempts);
        OutcomeKeepsBound(s.(attempts := checked), LastOutcome(verify, run), run[n].email, run[n].now, run[n].victim);
      }
    }
  }

  lemma SmallerMap<K(!new), V>(a: map<K, V>, b: map<K, V>)
    requires a.Keys <= b.Keys
    ensures |a| <= |b|
  {
    SubsetSize(a.Keys, b.Keys);
    assert |a| == |a.Keys| && |b| == |b.Keys|;
  }
}
