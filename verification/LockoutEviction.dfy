/**
 What the cap of the failed-attempt table does to the lockout. At 10,000 entries the oldest one makes room for
 a new one; if that is the entry of a locked email, the email is open again before its window is over.
 */
module LockoutEviction {
  import opened Collections
  import opened Lockout
  import opened LockoutRuns
  import opened Windows

  ghost predicate IsLocked(attempts: Attempts, email: string) {
    email in attempts && attempts[email].count >= MAX_FAILED_ATTEMPTS
  }

  // ----- one login

  ghost predicate KeepsEntry(before: Attempts, after: Attempts, email: string)
    requires email in before
  {
    email in after && after[email] == before[email]
  }

  /** What the iteration order of the table can make of a login. */
  ghost predicate IsPossible(s: State, verify: (string, string) -> bool, login: Event)
    requires login.Login?
  {
    if Outcome(s, verify, login.email, login.password, login.now).InvalidCredentials?
    then ValidVictim(Checked(s.attempts, login.email, login.now), login.now, login.victim)
    else login.victim == None
  }

  /** A login can only cost a locked email its entry by evicting it. */
  lemma {:induction false} LockKeptIff(s: State, verify: (string, string) -> bool, login: Event, email: string)
    requires login.Login? && IsLocked(s.attempts, email) && IsPossible(s, verify, login)
    requires login.now < s.attempts[email].firstFailureAt + LOCKOUT_WINDOW_SECS
    ensures KeepsEntry(s.attempts, Step(s, verify, login).attempts, email) <==> login.victim != Some(email)
  {
  }

  /**
   When a login can cost a locked email its entry, in terms of the table before it: it fails, the table is full even
   without the entries older than a window, and the locked email's entry is an oldest one.
   */
  lemma {:induction false} CanLoseLockIff(s: State, verify: (string, string) -> bool, who: string, password: string,
                                          now: nat,
                       email: string)
    requires IsLocked(s.attempts, email) && now < s.attempts[email].firstFailureAt + LOCKOUT_WINDOW_SECS
    ensures (exists victim: Option<string> ::
               && IsPossible(s, verify, Login(now, who, password, victim))
               && !KeepsEntry(s.attempts, Step(s, verify, Login(now, who, password, victim)).attempts, email))
            <==>
            var recent := Pruned(Checked(s.attempts, who, now), now);
            && Outcome(s, verify, who, password, now).InvalidCredentials?
            && |recent| >= MAX_ENTRIES && IsOldest(recent, email)
  {
    var recent := Pruned(Checked(s.attempts, who, now), now);
    if && Outcome(s, verify, who, password, now).InvalidCredentials?
       && |recent| >= MAX_ENTRIES && IsOldest(recent, email)
    {
      var login := Login(now, who, password, Some(email));
      assert IsPossible(s, verify, login);
      LockKeptIff(s, verify, login, email);
    }
    forall victim | IsPossible(s, verify, Login(now, who, password, victim)) && victim != Some(email)
      ensures KeepsEntry(s.attempts, Step(s, verify, Login(now, who, password, victim)).attempts, email)
    {
      LockKeptIff(s, verify, Login(now, who, password, victim), email);
    }
  }

  // ----- whatever follows a lock

  /** Events that can follow a state, the clock aside. */
  ghost predicate CanFollow(s: State, verify: (string, string) -> bool, events: seq<Event>)
    decreases |events|
  {
    events == [] ||
    ((events[0].Login? ==> IsPossible(s, verify, events[0]))
     && CanFollow(Step(s, verify, events[0]), verify, events[1..]))
  }

  function StateAfter(s: State, verify: (string, string) -> bool, events: seq<Event>): State
    decreases |events|
  {
    if events == [] then s else StateAfter(Step(s, verify, events[0]), verify, events[1..])
  }

  ghost predicate HasEntry(s: State, email: string, entry: Attempt) {
    email in s.attempts && s.attempts[email] == entry
  }

  /** After every one of the events the email still has this entry. */
  ghost predicate StaysLocked(s: State, verify: (string, string) -> bool, events: seq<Event>, email: string,
                              entry: Attempt)
    decreases |events|
  {
    && HasEntry(s, email, entry)
    && (events != [] ==> StaysLocked(Step(s, verify, events[0]), verify, events[1..], email, entry))
  }

  ghost predicate Evicts(event: Event, email: string) {
    event.Login? && event.victim == Some(email)
  }

  ghost predicate AllBefore(events: seq<Event>, time: nat) {
    forall i :: 0 <= i < |events| ==> events[i].now < time
  }

  lemma EventKeepsEntryIff(s: State, verify: (string, string) -> bool, event: Event, email: string, entry: Attempt)
    requires entry.count >= MAX_FAILED_ATTEMPTS && HasEntry(s, email, entry)
    requires event.now < entry.firstFailureAt + LOCKOUT_WINDOW_SECS && (event.Login? ==> IsPossible(s, verify, event))
    ensures HasEntry(Step(s, verify, event), email, entry) <==> !Evicts(event, email)
  {
    if event.Login? {
      LockKeptIff(s, verify, event, email);
    }
  }

  /**
   The exact condition over runs: until 900 seconds after its first failure a locked email stays locked, whatever
   logins and user changes come, if and only if it is never the entry evicted at the cap.
   */
  lemma {:induction false} StaysLockedIff(s: State, verify: (string, string) -> bool, events: seq<Event>, email: string,
                                          entry: Attempt)
    requires entry.count >= MAX_FAILED_ATTEMPTS && HasEntry(s, email, entry) && CanFollow(s, verify, events)
    requires AllBefore(events, entry.firstFailureAt + LOCKOUT_WINDOW_SECS)
    ensures StaysLocked(s, verify, events, email, entry) <==>
            forall i :: 0 <= i < |events| ==> !Evicts(events[i], email)
    decreases |events|
  {
    if events != [] {
      var s', rest := Step(s, verify, events[0]), events[1..];
      EventKeepsEntryIff(s, verify, events[0], email, entry);
      FirstOrRest(events, email);
      if !Evicts(events[0], email) {
        StaysLockedIff(s', verify, rest, email, entry);
      }
    }
  }

  lemma FirstOrRest(events: seq<Event>, email: string)
    requires events != []
    ensures (forall i :: 0 <= i < |events| ==> !Evicts(events[i], email)) <==>
            !Evicts(events[0], email) && forall i :: 0 <= i < |events[1..]| ==> !Evicts(events[1..][i], email)
  {
    assert forall i :: 0 <= i < |events[1..]| ==> events[1..][i] == events[i + 1];
    assert forall i :: 0 < i < |events| ==> events[i] == events[1..][i - 1];
  }

  /** While the table has room nobody is evicted. */
  lemma {:induction false} RoomMeansNoVictim(s: State, verify: (string, string) -> bool, login: Event)
    requires login.Login? && IsPossible(s, verify, login) && |s.attempts| < MAX_ENTRIES
    ensures login.victim == None
  {
    SmallerMap(Checked(s.attempts, login.email, login.now), s.attempts);
  }

  ghost predicate KeepsRoom(s: State, verify: (string, string) -> bool, events: seq<Event>)
    decreases |events|
  {
    events == [] || (|s.attempts| < MAX_ENTRIES && KeepsRoom(Step(s, verify, events[0]), verify, events[1..]))
  }

  /**
   So with fewer than 10,000 emails in the table a locked email stays locked, whatever the password, until 900 seconds
   after its first failure, and is told exactly the time that is left.
   */
  lemma {:induction false} LockedUntilWindowEnds(s: State, verify: (string, string) -> bool, events: seq<Event>,
                                                 email: string, entry: Attempt, password: string, now: nat)
    requires entry.count >= MAX_FAILED_ATTEMPTS && HasEntry(s, email, entry)
    requires CanFollow(s, verify, events) && KeepsRoom(s, verify, events)
    requires AllBefore(events, now + 1) && entry.firstFailureAt <= now < entry.firstFailureAt + LOCKOUT_WINDOW_SECS
    ensures Outcome(StateAfter(s, verify, events), verify, email, password, now) ==
            LockedOut(entry.firstFailureAt + LOCKOUT_WINDOW_SECS - now)
    decreases |events|
  {
    if events != [] {
      if events[0].Login? {
        RoomMeansNoVictim(s, verify, events[0]);
      }
      EventKeepsEntryIff(s, verify, events[0], email, entry);
      LockedUntilWindowEnds(Step(s, verify, events[0]), verify, events[1..], email, entry, password, now);
    }
  }

  // ----- the bound on failed checks, without forgetting evicted ones

  /** Failed password checks for `email` since it last succeeded, evictions or not. */
  function FailedChecks(verify: (string, string) -> bool, run: seq<Event>, email: string): seq<nat> {
    if run == [] then []
    else
      var n := |run| - 1;
      var earlier := FailedChecks(verify, run[..n], email);
      if run[n].Manage? then earlier
      else Counting(earlier, run[n].(victim := None), LastOutcome(verify, run), email)
  }

  ghost predicate HasRoom(verify: (string, string) -> bool, run: seq<Event>) {
    run == [] ||
    var front := run[..|run| - 1];
    |After(verify, front).attempts| < MAX_ENTRIES && HasRoom(verify, front)
  }

  lemma {:induction false} NothingForgotten(verify: (string, string) -> bool, run: seq<Event>, email: string)
    requires IsRun(verify, run) && HasRoom(verify, run)
    ensures FailedChecks(verify, run, email) == Failures(verify, run, email)
  {
    if run != [] {
      var n := |run| - 1;
      NothingForgotten(verify, run[..n], email);
      if run[n].Login? {
        RoomMeansNoVictim(After(verify, run[..n]), verify, run[n]);
      }
    }
  }

  /** With room in the table any span of 900 seconds holds at most 19 failed password checks of an email. */
  lemma {:induction false} BoundWithRoom(verify: (string, string) -> bool, run: seq<Event>, email: string, from: nat)
    requires IsRun(verify, run) && HasRoom(verify, run)
    ensures |Within(FailedChecks(verify, run, email), from, from + LOCKOUT_WINDOW_SECS - 1)|
            <= 2 * MAX_FAILED_ATTEMPTS - 1
  {
    NothingForgotten(verify, run, email);
    LockoutBound(verify, run, email, from);
  }

  // ----- the bound is reached

  /** One more failed login, of an email that nobody has registered. */
  lemma TryUnknown(verify: (string, string) -> bool, run: seq<Event>, now: nat, email: string, victim: Option<string>)
    returns (longer: seq<Event>)
    requires IsRun(verify, run) && EndOf(run) <= now
    requires var s := After(verify, run);
             && s.users == map[] && s.emailIndex == map[] && RetryAfter(s.attempts, email, now) == None
             && ValidVictim(Checked(s.attempts, email, now), now, victim)
    ensures longer == run + [Login(now, email, "", victim)] && IsRun(verify, longer) && EndOf(longer) == now
    ensures After(verify, longer) ==
            State(map[], map[], Recorded(Checked(After(verify, run).attempts, email, now), email, now, victim))
    ensures LastOutcome(verify, longer) == InvalidCredentials
  {
    longer := run + [Login(now, email, "", victim)];
    assert longer[..|run|] == run;
  }

  /** The failures of one email that still count, and the time of the first one. */
  datatype Tally = Tally(count: nat, start: nat)

  /** A failure at a moment when the email is not locked. */
  function Counted(t: Tally, now: nat): Tally {
    if t.count == 0 || t.count == MAX_FAILED_ATTEMPTS then Tally(1, now) else Tally(t.count + 1, t.start)
  }

  predicate IsOpen(t: Tally, now: nat) {
    t.count < MAX_FAILED_ATTEMPTS || (t.count == MAX_FAILED_ATTEMPTS && t.start + LOCKOUT_WINDOW_SECS <= now)
  }

  /** The table when only the empty email has failed. */
  function Alone(t: Tally): Attempts {
    if t.count == 0 then map[] else map["" := Attempt(t.count, t.start)]
  }

  lemma OneMoreFailure(t: Tally, now: nat)
    requires IsOpen(t, now)
    ensures RetryAfter(Alone(t), "", now) == None && ValidVictim(Checked(Alone(t), "", now), now, None)
    ensures Recorded(Checked(Alone(t), "", now), "", now, None) == Alone(Counted(t, now))
  {
    assert |Alone(t)| <= 1 && |Checked(Alone(t), "", now)| <= 1;
  }

  /** A run after which only the empty email has failed, at these times. */
  ghost predicate FailedAlone(verify: (string, string) -> bool, run: seq<Event>, t: Tally, times: seq<nat>) {
    && IsRun(verify, run) && EndOf(run) == EndOfTimes(times)
    && After(verify, run) == State(map[], map[], Alone(t))
    && FailedChecks(verify, run, "") == times
  }

  function EndOfTimes(times: seq<nat>): nat {
    if times == [] then 0 else times[|times| - 1]
  }

  lemma FailOnce(verify: (string, string) -> bool, front: seq<Event>, t: Tally, times: seq<nat>, now: nat)
    requires FailedAlone(verify, front, t, times) && EndOfTimes(times) <= now && IsOpen(t, now)
    ensures FailedAlone(verify, front + [Login(now, "", "", None)], Counted(t, now), times + [now])
  {
    OneMoreFailure(t, now);
    var run := TryUnknown(verify, front, now, "", None);
    assert run[..|front|] == front;
  }

  function TallyOf(times: seq<nat>): Tally {
    if times == [] then Tally(0, 0) else Counted(TallyOf(times[..|times| - 1]), times[|times| - 1])
  }

  /** None of these times falls into a lockout that the earlier ones caused. */
  predicate NeverLocked(times: seq<nat>) {
    times == [] ||
    var front, now := times[..|times| - 1], times[|times| - 1];
    NeverLocked(front) && EndOfTimes(front) <= now && IsOpen(TallyOf(front), now)
  }

  /** Failed logins of the empty email alone. */
  function Logins(times: seq<nat>): seq<Event> {
    if times == [] then []
    else Logins(times[..|times| - 1]) + [Login(times[|times| - 1], "", "", None)]
  }

  lemma {:induction false} FailAlone(verify: (string, string) -> bool, times: seq<nat>)
    requires NeverLocked(times)
    ensures FailedAlone(verify, Logins(times), TallyOf(times), times)
  {
    if times != [] {
      var front, now := times[..|times| - 1], times[|times| - 1];
      FailAlone(verify, front);
      FailOnce(verify, Logins(front), TallyOf(front), front, now);
      OneMoreLogin(front, now, times);
    }
  }

  lemma OneMoreLogin(front: seq<nat>, now: nat, times: seq<nat>)
    requires times != [] && front == times[..|times| - 1] && now == times[|times| - 1]
    ensures times == front + [now] && TallyOf(times) == Counted(TallyOf(front), now)
    ensures Logins(times) == Logins(front) + [Login(now, "", "", None)]
  {
  }

  lemma {:induction false} AloneHasRoom(verify: (string, string) -> bool, times: seq<nat>)
    requires NeverLocked(times)
    ensures HasRoom(verify, Logins(times))
  {
    if times != [] {
      var front := times[..|times| - 1];
      AloneHasRoom(verify, front);
      FailAlone(verify, front);
      assert Logins(times)[..|Logins(times)| - 1] == Logins(front);
      assert |After(verify, Logins(front)).attempts| <= 1;
    }
  }

  function Again(times: seq<nat>, n: nat, now: nat): seq<nat>
    decreases n, now
  {
    if n == 0 then times else Again(times, n - 1, now) + [now]
  }

  lemma {:induction false} AgainAppends(times: seq<nat>, n: nat, now: nat)
    ensures times <= Again(times, n, now) && |Again(times, n, now)| == |times| + n
    ensures forall k :: |times| <= k < |times| + n ==> Again(times, n, now)[k] == now
  {
    if n > 0 {
      AgainAppends(times, n - 1, now);
    }
  }

  lemma {:induction false} MoreAtOnce(times: seq<nat>, n: nat, now: nat)
    requires NeverLocked(times) && times != [] && EndOfTimes(times) <= now
    requires TallyOf(times).count >= 1 && TallyOf(times).count + n <= MAX_FAILED_ATTEMPTS
    ensures var more := Again(times, n, now);
            && NeverLocked(more) && more != [] && EndOfTimes(more) <= now
            && TallyOf(more) == Tally(TallyOf(times).count + n, TallyOf(times).start)
  {
    if n > 0 {
      MoreAtOnce(times, n - 1, now);
      OneMoreTime(Again(times, n - 1, now), now);
    }
  }

  lemma OneMoreTime(times: seq<nat>, now: nat)
    requires NeverLocked(times) && times != [] && EndOfTimes(times) <= now
    requires 1 <= TallyOf(times).count < MAX_FAILED_ATTEMPTS
    ensures NeverLocked(times + [now])
    ensures TallyOf(times + [now]) == Tally(TallyOf(times).count + 1, TallyOf(times).start)
  {
    assert (times + [now])[..|times|] == times;
  }

  /** One failure, nine more just before its window is over, and ten at once when it is over. */
  lemma TwentyFailures(from: nat) returns (times: seq<nat>)
    requires from == LOCKOUT_WINDOW_SECS - 1
    ensures NeverLocked(times) && |times| == 2 * MAX_FAILED_ATTEMPTS
    ensures forall k :: 1 <= k < |times| ==> from <= times[k] <= from + 1
  {
    var first := [0];
    assert NeverLocked(first) && TallyOf(first) == Tally(1, 0) by {
      assert first[..0] == [];
    }
    var full := Again(first, MAX_FAILED_ATTEMPTS - 1, from);
    MoreAtOnce(first, MAX_FAILED_ATTEMPTS - 1, from);
    AgainAppends(first, MAX_FAILED_ATTEMPTS - 1, from);
    var again := full + [from + 1];
    assert again[..|full|] == full;
    times := Again(again, MAX_FAILED_ATTEMPTS - 1, from + 1);
    MoreAtOnce(again, MAX_FAILED_ATTEMPTS - 1, from + 1);
    AgainAppends(again, MAX_FAILED_ATTEMPTS - 1, from + 1);
  }

  /** No smaller bound holds: a table with no other email lets 19 failures into one span. */
  lemma LockoutBoundIsTight(verify: (string, string) -> bool) returns (run: seq<Event>, from: nat)
    ensures IsRun(verify, run) && HasRoom(verify, run)
    ensures |Within(FailedChecks(verify, run, ""), from, from + LOCKOUT_WINDOW_SECS - 1)|
            == 2 * MAX_FAILED_ATTEMPTS - 1
  {
    from := LOCKOUT_WINDOW_SECS - 1;
    var times := TwentyFailures(from);
    run := Logins(times);
    FailAlone(verify, times);
    AloneHasRoom(verify, times);
    AllWithin(times, 1, 2 * MAX_FAILED_ATTEMPTS - 1, from, from + LOCKOUT_WINDOW_SECS - 1);
    BoundWithRoom(verify, run, "", from);
  }

  // ----- the failing case

  /** Ten thousand and more different emails; the empty one is the one to be locked. */
  function Name(i: nat): string {
    seq(i, _ => 'a')
  }

  ghost function Names(n: nat): set<string> {
    set i | 0 <= i < n :: Name(i)
  }

  lemma {:induction false} NamesAreMany(n: nat)
    ensures |Names(n)| == n && Name(n) !in Names(n) && Names(n + 1) == Names(n) + {Name(n)}
  {
    if n > 0 {
      NamesAreMany(n - 1);
    }
    assert forall i :: 0 <= i < n ==> |Name(i)| == i != |Name(n)|;
  }

  ghost predicate Crowd(attempts: Attempts, names: set<string>) {
    attempts.Keys == names && forall k :: k in attempts && k != "" ==> attempts[k] == Attempt(1, 1)
  }

  /** The locked email and `n - 1` others that failed once. */
  ghost predicate Filled(attempts: Attempts, n: nat) {
    Crowd(attempts, Names(n)) && "" in attempts && attempts[""] == Attempt(MAX_FAILED_ATTEMPTS, 0)
  }

  lemma {:induction false} OneMoreName(attempts: Attempts, n: nat)
    requires 1 <= n < MAX_ENTRIES && Filled(attempts, n)
    ensures RetryAfter(attempts, Name(n), 1) == None && Checked(attempts, Name(n), 1) == attempts
    ensures ValidVictim(attempts, 1, None) && Filled(Recorded(attempts, Name(n), 1, None), n + 1)
  {
    NamesAreMany(n);
    assert |attempts| == |attempts.Keys|;
  }

  lemma LockFirst(verify: (string, string) -> bool) returns (run: seq<Event>)
    ensures IsRun(verify, run) && EndOf(run) == 0
    ensures After(verify, run) == State(map[], map[], Alone(Tally(MAX_FAILED_ATTEMPTS, 0)))
  {
    var first := [0];
    assert NeverLocked(first) && TallyOf(first) == Tally(1, 0) by {
      assert first[..0] == [];
    }
    MoreAtOnce(first, MAX_FAILED_ATTEMPTS - 1, 0);
    var times := Again(first, MAX_FAILED_ATTEMPTS - 1, 0);
    AgainAppends(first, MAX_FAILED_ATTEMPTS - 1, 0);
    run := Logins(times);
    FailAlone(verify, times);
  }

  lemma {:induction false} FillTable(verify: (string, string) -> bool, n: nat) returns (run: seq<Event>)
    requires 1 <= n <= MAX_ENTRIES
    ensures IsRun(verify, run) && EndOf(run) <= 1
    ensures var s := After(verify, run);
            s.users == map[] && s.emailIndex == map[] && Filled(s.attempts, n)
  {
    if n == 1 {
      run := LockFirst(verify);
      NamesAreMany(0);
      assert Name(0) == "" && Names(1) == {""};
    } else {
      run := FillTable(verify, n - 1);
      OneMoreName(After(verify, run).attempts, n - 1);
      run := TryUnknown(verify, run, 1, Name(n - 1), None);
    }
  }

  lemma EvictLocked(verify: (string, string) -> bool) returns (before: seq<Event>, run: seq<Event>)
    ensures IsRun(verify, run) && run == before + [Login(1, Name(MAX_ENTRIES), "", Some(""))]
    ensures IsLocked(After(verify, before).attempts, "") && After(verify, before).attempts[""].firstFailureAt == 0
    ensures After(verify, run).users == map[] && After(verify, run).emailIndex == map[] && EndOf(run) == 1
    ensures Crowd(After(verify, run).attempts, Names(MAX_ENTRIES + 1) - {""})
  {
    before := FillTable(verify, MAX_ENTRIES);
    NamesAreMany(MAX_ENTRIES);
    var attempts := After(verify, before).attempts;
    assert |attempts| == |attempts.Keys|;
    assert Pruned(attempts, 1) == attempts && IsOldest(attempts, "");
    run := TryUnknown(verify, before, 1, Name(MAX_ENTRIES), Some(""));
  }

  /**
   The failing case: an email is locked, 9,999 others fail a second later, and one more failure opens the locked one
   899 seconds early.
   */
  lemma EvictionUnlocks(verify: (string, string) -> bool, password: string)
    returns (before: seq<Event>, run: seq<Event>)
    ensures IsRun(verify, run) && |run| == |before| + 1 && run[..|before|] == before && EndOf(run) == 1
    ensures IsLocked(After(verify, before).attempts, "") && After(verify, before).attempts[""].firstFailureAt == 0
    ensures Outcome(After(verify, before), verify, "", password, 1) == LockedOut(LOCKOUT_WINDOW_SECS - 1)
    ensures Outcome(After(verify, run), verify, "", password, 1) == InvalidCredentials
  {
    before, run := EvictLocked(verify);
  }

  /** A full table whose entries all began in second 1, in which the empty email has at most one failure. */
  ghost predicate Tied(attempts: Attempts) {
    && |attempts| == MAX_ENTRIES
    && (forall k :: k in attempts ==> attempts[k].firstFailureAt == 1)
    && ("" in attempts ==> attempts[""].count == 1)
  }

  lemma {:induction false} TieGoesOn(attempts: Attempts, victim: string)
    requires Tied(attempts) && victim in attempts && ("" in attempts ==> victim == "")
    ensures RetryAfter(attempts, "", 1) == None && Checked(attempts, "", 1) == attempts
    ensures ValidVictim(attempts, 1, Some(victim)) && Tied(Recorded(attempts, "", 1, Some(victim)))
  {
    assert Pruned(attempts, 1) == attempts && IsOldest(attempts, victim);
    assert Recorded(attempts, "", 1, Some(victim)) == (attempts - {victim})["" := Attempt(1, 1)];
    Exchanged(attempts, victim, "", Attempt(1, 1));
  }

  lemma Exchanged(attempts: Attempts, gone: string, come: string, entry: Attempt)
    requires gone in attempts && (come in attempts ==> come == gone)
    ensures |(attempts - {gone})[come := entry]| == |attempts|
  {
    var after := (attempts - {gone})[come := entry];
    assert after.Keys == attempts.Keys - {gone} + {come};
    assert |after| == |after.Keys| && |attempts| == |attempts.Keys|;
  }

  lemma {:induction false} FailOften(verify: (string, string) -> bool, n: nat) returns (run: seq<Event>)
    ensures IsRun(verify, run) && EndOf(run) == 1
    ensures var s := After(verify, run);
            s.users == map[] && s.emailIndex == map[] && Tied(s.attempts)
    ensures var times := FailedChecks(verify, run, "");
            |times| >= n && forall i :: |times| - n <= i < |times| ==> times[i] == 1
  {
    if n == 0 {
      var _, full := EvictLocked(verify);
      run := full;
      EvictedCrowdIsTied(After(verify, run).attempts);
    } else {
      var shorter := FailOften(verify, n - 1);
      var attempts := After(verify, shorter).attempts;
      assert attempts.Keys != {} by {
        assert |attempts| == |attempts.Keys|;
      }
      var victim :| victim in attempts && ("" in attempts ==> victim == "");
      TieGoesOn(attempts, victim);
      run := TryUnknown(verify, shorter, 1, "", Some(victim));
      assert run[..|shorter|] == shorter;
    }
  }

  lemma {:induction false} EvictedCrowdIsTied(attempts: Attempts)
    requires Crowd(attempts, Names(MAX_ENTRIES + 1) - {""})
    ensures Tied(attempts)
  {
    NamesAreMany(MAX_ENTRIES + 1);
    assert Name(0) == "" && "" in Names(MAX_ENTRIES + 1);
    assert |attempts| == |attempts.Keys|;
  }

  /** So the cap breaks every bound: any number of failed checks of one email can fall into one second. */
  lemma CapBreaksEveryBound(verify: (string, string) -> bool, n: nat) returns (run: seq<Event>)
    ensures IsRun(verify, run) && |Within(FailedChecks(verify, run, ""), 1, 1)| >= n
  {
    run := FailOften(verify, n);
    var times := FailedChecks(verify, run, "");
    AllWithin(times, |times| - n, n, 1, 1);
  }
}
