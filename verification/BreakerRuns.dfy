/**
 Runs of one circuit breaker.

 Outcomes may be stale: a request admitted in an earlier epoch can report at any later time, so a run is
 any sequence of admission attempts, successes and failures at non-decreasing times.
 */
module BreakerRuns {
  import opened CircuitBreaker
  import opened Collections

  datatype Event = Ask(now: nat) | Success(now: nat) | Failure(now: nat)

  function Step(c: Config, e: Entry, event: Event): Entry {
    match event
    case Ask(now) => Allowed(c, e, now)
    case Success(now) => Succeeded(c, e, now)
    case Failure(now) => Failed(c, e, now)
  }

  /** The breaker after a run that starts with a fresh entry. */
  function After(c: Config, run: seq<Event>): Entry {
    if run == [] then Fresh(0) else Step(c, After(c, run[..|run| - 1]), run[|run| - 1])
  }

  ghost predicate Timed(run: seq<Event>) {
    forall i, j :: 0 <= i < j < |run| ==> run[i].now <= run[j].now
  }

  /** Event `i` of the run is a request that was let through. */
  predicate AdmittedAt(c: Config, run: seq<Event>, i: nat)
    requires i < |run|
  {
    run[i].Ask? && Admits(c, After(c, run[..i]), run[i].now)
  }

  // ----- admissions of one half-open epoch

  /** The requests let through since the breaker last became half-open, the one that opened it included. */
  function EpochAdmissions(c: Config, run: seq<Event>): nat {
    if run == [] then 0
    else
      var n := |run| - 1;
      var before := After(c, run[..n]);
      var earlier := if before.state == HalfOpen then EpochAdmissions(c, run[..n]) else 0;
      earlier + if run[n].Ask? && Admits(c, before, run[n].now) then 1 else 0
  }

  ghost predicate HalfOpenInv(c: Config, e: Entry, admitted: nat) {
    && e.inFlightProbes <= c.halfOpenMax
    && (e.state != HalfOpen ==> e.inFlightProbes == 0)
    && (e.state == HalfOpen ==> e.successCountHalfOpen < c.halfOpenMax)
    && (e.state == HalfOpen ==> admitted <= e.inFlightProbes + e.successCountHalfOpen)
  }

  lemma {:induction false} HalfOpenAlwaysInv(c: Config, run: seq<Event>)
    requires ConfigOk(c)
    ensures HalfOpenInv(c, After(c, run), EpochAdmissions(c, run))
  {
    if run != [] {
      HalfOpenAlwaysInv(c, run[..|run| - 1]);
    }
  }

  /**
   A half-open epoch lets at most twice the limit minus one requests through, whatever stale successes
   and failures arrive: a stale success frees a probe slot, but each one also brings the close nearer.
   */
  lemma HalfOpenAdmitsAtMost(c: Config, run: seq<Event>)
    requires ConfigOk(c) && After(c, run).state == HalfOpen
    ensures EpochAdmissions(c, run) <= 2 * c.halfOpenMax - 1
  {
    HalfOpenAlwaysInv(c, run);
  }

  /** The bound is met: all but one probe succeed, and their slots are used again. */
  lemma HalfOpenBoundIsTight(c: Config) returns (run: seq<Event>)
    requires ConfigOk(c)
    ensures Timed(run) && After(c, run).state == HalfOpen
    ensures EpochAdmissions(c, run) == 2 * c.halfOpenMax - 1
  {
    var h := c.halfOpenMax;
    run := OpenByFailures(c, c.failureThreshold);
    run := Extend(c, run, Ask(c.resetTimeout));
    run := AskMany(c, run, h - 1);
    run := SucceedMany(c, run, h - 1);
    run := AskMany(c, run, h - 1);
  }

  lemma {:induction false} Extend(c: Config, run: seq<Event>, event: Event) returns (longer: seq<Event>)
    requires Timed(run) && forall i :: 0 <= i < |run| ==> run[i].now <= event.now
    ensures longer == run + [event] && Timed(longer)
    ensures After(c, longer) == Step(c, After(c, run), event)
    ensures EpochAdmissions(c, longer) ==
            (if After(c, run).state == HalfOpen then EpochAdmissions(c, run) else 0)
            + if event.Ask? && Admits(c, After(c, run), event.now) then 1 else 0
  {
    longer := run + [event];
    assert longer[..|run|] == run;
  }

  lemma {:induction false} OpenByFailures(c: Config, n: nat) returns (run: seq<Event>)
    requires ConfigOk(c) && n <= c.failureThreshold
    ensures Timed(run) && forall i :: 0 <= i < |run| ==> run[i].now == 0
    ensures var e := After(c, run);
            && e.failureCount == n
            && (n == c.failureThreshold ==> e.state == Open && e.lastFailureTime == Some(0))
            && (n < c.failureThreshold ==> e.state == Closed)
  {
    if n == 0 {
      run := [];
    } else {
      run := OpenByFailures(c, n - 1);
      run := Extend(c, run, Failure(0));
    }
  }

  lemma {:induction false} AskMany(c: Config, run: seq<Event>, n: nat) returns (longer: seq<Event>)
    requires ConfigOk(c) && Timed(run) && (forall i :: 0 <= i < |run| ==> run[i].now <= c.resetTimeout)
    requires After(c, run).state == HalfOpen && After(c, run).inFlightProbes + n <= c.halfOpenMax
    ensures Timed(longer) && (forall i :: 0 <= i < |longer| ==> longer[i].now <= c.resetTimeout)
    ensures After(c, longer) == After(c, run).(inFlightProbes := After(c, run).inFlightProbes + n)
    ensures EpochAdmissions(c, longer) == EpochAdmissions(c, run) + n
    decreases n
  {
    if n == 0 {
      longer := run;
    } else {
      longer := Extend(c, run, Ask(c.resetTimeout));
      longer := AskMany(c, longer, n - 1);
    }
  }

  lemma {:induction false} SucceedMany(c: Config, run: seq<Event>, n: nat) returns (longer: seq<Event>)
    requires ConfigOk(c) && Timed(run) && (forall i :: 0 <= i < |run| ==> run[i].now <= c.resetTimeout)
    requires After(c, run).state == HalfOpen && After(c, run).inFlightProbes >= n
    requires After(c, run).successCountHalfOpen + n < c.halfOpenMax
    ensures Timed(longer) && (forall i :: 0 <= i < |longer| ==> longer[i].now <= c.resetTimeout)
    ensures After(c, longer) == After(c, run).(inFlightProbes := After(c, run).inFlightProbes - n,
                                               successCountHalfOpen := After(c, run).successCountHalfOpen + n)
    ensures EpochAdmissions(c, longer) == EpochAdmissions(c, run)
    decreases n
  {
    if n == 0 {
      longer := run;
    } else {
      longer := Extend(c, run, Success(c.resetTimeout));
      longer := SucceedMany(c, longer, n - 1);
    }
  }

  // ----- timing

  /** The recorded failure time is the latest one. */
  ghost predicate LatestFailure(run: seq<Event>, time: Option<nat>) {
    && (time.Some? ==> exists i :: 0 <= i < |run| && run[i] == Failure(time.value))
    && forall i :: 0 <= i < |run| && run[i].Failure? ==> time.Some? && run[i].now <= time.value
  }

  lemma {:induction false} KeepsLatestFailure(c: Config, run: seq<Event>)
    requires Timed(run)
    ensures LatestFailure(run, After(c, run).lastFailureTime)
  {
    if run != [] {
      var n := |run| - 1;
      var time := After(c, run[..n]).lastFailureTime;
      KeepsLatestFailure(c, run[..n]);
      if time.Some? {
        var i :| 0 <= i < n && run[..n][i] == Failure(time.value);
        assert run[i] == Failure(time.value);
      }
    }
  }

  /** A breaker that is not closed has failed, and a half-open one has waited out the reset timeout since. */
  ghost predicate Waited(c: Config, run: seq<Event>) {
    var e := After(c, run);
    && (e.state != Closed ==> e.lastFailureTime.Some?)
    && (e.state == HalfOpen ==> run != [] && run[|run| - 1].now >= e.lastFailureTime.value + c.resetTimeout)
  }

  lemma {:induction false} AlwaysWaited(c: Config, run: seq<Event>)
    requires ConfigOk(c) && Timed(run)
    ensures Waited(c, run)
  {
    if run != [] {
      AlwaysWaited(c, run[..|run| - 1]);
    }
  }

  /** A request let through while the breaker is not closed comes a reset timeout after every earlier failure. */
  lemma {:induction false} ProbesWaitForReset(c: Config, run: seq<Event>, i: nat, f: nat)
    requires ConfigOk(c) && Timed(run) && i < |run| && AdmittedAt(c, run, i)
    requires After(c, run[..i]).state != Closed
    requires f < i && run[f].Failure?
    ensures run[f].now + c.resetTimeout <= run[i].now
  {
    var front := run[..i];
    KeepsLatestFailure(c, front);
    AlwaysWaited(c, front);
    assert front[f] == run[f];
  }

  // ----- the threshold

  /** Failures recorded since the breaker was last closed by a recovery, or since the start. */
  function FailuresSinceClose(c: Config, run: seq<Event>): nat {
    if run == [] then 0
    else
      var n := |run| - 1;
      var closes := After(c, run[..n]).state == HalfOpen && After(c, run).state == Closed;
      if closes then 0 else FailuresSinceClose(c, run[..n]) + if run[n].Failure? then 1 else 0
  }

  lemma {:induction false} ClosedCountsFailures(c: Config, run: seq<Event>)
    requires ConfigOk(c)
    ensures var e := After(c, run);
            e.state == Closed ==> e.failureCount == FailuresSinceClose(c, run) < c.failureThreshold
  {
    if run != [] {
      ClosedCountsFailures(c, run[..|run| - 1]);
    }
  }

  /** A closed breaker opens exactly on the threshold-th failure since it last closed. */
  lemma OpensOnThreshold(c: Config, run: seq<Event>, event: Event)
    requires ConfigOk(c) && After(c, run).state == Closed
    ensures After(c, run + [event]).state ==
            if event.Failure? && FailuresSinceClose(c, run) + 1 == c.failureThreshold then Open else Closed
  {
    ClosedCountsFailures(c, run);
    assert (run + [event])[..|run|] == run;
  }

  // ----- every change of state

  /** Successes recorded since the breaker became half-open. */
  function SuccessesSinceHalfOpen(c: Config, run: seq<Event>): nat {
    if run == [] || After(c, run[..|run| - 1]).state != HalfOpen then 0
    else SuccessesSinceHalfOpen(c, run[..|run| - 1]) + if run[|run| - 1].Success? then 1 else 0
  }

  lemma {:induction false} HalfOpenCountsSuccesses(c: Config, run: seq<Event>)
    requires ConfigOk(c)
    ensures var e := After(c, run);
            e.state == HalfOpen ==> e.successCountHalfOpen == SuccessesSinceHalfOpen(c, run) < c.halfOpenMax
  {
    if run != [] {
      HalfOpenCountsSuccesses(c, run[..|run| - 1]);
      assert After(c, run[..|run| - 1]).state != HalfOpen ==> SuccessesSinceHalfOpen(c, run) == 0;
    }
  }

  /**
   A half-open breaker closes exactly on the success that completes its limit, stale successes included, and opens
   on any failure.
   */
  lemma ClosesOnEnoughSuccesses(c: Config, run: seq<Event>, event: Event)
    requires ConfigOk(c) && After(c, run).state == HalfOpen
    ensures After(c, run + [event]).state ==
            if event.Success? && SuccessesSinceHalfOpen(c, run) + 1 == c.halfOpenMax then Closed
            else if event.Failure? then Open else HalfOpen
  {
    HalfOpenCountsSuccesses(c, run);
    assert (run + [event])[..|run|] == run;
  }

  /** An open breaker becomes half-open exactly on a request that comes a reset timeout after every failure. */
  lemma ProbesAfterReset(c: Config, run: seq<Event>, event: Event)
    requires ConfigOk(c) && Timed(run) && After(c, run).state == Open
    requires forall i :: 0 <= i < |run| ==> run[i].now <= event.now
    ensures After(c, run + [event]).state ==
            if event.Ask? && forall i :: 0 <= i < |run| && run[i].Failure? ==> run[i].now + c.resetTimeout <= event.now
            then HalfOpen else Open
  {
    assert (run + [event])[..|run|] == run;
    var last := LastFailure(c, run);
  }

  lemma LastFailure(c: Config, run: seq<Event>) returns (last: nat)
    requires ConfigOk(c) && Timed(run) && After(c, run).state != Closed
    ensures last < |run| && run[last].Failure? && After(c, run).lastFailureTime == Some(run[last].now)
    ensures forall i :: 0 <= i < |run| && run[i].Failure? ==> run[i].now <= run[last].now
  {
    KeepsLatestFailure(c, run);
    AlwaysWaited(c, run);
    last :| last < |run| && run[last] == Failure(After(c, run).lastFailureTime.value);
  }

  /** Who is let through in which state: everybody, whoever comes late enough, or whoever finds a free slot. */
  lemma AdmitsIff(c: Config, run: seq<Event>, now: nat)
    requires ConfigOk(c) && Timed(run) && forall i :: 0 <= i < |run| ==> run[i].now <= now
    ensures Admits(c, After(c, run), now) <==>
            || After(c, run).state == Closed
            || (After(c, run).state == HalfOpen && After(c, run).inFlightProbes < c.halfOpenMax)
            || (After(c, run).state == Open
                && forall i :: 0 <= i < |run| && run[i].Failure? ==> run[i].now + c.resetTimeout <= now)
  {
    if After(c, run).state == Open {
      var last := LastFailure(c, run);
    }
  }

  /** The entry knows when its state last changed. */
  lemma ChangesAreStamped(c: Config, run: seq<Event>, event: Event)
    ensures var e, e' := After(c, run), After(c, run + [event]);
            e'.lastStateChange == if e'.state != e.state then event.now else e.lastStateChange
  {
    assert (run + [event])[..|run|] == run;
  }

  // ----- no wedging, if every admitted request reports

  /** Requests let through minus outcomes reported. */
  function Outstanding(c: Config, run: seq<Event>): int {
    if run == [] then 0
    else
      var n := |run| - 1;
      Outstanding(c, run[..n])
      + if run[n].Ask? then (if Admits(c, After(c, run[..n]), run[n].now) then 1 else 0) else -1
  }

  /** No outcome is reported that no admitted request owes. */
  ghost predicate Owed(c: Config, run: seq<Event>) {
    forall i :: 0 <= i <= |run| ==> Outstanding(c, run[..i]) >= 0
  }

  lemma {:induction false} ProbesAreOutstanding(c: Config, run: seq<Event>)
    requires ConfigOk(c) && Owed(c, run)
    ensures After(c, run).inFlightProbes <= Outstanding(c, run)
    ensures After(c, run).state != HalfOpen ==> After(c, run).inFlightProbes == 0
  {
    if run != [] {
      var front := run[..|run| - 1];
      forall i | 0 <= i <= |front| ensures Outstanding(c, front[..i]) >= 0 {
        assert front[..i] == run[..i];
      }
      ProbesAreOutstanding(c, front);
      assert run[..|run|] == run;
      HalfOpenAlwaysInv(c, front);
    }
  }

  /** If every admitted request reports exactly once, a half-open breaker with none outstanding admits the next. */
  lemma HalfOpenNeverWedges(c: Config, run: seq<Event>, now: nat)
    requires ConfigOk(c) && Owed(c, run)
    requires After(c, run).state == HalfOpen && Outstanding(c, run) == 0
    ensures Admits(c, After(c, run), now)
  {
    ProbesAreOutstanding(c, run);
  }

  function Min(a: int, b: int): int {
    if a < b then a else b
  }

  /** Requests alone take the free probe slots one by one, and then nothing more. */
  lemma {:induction false} AsksFillSlots(c: Config, run: seq<Event>, asks: seq<Event>)
    requires ConfigOk(c) && After(c, run).state == HalfOpen
    requires forall i :: 0 <= i < |asks| ==> asks[i].Ask?
    ensures var e := After(c, run);
            After(c, run + asks) == e.(inFlightProbes := Min(e.inFlightProbes + |asks|, c.halfOpenMax))
    ensures EpochAdmissions(c, run + asks) ==
            EpochAdmissions(c, run) + Min(|asks|, c.halfOpenMax - After(c, run).inFlightProbes)
  {
    HalfOpenAlwaysInv(c, run);
    if asks == [] {
      assert run + asks == run;
    } else {
      var n := |asks| - 1;
      AsksFillSlots(c, run, asks[..n]);
      assert (run + asks)[..|run| + n] == run + asks[..n];
    }
  }

  /**
   The reports matter: probes that never report, as when the gateway answers from its cache after asking
   the breaker, keep their slots. A half-open breaker that only gets asks admits one more, at whatever time,
   if and only if the asks so far have not used up the free slots.
   */
  lemma {:induction false} SilentProbesWedge(c: Config, run: seq<Event>, asks: seq<Event>, now: nat)
    requires ConfigOk(c) && After(c, run).state == HalfOpen
    requires forall i :: 0 <= i < |asks| ==> asks[i].Ask?
    ensures Admits(c, After(c, run + asks), now) <==> After(c, run).inFlightProbes + |asks| < c.halfOpenMax
  {
    AsksFillSlots(c, run, asks);
  }

  /** Every configuration has a run into the wedged state, in which no outcome is reported once it is half-open. */
  lemma WedgeIsReached(c: Config) returns (run: seq<Event>, start: nat)
    requires ConfigOk(c)
    ensures Timed(run) && start < |run| && After(c, run[..start]).state == Open
    ensures forall i :: start <= i < |run| ==> run[i].Ask? && AdmittedAt(c, run, i)
    ensures |run| - start == c.halfOpenMax
    ensures After(c, run).state == HalfOpen && forall now :: !Admits(c, After(c, run), now)
  {
    var failed, first := FirstProbe(c);
    start := |failed|;
    var asks := seq(c.halfOpenMax - 1, i => Ask(c.resetTimeout));
    run := first + asks;
    AsksFillSlots(c, first, asks);
    assert run[..start] == failed && run[..start + 1] == first;
    assert AdmittedAt(c, first, start) && AdmittedAt(c, run, start);
    forall i | start < i < |run| ensures run[i].Ask? && AdmittedAt(c, run, i) {
      FreeSlotsAdmit(c, first, asks, i);
    }
  }

  lemma FirstProbe(c: Config) returns (failed: seq<Event>, first: seq<Event>)
    requires ConfigOk(c)
    ensures first == failed + [Ask(c.resetTimeout)] && Timed(first)
    ensures After(c, failed).state == Open && Admits(c, After(c, failed), c.resetTimeout)
    ensures After(c, first).state == HalfOpen && After(c, first).inFlightProbes == 1
    ensures forall i :: 0 <= i < |first| ==> first[i].now <= c.resetTimeout
  {
    failed := OpenByFailures(c, c.failureThreshold);
    first := Extend(c, failed, Ask(c.resetTimeout));
  }

  lemma {:induction false} FreeSlotsAdmit(c: Config, run: seq<Event>, asks: seq<Event>, i: nat)
    requires ConfigOk(c) && After(c, run).state == HalfOpen
    requires After(c, run).inFlightProbes + |asks| <= c.halfOpenMax
    requires (forall k :: 0 <= k < |asks| ==> asks[k].Ask?) && |run| <= i < |run + asks|
    ensures (run + asks)[i].Ask? && AdmittedAt(c, run + asks, i)
  {
    var k := i - |run|;
    assert (run + asks)[..i] == run + asks[..k];
    SilentProbesWedge(c, run, asks[..k], asks[k].now);
  }

  /** Any outcome frees a wedged breaker: a success at once, a failure after another reset timeout. */
  lemma OutcomeFreesWedge(c: Config, run: seq<Event>, outcome: Event, now: nat)
    requires ConfigOk(c) && After(c, run).state == HalfOpen && After(c, run).inFlightProbes == c.halfOpenMax
    requires !outcome.Ask?
    ensures Admits(c, After(c, run + [outcome]), now) <==> outcome.Success? || now >= outcome.now + c.resetTimeout
  {
    HalfOpenAlwaysInv(c, run);
    assert (run + [outcome])[..|run|] == run;
  }
}
