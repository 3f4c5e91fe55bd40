/**
 The life of one session over a run: from which addresses it may be used, when it ends, and how far its row lags
 behind.
 */
module SessionLives {
  import opened Collections
  import opened Sessions
  import opened SessionRuns

  /** The request shows another address than the one the session was created from; blank ones are no addresses. */
  ghost predicate IsForeign(x: Session, shown: Option<string>) {
    && x.ip != "" && x.ip != "unknown"
    && shown.Some? && shown.value != "" && shown.value != x.ip
  }

  /** One validation, in plain terms: what it answers and what becomes of the session. */
  lemma ValidationIs(s: State, h: Hash, now: nat, shown: Option<string>)
    ensures Validates(s, h, now, shown) <==>
            h in s.sessions && s.sessions[h].active && now <= s.sessions[h].expiresAt
            && !IsForeign(s.sessions[h], shown)
    ensures var s' := Validated(s, now, h, shown);
            && (Validates(s, h, now, shown) ==>
                  h in s'.sessions && s'.sessions[h] == s.sessions[h].(lastActivity := now))
            && (h in s.sessions && h !in s'.sessions ==> IsForeign(s.sessions[h], shown))
            && forall x :: x in s.sessions && x != h ==> x in s'.sessions && s'.sessions[x] == s.sessions[x]
  {
  }

  // ----- a session that nobody ends

  /** The operation is none of those that end the session for their own reasons. */
  ghost predicate Spares(op: Op, h: Hash, x: Session) {
    match op
    case Create(_, h', userId, _, _, _, _) => h' != h && userId != x.userId
    case Validate(_, _, _) => true
    case InvalidateToken(_, h') => h' != h
    case InvalidateUser(_, userId) => userId != x.userId
    case Cleanup(now) => now <= x.expiresAt
    case Restart(now, _) => now < x.expiresAt
  }

  /** The operation presents the session's token, unexpired, from another address. */
  ghost predicate IsReplay(op: Op, h: Hash, x: Session) {
    op.Validate? && op.h == h && op.now <= x.expiresAt && IsForeign(x, op.expectedIp)
  }

  ghost predicate AllSpare(ops: seq<Op>, h: Hash, x: Session) {
    ops == [] || (Spares(ops[0], h, x) && AllSpare(ops[1..], h, x))
  }

  ghost predicate SomeReplay(ops: seq<Op>, h: Hash, x: Session) {
    ops != [] && (IsReplay(ops[0], h, x) || SomeReplay(ops[1..], h, x))
  }

  /** The same session but for its activity time. */
  ghost predicate Same(s: State, h: Hash, x: Session) {
    h in s.sessions && s.sessions[h] == x.(lastActivity := s.sessions[h].lastActivity)
  }

  lemma SpareStep(s: State, cap: nat, clock: nat, op: Op, h: Hash, x: Session)
    requires Inv(s, cap, clock) && RowsAgree(s, clock) && Admissible(s, clock, op)
    requires Same(s, h, x) && x.active && Spares(op, h, x)
    ensures if IsReplay(op, h, x) then h !in Step(s, cap, op).sessions && h !in Step(s, cap, op).rows
            else Same(Step(s, cap, op), h, x)
  {
    match op
    case Create(_, _, userId, _, _, _, _) =>
      PrunedIsDistinctAndLive(s, cap, clock, op);
      var tokens := PrunedTokens(s, op.now, op.h, op.userId);
      assert h !in tokens;
      assert h !in tokens[..Excess(tokens, cap)];
    case InvalidateUser(_, userId) => assert ListOk(s, cap, userId);
    case _ =>
  }

  /**
   As long as nothing else ends it, a session lives, unchanged but for its activity, if and only if its token was never
   presented from another address; presentations from its own one never end it.
   */
  lemma {:induction false} LivesIff(s: State, cap: nat, clock: nat, ops: seq<Op>, h: Hash, x: Session)
    requires 0 < cap && Inv(s, cap, clock) && RowsAgree(s, clock) && IsRun(s, cap, clock, ops)
    requires Same(s, h, x) && x.active && AllSpare(ops, h, x)
    ensures if SomeReplay(ops, h, x) then h !in Final(s, cap, ops).sessions else Same(Final(s, cap, ops), h, x)
    decreases |ops|
  {
    if ops != [] {
      SpareStep(s, cap, clock, ops[0], h, x);
      StepKeepsInv(s, cap, clock, ops[0]);
      StepKeepsRows(s, cap, clock, ops[0]);
      if IsReplay(ops[0], h, x) {
        StaysOut(Step(s, cap, ops[0]), cap, ops[0].now, ops[1..], h, x);
      } else {
        LivesIff(Step(s, cap, ops[0]), cap, ops[0].now, ops[1..], h, x);
      }
    }
  }

  /** Once ended like that it stays ended: its row is gone as well, so a restart does not bring it back. */
  lemma {:induction false} StaysOut(s: State, cap: nat, clock: nat, ops: seq<Op>, h: Hash, x: Session)
    requires IsRun(s, cap, clock, ops) && h !in s.sessions && h !in s.rows && AllSpare(ops, h, x)
    ensures h !in Final(s, cap, ops).sessions
    decreases |ops|
  {
    if ops != [] {
      StaysOut(Step(s, cap, ops[0]), cap, ops[0].now, ops[1..], h, x);
    }
  }

  /**
   The life of a session from its creation: after whatever leaves it alone, its token validates if and only if its time
   is not over, the address shown is not foreign, and none shown before was.
   */
  lemma CreatedValidatesIff(s: State, cap: nat, clock: nat, create: Op, ops: seq<Op>, now: nat, shown: Option<string>)
    requires 0 < cap && Inv(s, cap, clock) && RowsAgree(s, clock) && create.Create?
    requires Admissible(s, clock, create) && IsRun(Step(s, cap, create), cap, create.now, ops)
    requires AllSpare(ops, create.h, NewSession(create)) && EndClock(create.now, ops) <= now
    ensures var x := NewSession(create);
            Validates(Final(Step(s, cap, create), cap, ops), create.h, now, shown) <==>
            now <= create.now + create.ttlSecs && !IsForeign(x, shown) && !SomeReplay(ops, create.h, x)
  {
    StepKeepsInv(s, cap, clock, create);
    StepKeepsRows(s, cap, clock, create);
    LivesIff(Step(s, cap, create), cap, create.now, ops, create.h, NewSession(create));
    ValidationIs(Final(Step(s, cap, create), cap, ops), create.h, now, shown);
  }

  /** A replay ends the session for good, whatever else comes, restarts included. */
  lemma ReplayEndsForever(s: State, cap: nat, clock: nat, replay: Op, ops: seq<Op>, now: nat, shown: Option<string>)
    requires RowsAgree(s, clock) && replay.Validate? && replay.h in s.sessions
    requires Admissible(s, clock, replay) && IsForeign(s.sessions[replay.h], replay.expectedIp)
    requires IsRun(Step(s, cap, replay), cap, replay.now, ops) && EndClock(replay.now, ops) <= now
    requires forall i :: 0 <= i < |ops| ==> !Recreates(ops[i], replay.h)
    ensures !Validates(Final(Step(s, cap, replay), cap, ops), replay.h, now, shown)
  {
    StepKeepsRows(s, cap, clock, replay);
    GoneForever(Step(s, cap, replay), cap, replay.now, ops, replay.h, now, shown);
  }

  // ----- the row's activity time

  /** The session is used at these times, from its own address or without showing one. */
  function Uses(times: seq<nat>, h: Hash, shown: Option<string>): seq<Op> {
    if times == [] then [] else [Validate(times[0], h, shown)] + Uses(times[1..], h, shown)
  }

  function GapBefore(times: seq<nat>, start: nat, i: nat): int
    requires i < |times|
  {
    times[i] - if i == 0 then start else times[i - 1]
  }

  ghost predicate Ascend(times: seq<nat>, start: nat) {
    forall i :: 0 <= i < |times| ==> GapBefore(times, start, i) >= 0
  }

  /** The row shows the last of these uses that came after a pause of 30 seconds, or what it showed before. */
  ghost predicate ShowsLastPause(times: seq<nat>, start: nat, before: nat, shown: nat) {
    && ((forall i :: 0 <= i < |times| ==> GapBefore(times, start, i) < 30) ==> shown == before)
    && forall i ::
         (0 <= i < |times| && GapBefore(times, start, i) >= 30
          && forall j :: i < j < |times| ==> GapBefore(times, start, j) < 30) ==> shown == times[i]
  }

  /**
   What the 30 second throttle writes out: not the activity at most 30 seconds ago, but the last one after a pause of
   30 seconds. Memory always shows the last use.
   */
  lemma {:induction false} RowShowsLastPause(s: State, cap: nat, h: Hash, times: seq<nat>, shown: Option<string>)
    requires h in s.sessions && h in s.rows && s.sessions[h].active && !IsForeign(s.sessions[h], shown)
    requires Ascend(times, s.sessions[h].lastActivity)
    requires forall i :: 0 <= i < |times| ==> times[i] <= s.sessions[h].expiresAt
    ensures var end := Final(s, cap, Uses(times, h, shown));
            && h in end.sessions && h in end.rows
            && end.sessions[h].lastActivity == (if times == [] then s.sessions[h].lastActivity else times[|times| - 1])
            && ShowsLastPause(times, s.sessions[h].lastActivity, s.rows[h].lastActivity, end.rows[h].lastActivity)
    decreases |times|
  {
    if times != [] {
      var use, rest := Validate(times[0], h, shown), times[1..];
      var s', last := Step(s, cap, use), s.sessions[h].lastActivity;
      assert Uses(times, h, shown)[1..] == Uses(rest, h, shown);
      assert GapBefore(times, last, 0) >= 0;
      forall i | 0 <= i < |rest| ensures GapBefore(rest, times[0], i) == GapBefore(times, last, i + 1) {
      }
      RowShowsLastPause(s', cap, h, rest, shown);
      LaterPauses(times, last, s.rows[h].lastActivity, s'.rows[h].lastActivity,
                  Final(s, cap, Uses(times, h, shown)).rows[h].lastActivity);
    }
  }

  lemma LaterPauses(times: seq<nat>, last: nat, before: nat, next: nat, shown: nat)
    requires times != [] && next == (if GapBefore(times, last, 0) >= 30 then times[0] else before)
    requires ShowsLastPause(times[1..], times[0], next, shown)
    ensures ShowsLastPause(times, last, before, shown)
  {
    var rest := times[1..];
    assert forall i :: 0 <= i < |rest| ==> GapBefore(rest, times[0], i) == GapBefore(times, last, i + 1);
    forall i | 0 <= i < |times| && GapBefore(times, last, i) >= 30
               && forall j :: i < j < |times| ==> GapBefore(times, last, j) < 30
      ensures shown == times[i]
    {
      if i > 0 {
        assert GapBefore(rest, times[0], i - 1) >= 30;
      }
    }
  }

  /** So a session in steady use is never written out: the row can lag behind without bound. */
  lemma SteadyUseIsNotWritten(n: nat, h: Hash) returns (s: State, times: seq<nat>)
    ensures Inv(s, 1, 0) && RowsAgree(s, 0) && IsRun(s, 1, 0, Uses(times, h, None))
    ensures var end := Final(s, 1, Uses(times, h, None));
            h in end.sessions && h in end.rows && end.sessions[h].lastActivity >= end.rows[h].lastActivity + n
  {
    var x := Session("", 0, 29 * (n + 1), 0, "", "", "", true);
    s := State(map[h := x], map["" := [h]], map[h := x]);
    times := seq(n + 1, i requires 0 <= i => 29 * (i + 1));
    assert forall u :: u != "" ==> Tokens(s, u) == [];
    RowShowsLastPause(s, 1, h, times, None);
    assert forall i :: 0 <= i < |times| ==> GapBefore(times, 0, i) < 30;
    UsesAreARun(s, 1, 0, h, times, None);
  }

  lemma {:induction false} UsesAreARun(s: State, cap: nat, clock: nat, h: Hash, times: seq<nat>, shown: Option<string>)
    requires Ascend(times, clock)
    ensures IsRun(s, cap, clock, Uses(times, h, shown))
    decreases |times|
  {
    if times != [] {
      var rest := times[1..];
      assert GapBefore(times, clock, 0) >= 0;
      assert forall i :: 0 <= i < |rest| ==> GapBefore(rest, times[0], i) == GapBefore(times, clock, i + 1);
      UsesAreARun(Step(s, cap, Validate(times[0], h, shown)), cap, times[0], h, rest, shown);
      assert Uses(times, h, shown)[1..] == Uses(rest, h, shown);
    }
  }

  // ----- cleanup

  /** A cleanup takes exactly what is inactive or expired out of memory, the rows and the lists. */
  lemma CleanupTakesExactly(s: State, now: nat, h: Hash, userId: string)
    ensures var s' := CleanedUp(s, now);
            && (h in s'.sessions <==> h in s.sessions && s.sessions[h].active && now <= s.sessions[h].expiresAt)
            && (h in s'.sessions ==> s'.sessions[h] == s.sessions[h])
            && (h in s'.rows <==> h in s.rows && (h in s.sessions ==> h in s'.sessions))
            && (h in s'.rows ==> s'.rows[h] == s.rows[h])
            && (h in Tokens(s', userId) <==>
                  h in Tokens(s, userId)
                  && (h in s.sessions && s.sessions[h].userId == userId ==> h in s'.sessions))
  {
  }
}
