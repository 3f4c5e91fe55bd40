/** A reload from the rows simulates the process that wrote them. */
module SessionRestart {
  import opened Collections
  import opened Sessions
  import opened SessionRuns

  /**
   A process reloaded at time `at` accepts, from then on, exactly the tokens the old one would accept,
   except those that expire at or before `at`; in particular it refuses a token in the very second of its
   expiry, which the old process still accepts.
   */
  lemma {:induction false} RestartAcceptsTheSame(s: State, clock: nat, order: seq<Hash>, at: nat, h: Hash, now: nat,
                                                 ip: Option<string>)
    requires RowsAgree(s, clock) && clock <= at <= now && Enumerates(order, s.rows)
    ensures Validates(Loaded(s.rows, order, at), h, now, ip) <==>
            Validates(s, h, now, ip) && at < s.sessions[h].expiresAt
  {
  }

  // ----- bisimulation of the reloaded and the old process

  ghost predicate SameButActivity(x: Session, y: Session) {
    x == y.(lastActivity := x.lastActivity)
  }

  /** The user's tokens that validate, oldest entry first. */
  function LiveList(s: State, userId: string, now: nat): seq<Hash> {
    Keeping(Tokens(s, userId), LiveTokens(s, now))
  }

  ghost predicate Similar(a: State, b: State, now: nat) {
    && LiveTokens(a, now) == LiveTokens(b, now)
    && (forall h :: h in LiveTokens(a, now) ==> SameButActivity(a.sessions[h], b.sessions[h]))
    && (forall u :: LiveList(a, u, now) == LiveList(b, u, now))
  }

  /** What a validation returns to its caller. */
  function Answer(s: State, op: Op): Option<Session>
    requires op.Validate?
  {
    if Validates(s, op.h, op.now, op.expectedIp) then Some(s.sessions[op.h].(lastActivity := op.now)) else None
  }

  function Answers(s: State, cap: nat, ops: seq<Op>): seq<Option<Session>>
    decreases |ops|
  {
    if ops == [] then []
    else (if ops[0].Validate? then [Answer(s, ops[0])] else []) + Answers(Step(s, cap, ops[0]), cap, ops[1..])
  }

  lemma InvLater(s: State, cap: nat, clock: nat, later: nat)
    requires Inv(s, cap, clock) && clock <= later
    ensures Inv(s, cap, later)
  {
  }

  lemma SimilarLater(a: State, b: State, now: nat, later: nat)
    requires Similar(a, b, now) && now <= later
    ensures Similar(a, b, later)
  {
    assert forall h :: h in LiveTokens(a, later) ==> h in LiveTokens(a, now);
    assert forall h :: h in LiveTokens(b, later) ==> h in LiveTokens(b, now);
    assert LiveTokens(a, later) == LiveTokens(b, later);
    forall u ensures LiveList(a, u, later) == LiveList(b, u, later) {
      LiveListLater(a, u, now, later);
      LiveListLater(b, u, now, later);
    }
  }

  lemma LiveListLater(s: State, u: string, now: nat, later: nat)
    requires now <= later
    ensures LiveList(s, u, later) == Keeping(LiveList(s, u, now), LiveTokens(s, later))
  {
    KeepingTwice(Tokens(s, u), LiveTokens(s, now), LiveTokens(s, later));
    assert LiveTokens(s, now) * LiveTokens(s, later) == LiveTokens(s, later);
  }

  /** If a step only drops tokens from a list, and no live one, the live list shrinks with the live set. */
  lemma ShrunkList(s: State, s': State, u: string, now: nat, keep: set<Hash>)
    requires Tokens(s', u) == Keeping(Tokens(s, u), keep)
    requires LiveTokens(s', now) <= LiveTokens(s, now)
    requires forall h :: h in Tokens(s, u) && h in LiveTokens(s', now) ==> h in keep
    ensures LiveList(s', u, now) == Keeping(LiveList(s, u, now), LiveTokens(s', now))
  {
    var live, live' := LiveTokens(s, now), LiveTokens(s', now);
    KeepingTwice(Tokens(s, u), keep, live');
    KeepingTwice(Tokens(s, u), live, live');
    KeepingSame(Tokens(s, u), keep * live', live * live');
  }

  lemma TokenDropShrinks(s: State, u: string, now: nat, h: Hash)
    ensures LiveTokens(TokenDropped(s, h), now) == LiveTokens(s, now) - {h}
    ensures LiveList(TokenDropped(s, h), u, now) == Keeping(LiveList(s, u, now), LiveTokens(s, now) - {h})
  {
    var list := Tokens(s, u);
    KeepingAll(list, Members(list));
    if h in s.sessions && s.sessions[h].userId == u {
      ShrunkList(s, TokenDropped(s, h), u, now, Members(list) - {h});
    } else {
      ShrunkList(s, TokenDropped(s, h), u, now, Members(list));
    }
  }

  lemma UserDropShrinks(s: State, cap: nat, u: string, now: nat, userId: string)
    requires Inv(s, cap, now)
    ensures LiveTokens(UserDropped(s, userId), now) == LiveTokens(s, now) - LiveOf(s, userId, now)
    ensures LiveList(UserDropped(s, userId), u, now) ==
            Keeping(LiveList(s, u, now), LiveTokens(s, now) - LiveOf(s, userId, now))
  {
    var s' := UserDropped(s, userId);
    assert ListOk(s, cap, userId) && ListOk(s, cap, u);
    assert LiveTokens(s', now) == LiveTokens(s, now) - LiveOf(s, userId, now);
    var list := Tokens(s, u);
    if u == userId {
      KeepingSame(LiveList(s, u, now), LiveTokens(s', now), {});
      EmptyOrHeaded(Keeping(LiveList(s, u, now), {}));
    } else {
      KeepingAll(list, Members(list));
      ShrunkList(s, s', u, now, Members(list));
    }
  }

  lemma CleanupShrinks(s: State, u: string, now: nat)
    ensures LiveTokens(CleanedUp(s, now), now) == LiveTokens(s, now)
    ensures LiveList(CleanedUp(s, now), u, now) == LiveList(s, u, now)
  {
    var list := Tokens(s, u);
    ShrunkList(s, CleanedUp(s, now), u, now, Members(list) - OwnedBy(s, Dead(s, now), u));
    KeepingAll(LiveList(s, u, now), LiveTokens(s, now));
  }

  lemma TokenDropKeepsSimilar(a: State, b: State, now: nat, h: Hash)
    requires Similar(a, b, now)
    ensures Similar(TokenDropped(a, h), TokenDropped(b, h), now)
  {
    forall u ensures LiveList(TokenDropped(a, h), u, now) == LiveList(TokenDropped(b, h), u, now) {
      TokenDropShrinks(a, u, now, h);
      TokenDropShrinks(b, u, now, h);
    }
    TokenDropShrinks(a, "", now, h);
    TokenDropShrinks(b, "", now, h);
    assert forall x :: x in LiveTokens(a, now) - {h} ==> TokenDropped(a, h).sessions[x] == a.sessions[x];
    assert forall x :: x in LiveTokens(b, now) - {h} ==> TokenDropped(b, h).sessions[x] == b.sessions[x];
  }

  lemma UserDropKeepsSimilar(a: State, b: State, cap: nat, now: nat, userId: string)
    requires Inv(a, cap, now) && Inv(b, cap, now) && Similar(a, b, now)
    ensures Similar(UserDropped(a, userId), UserDropped(b, userId), now)
  {
    assert LiveOf(a, userId, now) == LiveOf(b, userId, now) by {
      assert forall x :: x in LiveOf(a, userId, now) ==> x in LiveTokens(a, now);
      assert forall x :: x in LiveOf(b, userId, now) ==> x in LiveTokens(a, now);
    }
    forall u ensures LiveList(UserDropped(a, userId), u, now) == LiveList(UserDropped(b, userId), u, now) {
      UserDropShrinks(a, cap, u, now, userId);
      UserDropShrinks(b, cap, u, now, userId);
    }
    UserDropShrinks(a, cap, "", now, userId);
    UserDropShrinks(b, cap, "", now, userId);
    assert forall x :: x in LiveTokens(UserDropped(a, userId), now) ==> x in LiveTokens(a, now);
  }

  lemma {:induction false} CleanupKeepsSimilar(a: State, b: State, now: nat)
    requires Similar(a, b, now)
    ensures Similar(CleanedUp(a, now), CleanedUp(b, now), now)
  {
    forall u ensures LiveList(CleanedUp(a, now), u, now) == LiveList(CleanedUp(b, now), u, now) {
      CleanupShrinks(a, u, now);
      CleanupShrinks(b, u, now);
    }
    CleanupShrinks(a, "", now);
    CleanupShrinks(b, "", now);
  }

  lemma ValidateKeepsSimilar(a: State, b: State, cap: nat, now: nat, h: Hash, ip: Option<string>)
    requires Inv(a, cap, now) && Inv(b, cap, now) && Similar(a, b, now)
    ensures Similar(Validated(a, now, h, ip), Validated(b, now, h, ip), now)
  {
    TokenDropKeepsSimilar(a, b, now, h);
    assert h in LiveTokens(a, now) <==> h in LiveTokens(b, now);
    if h in LiveTokens(a, now) && IpBound(a.sessions[h], ip) {
      TouchKeepsLists(a, now, h);
      TouchKeepsLists(b, now, h);
    }
  }

  lemma TouchKeepsLists(s: State, now: nat, h: Hash)
    requires h in LiveTokens(s, now)
    ensures LiveTokens(Touched(s, now, h), now) == LiveTokens(s, now)
    ensures forall u :: LiveList(Touched(s, now, h), u, now) == LiveList(s, u, now)
  {
    assert LiveTokens(Touched(s, now, h), now) == LiveTokens(s, now);
  }

  lemma CreateEndsFront(s: State, cap: nat, op: Op)
    requires 0 < cap && Inv(s, cap, op.now) && op.Create? && Admissible(s, op.now, op)
    ensures var own := LiveList(s, op.userId, op.now) + [op.h];
            var ended := Members(own[..Excess(own, cap)]);
            && LiveTokens(Step(s, cap, op), op.now) == LiveTokens(s, op.now) - ended + {op.h}
            && Tokens(Step(s, cap, op), op.userId) == own[Excess(own, cap)..]
  {
    assert ListOk(s, cap, op.userId);
    PrunedEndsInNew(s, op.now, op.h, op.userId);
    CreateEndsOnlyExcess(s, cap, op.now, op);
  }

  lemma CreateSetsOwnList(s: State, cap: nat, op: Op)
    requires 0 < cap && Inv(s, cap, op.now) && op.Create? && Admissible(s, op.now, op)
    ensures var own := LiveList(s, op.userId, op.now) + [op.h];
            LiveList(Step(s, cap, op), op.userId, op.now) == own[Excess(own, cap)..]
  {
    var own := LiveList(s, op.userId, op.now) + [op.h];
    var n := Excess(own, cap);
    assert ListOk(s, cap, op.userId);
    PrunedEndsInNew(s, op.now, op.h, op.userId);
    PrunedIsDistinctAndLive(s, cap, op.now, op);
    CreateEndsFront(s, cap, op);
    forall h | h in own[n..] ensures h in LiveTokens(Step(s, cap, op), op.now) {
      assert h in own && h !in own[..n];
    }
    KeepingAll(own[n..], LiveTokens(Step(s, cap, op), op.now));
  }

  lemma CreateKeepsOtherList(s: State, cap: nat, op: Op, u: string)
    requires 0 < cap && Inv(s, cap, op.now) && op.Create? && Admissible(s, op.now, op) && u != op.userId
    ensures LiveList(Step(s, cap, op), u, op.now) == LiveList(s, u, op.now)
  {
    assert ListOk(s, cap, op.userId) && ListOk(s, cap, u);
    CreateEndsOnlyExcess(s, cap, op.now, op);
    assert Tokens(Step(s, cap, op), u) == Tokens(s, u);
    KeepingSame(Tokens(s, u), LiveTokens(Step(s, cap, op), op.now), LiveTokens(s, op.now));
  }

  lemma CreateKeepsSessions(s: State, cap: nat, op: Op, h: Hash)
    requires op.Create? && h in LiveTokens(Step(s, cap, op), op.now)
    ensures h == op.h || h in LiveTokens(s, op.now)
    ensures Step(s, cap, op).sessions[h] == if h == op.h then NewSession(op) else s.sessions[h]
  {
  }

  lemma {:induction false} CreateKeepsSimilar(a: State, b: State, cap: nat, op: Op)
    requires 0 < cap && Inv(a, cap, op.now) && Inv(b, cap, op.now) && Similar(a, b, op.now)
    requires op.Create? && Admissible(a, op.now, op) && Admissible(b, op.now, op)
    ensures Similar(Step(a, cap, op), Step(b, cap, op), op.now)
  {
    var a', b' := Step(a, cap, op), Step(b, cap, op);
    assert LiveList(a, op.userId, op.now) == LiveList(b, op.userId, op.now);
    CreateEndsFront(a, cap, op);
    CreateEndsFront(b, cap, op);
    forall u ensures LiveList(a', u, op.now) == LiveList(b', u, op.now) {
      if u == op.userId {
        CreateSetsOwnList(a, cap, op);
        CreateSetsOwnList(b, cap, op);
      } else {
        CreateKeepsOtherList(a, cap, op, u);
        CreateKeepsOtherList(b, cap, op, u);
      }
    }
    forall h | h in LiveTokens(a', op.now) ensures SameButActivity(a'.sessions[h], b'.sessions[h]) {
      CreateKeepsSessions(a, cap, op, h);
      CreateKeepsSessions(b, cap, op, h);
    }
  }

  lemma {:induction false} StepKeepsSimilar(a: State, b: State, cap: nat, clock: nat, op: Op)
    requires 0 < cap && Inv(a, cap, clock) && Inv(b, cap, clock) && Similar(a, b, clock)
    requires Admissible(a, clock, op) && Admissible(b, clock, op) && !op.Restart?
    ensures Similar(Step(a, cap, op), Step(b, cap, op), op.now)
    ensures op.Validate? ==> Answer(a, op) == Answer(b, op)
  {
    SimilarLater(a, b, clock, op.now);
    InvLater(a, cap, clock, op.now);
    InvLater(b, cap, clock, op.now);
    match op
    case Create(_, _, _, _, _, _, _) => CreateKeepsSimilar(a, b, cap, op);
    case Validate(now, h, ip) =>
      ValidateKeepsSimilar(a, b, cap, now, h, ip);
      assert h in LiveTokens(a, now) <==> h in LiveTokens(b, now);
    case InvalidateToken(now, h) => TokenDropKeepsSimilar(a, b, now, h);
    case InvalidateUser(now, userId) => UserDropKeepsSimilar(a, b, cap, now, userId);
    case Cleanup(now) => CleanupKeepsSimilar(a, b, now);
  }

  lemma {:induction false} SimilarRunsAnswerAlike(a: State, b: State, cap: nat, clock: nat, ops: seq<Op>)
    requires 0 < cap && Inv(a, cap, clock) && Inv(b, cap, clock) && RowsAgree(a, clock) && RowsAgree(b, clock)
    requires Similar(a, b, clock) && IsRun(a, cap, clock, ops) && IsRun(b, cap, clock, ops)
    requires forall i :: 0 <= i < |ops| ==> !ops[i].Restart?
    ensures Answers(a, cap, ops) == Answers(b, cap, ops)
    decreases |ops|
  {
    if ops != [] {
      var op := ops[0];
      StepKeepsSimilar(a, b, cap, clock, op);
      StepKeepsInv(a, cap, clock, op);
      StepKeepsInv(b, cap, clock, op);
      StepKeepsRows(a, cap, clock, op);
      StepKeepsRows(b, cap, clock, op);
      SimilarRunsAnswerAlike(Step(a, cap, op), Step(b, cap, op), cap, op.now, ops[1..]);
    }
  }

  /** The query returned each user's live rows in the order of the user's list. */
  ghost predicate KeepsListOrder(s: State, order: seq<Hash>, now: nat) {
    forall u :: Keeping(order, LiveOf(s, u, now)) == LiveList(s, u, now)
  }

  /** A reload keeps the live tokens and lists each user's in the order of the rows. */
  lemma ReloadedList(s: State, cap: nat, clock: nat, restart: Op, u: string)
    requires Inv(s, cap, clock) && RowsAgree(s, clock) && restart.Restart? && Admissible(s, clock, restart)
    ensures var s', now := Step(s, cap, restart), restart.now + 1;
            && LiveTokens(s', now) == LiveTokens(s, now)
            && LiveList(s', u, now) == Keeping(restart.order, LiveOf(s, u, now))
  {
    var s', now := Step(s, cap, restart), restart.now + 1;
    assert LiveTokens(s', now) == LiveTokens(s, now);
    assert ListOk(s, cap, u);
    LoadedTokens(s.rows, restart.order, restart.now, u);
    var loadable := LoadableOf(s.rows, restart.order, restart.now, u);
    KeepingTwice(restart.order, loadable, LiveTokens(s', now));
    KeepingSame(restart.order, loadable * LiveTokens(s', now), LiveOf(s, u, now));
  }

  lemma ReloadIsSimilar(s: State, cap: nat, clock: nat, op: Op)
    requires Inv(s, cap, clock) && RowsAgree(s, clock) && op.Restart? && Admissible(s, clock, op)
    requires KeepsListOrder(s, op.order, op.now + 1)
    ensures Similar(s, Step(s, cap, op), op.now + 1)
  {
    var s', now := Step(s, cap, op), op.now + 1;
    forall u ensures LiveList(s', u, now) == LiveList(s, u, now) {
      ReloadedList(s, cap, clock, op, u);
    }
    ReloadedList(s, cap, clock, op, "");
  }

  ghost predicate CanReload(s: State, clock: nat, restart: Op) {
    restart.Restart? && Admissible(s, clock, restart)
  }

  ghost predicate Continues(s: State, cap: nat, clock: nat, after: seq<Op>) {
    IsRun(s, cap, clock, after) && forall i :: 0 <= i < |after| ==> !after[i].Restart?
  }

  /**
   Restart is invisible: after any run, if the query keeps each list's order, the reloaded process and one
   that never stopped give the same answer to every later validation, whatever operations come between.
   */
  lemma {:induction false} RestartIsInvisible(cap: nat, before: seq<Op>, s: State, restart: Op, after: seq<Op>)
    requires 0 < cap && IsRun(EMPTY, cap, 0, before) && s == Final(EMPTY, cap, before)
    requires CanReload(s, EndClock(0, before), restart) && KeepsListOrder(s, restart.order, restart.now + 1)
    requires Continues(s, cap, restart.now + 1, after) && Continues(Step(s, cap, restart), cap, restart.now + 1, after)
    ensures Answers(s, cap, after) == Answers(Step(s, cap, restart), cap, after)
  {
    EmptyIsOk(cap);
    RunKeepsInv(EMPTY, cap, 0, before);
    ReloadAnswersAlike(s, cap, EndClock(0, before), restart, after);
  }

  lemma {:induction false} ReloadAnswersAlike(s: State, cap: nat, clock: nat, restart: Op, after: seq<Op>)
    requires 0 < cap && Inv(s, cap, clock) && RowsAgree(s, clock) && CanReload(s, clock, restart)
    requires KeepsListOrder(s, restart.order, restart.now + 1)
    requires Continues(s, cap, restart.now + 1, after) && Continues(Step(s, cap, restart), cap, restart.now + 1, after)
    ensures Answers(s, cap, after) == Answers(Step(s, cap, restart), cap, after)
  {
    var s', now := Step(s, cap, restart), restart.now + 1;
    StepKeepsInv(s, cap, clock, restart);
    StepKeepsRows(s, cap, clock, restart);
    ReloadIsSimilar(s, cap, clock, restart);
    InvLater(s, cap, clock, now);
    InvLater(s', cap, restart.now, now);
    RowsAgreeLater(s, clock, now);
    RowsAgreeLater(s', restart.now, now);
    SimilarRunsAnswerAlike(s, s', cap, now, after);
  }

  lemma RowsAgreeLater(s: State, clock: nat, later: nat)
    requires RowsAgree(s, clock) && clock <= later
    ensures RowsAgree(s, later)
  {
  }
}
