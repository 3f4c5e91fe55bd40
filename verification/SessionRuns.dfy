/** What every run of session operations keeps, with fresh tokens and a monotone clock. */
module SessionRuns {
  import opened Collections
  import opened Sessions

  datatype Op =
    | Create(now: nat, h: Hash, userId: string, ip: string, userAgent: string, device: string, ttlSecs: nat)
    | Validate(now: nat, h: Hash, expectedIp: Option<string>)
    | InvalidateToken(now: nat, h: Hash)
    | InvalidateUser(now: nat, userId: string)
    | Cleanup(now: nat)
    | Restart(now: nat, order: seq<Hash>)

  function NewSession(op: Op): Session
    requires op.Create?
  {
    Session(op.userId, op.now, op.now + op.ttlSecs, op.now, op.ip, op.userAgent, op.device, true)
  }

  function Step(s: State, cap: nat, op: Op): State {
    match op
    case Create(now, h, _, _, _, _, _) => Created(s, cap, now, h, NewSession(op))
    case Validate(now, h, ip) => Validated(s, now, h, ip)
    case InvalidateToken(_, h) => TokenDropped(s, h)
    case InvalidateUser(_, userId) => UserDropped(s, userId)
    case Cleanup(now) => CleanedUp(s, now)
    case Restart(now, order) => Loaded(s.rows, order, now)
  }

  /** Tokens are freshly generated, the clock does not go back, a reload sees each row once. */
  ghost predicate Admissible(s: State, clock: nat, op: Op) {
    && clock <= op.now
    && (op.Create? ==> op.h !in s.sessions)
    && (op.Restart? ==> Enumerates(op.order, s.rows))
  }

  ghost predicate IsRun(s: State, cap: nat, clock: nat, ops: seq<Op>)
    decreases |ops|
  {
    ops == [] || (Admissible(s, clock, ops[0]) && IsRun(Step(s, cap, ops[0]), cap, ops[0].now, ops[1..]))
  }

  function Final(s: State, cap: nat, ops: seq<Op>): State
    decreases |ops|
  {
    if ops == [] then s else Final(Step(s, cap, ops[0]), cap, ops[1..])
  }

  function EndClock(clock: nat, ops: seq<Op>): nat {
    if ops == [] then clock else ops[|ops| - 1].now
  }

  // ----- the class invariant

  ghost predicate ListOk(s: State, cap: nat, userId: string) {
    var list := Tokens(s, userId);
    && Distinct(list)
    && |list| <= cap
    && forall h :: h in list ==> h in s.sessions && s.sessions[h].userId == userId && s.sessions[h].active
  }

  ghost predicate Inv(s: State, cap: nat, clock: nat) {
    && (forall h :: h in s.sessions && Live(s.sessions[h], clock) ==> h in Tokens(s, s.sessions[h].userId))
    && (forall userId :: ListOk(s, cap, userId))
  }

  /** Rows lag in `last_activity` only; a row without a session is one that a reload skips. */
  ghost predicate RowsAgree(s: State, clock: nat) {
    && (forall h :: h in s.sessions ==>
          h in s.rows && s.rows[h] == s.sessions[h].(lastActivity := s.rows[h].lastActivity))
    && (forall h :: h in s.rows && h !in s.sessions ==> !Loadable(s.rows[h], clock))
  }

  lemma {:induction false} PrunedEndsInNew(s: State, now: nat, h: Hash, userId: string)
    requires h !in Tokens(s, userId)
    ensures PrunedTokens(s, now, h, userId) == Keeping(Tokens(s, userId), LiveTokens(s, now)) + [h]
  {
    KeepingSnoc(Tokens(s, userId), h, LiveTokens(s, now) + {h});
    KeepingSame(Tokens(s, userId), LiveTokens(s, now) + {h}, LiveTokens(s, now));
  }

  lemma {:induction false} PrunedIsDistinctAndLive(s: State, cap: nat, clock: nat, op: Op)
    requires Inv(s, cap, clock) && op.Create? && Admissible(s, clock, op)
    ensures var tokens := PrunedTokens(s, op.now, op.h, op.userId);
            && Distinct(tokens)
            && forall h :: h in tokens && h != op.h ==> h in LiveTokens(s, op.now) && s.sessions[h].userId == op.userId
  {
    assert ListOk(s, cap, op.userId);
    PrunedEndsInNew(s, op.now, op.h, op.userId);
    KeepingDistinct(Tokens(s, op.userId), LiveTokens(s, op.now));
  }

  lemma CreateKeepsOwnList(s: State, cap: nat, clock: nat, op: Op)
    requires 0 < cap && Inv(s, cap, clock) && op.Create? && Admissible(s, clock, op)
    ensures ListOk(Step(s, cap, op), cap, op.userId)
  {
    var tokens := PrunedTokens(s, op.now, op.h, op.userId);
    var n := Excess(tokens, cap);
    PrunedIsDistinctAndLive(s, cap, clock, op);
    forall h | h in tokens[n..] ensures h !in tokens[..n] {
    }
  }

  lemma {:induction false} CreateKeepsOtherLists(s: State, cap: nat, clock: nat, op: Op, userId: string)
    requires Inv(s, cap, clock) && op.Create? && Admissible(s, clock, op) && userId != op.userId
    ensures ListOk(Step(s, cap, op), cap, userId)
  {
    assert ListOk(s, cap, userId);
    var tokens := PrunedTokens(s, op.now, op.h, op.userId);
    PrunedIsDistinctAndLive(s, cap, clock, op);
    assert Tokens(Step(s, cap, op), userId) == Tokens(s, userId);
    forall h | h in tokens[..Excess(tokens, cap)] ensures h !in Tokens(s, userId) {
      assert h in tokens;
    }
  }

  lemma CreateKeepsLists(s: State, cap: nat, clock: nat, op: Op, userId: string)
    requires 0 < cap && Inv(s, cap, clock) && op.Create? && Admissible(s, clock, op)
    ensures ListOk(Step(s, cap, op), cap, userId)
  {
    if userId == op.userId {
      CreateKeepsOwnList(s, cap, clock, op);
    } else {
      CreateKeepsOtherLists(s, cap, clock, op, userId);
    }
  }

  lemma {:induction false} NewTokenIsListed(s: State, cap: nat, clock: nat, op: Op)
    requires 0 < cap && Inv(s, cap, clock) && op.Create? && Admissible(s, clock, op)
    ensures op.h in Tokens(Step(s, cap, op), op.userId)
  {
    assert ListOk(s, cap, op.userId);
    PrunedEndsInNew(s, op.now, op.h, op.userId);
    var tokens := PrunedTokens(s, op.now, op.h, op.userId);
    var n := Excess(tokens, cap);
    assert tokens[n..][|tokens| - 1 - n] == op.h;
  }

  lemma {:induction false} CreateKeepsListed(s: State, cap: nat, clock: nat, op: Op, h: Hash)
    requires 0 < cap && Inv(s, cap, clock) && op.Create? && Admissible(s, clock, op)
    requires var s' := Step(s, cap, op);
             h in s'.sessions && Live(s'.sessions[h], op.now)
    ensures var s' := Step(s, cap, op);
            h in Tokens(s', s'.sessions[h].userId)
  {
    var tokens := PrunedTokens(s, op.now, op.h, op.userId);
    var n := Excess(tokens, cap);
    if h == op.h {
      NewTokenIsListed(s, cap, clock, op);
    } else {
      assert h !in tokens[..n] && h in Tokens(s, s.sessions[h].userId);
      assert tokens == tokens[..n] + tokens[n..];
    }
  }

  lemma CreateKeepsInv(s: State, cap: nat, clock: nat, op: Op)
    requires 0 < cap && Inv(s, cap, clock) && op.Create? && Admissible(s, clock, op)
    ensures Inv(Step(s, cap, op), cap, op.now)
  {
    var s' := Step(s, cap, op);
    forall userId ensures ListOk(s', cap, userId) {
      CreateKeepsLists(s, cap, clock, op, userId);
    }
    forall h | h in s'.sessions && Live(s'.sessions[h], op.now) ensures h in Tokens(s', s'.sessions[h].userId) {
      CreateKeepsListed(s, cap, clock, op, h);
    }
  }

  lemma TokenDropKeepsInv(s: State, cap: nat, clock: nat, h: Hash)
    requires Inv(s, cap, clock)
    ensures Inv(TokenDropped(s, h), cap, clock)
  {
    forall userId ensures ListOk(TokenDropped(s, h), cap, userId) {
      assert ListOk(s, cap, userId);
      KeepingDistinct(Tokens(s, userId), Members(Tokens(s, userId)) - {h});
    }
  }

  lemma UserDropKeepsInv(s: State, cap: nat, clock: nat, userId: string)
    requires Inv(s, cap, clock)
    ensures Inv(UserDropped(s, userId), cap, clock)
  {
    var s' := UserDropped(s, userId);
    assert ListOk(s, cap, userId);
    forall u ensures ListOk(s', cap, u) {
      assert ListOk(s, cap, u);
    }
  }

  lemma CleanupKeepsInv(s: State, cap: nat, clock: nat, now: nat)
    requires Inv(s, cap, clock) && clock <= now
    ensures Inv(CleanedUp(s, now), cap, now)
  {
    var s' := CleanedUp(s, now);
    var gone := Dead(s, now);
    forall u ensures ListOk(s', cap, u) {
      assert ListOk(s, cap, u);
      KeepingDistinct(Tokens(s, u), Members(Tokens(s, u)) - OwnedBy(s, gone, u));
    }
  }

  lemma {:induction false} RestartKeepsInv(s: State, cap: nat, clock: nat, op: Op)
    requires Inv(s, cap, clock) && RowsAgree(s, clock) && op.Restart? && Admissible(s, clock, op)
    ensures Inv(Step(s, cap, op), cap, op.now)
  {
    var s' := Step(s, cap, op);
    forall u ensures ListOk(s', cap, u) {
      assert ListOk(s, cap, u);
      var list := LoadedList(s.rows, op.order, op.now, u);
      KeepingDistinct(op.order, LoadableOf(s.rows, op.order, op.now, u));
      DistinctAtMost(list, Tokens(s, u));
    }
    forall h | h in s'.sessions ensures h in Tokens(s', s'.sessions[h].userId) {
      assert h in LoadedList(s.rows, op.order, op.now, s'.sessions[h].userId);
      assert s'.sessions[h].userId in Owners(s.rows, op.order, op.now);
    }
  }

  lemma {:induction false} StepKeepsInv(s: State, cap: nat, clock: nat, op: Op)
    requires 0 < cap && Inv(s, cap, clock) && RowsAgree(s, clock) && Admissible(s, clock, op)
    ensures Inv(Step(s, cap, op), cap, op.now)
  {
    match op
    case Create(_, _, _, _, _, _, _) => CreateKeepsInv(s, cap, clock, op);
    case Validate(now, h, ip) =>
      if h in s.sessions && Live(s.sessions[h], now) && !IpBound(s.sessions[h], ip) {
        TokenDropKeepsInv(s, cap, clock, h);
      } else {
        forall u ensures ListOk(Step(s, cap, op), cap, u) {
          assert ListOk(s, cap, u);
        }
      }
    case InvalidateToken(_, h) => TokenDropKeepsInv(s, cap, clock, h);
    case InvalidateUser(_, userId) => UserDropKeepsInv(s, cap, clock, userId);
    case Cleanup(now) => CleanupKeepsInv(s, cap, clock, now);
    case Restart(_, _) => RestartKeepsInv(s, cap, clock, op);
  }

  lemma {:induction false} CreateKeepsRows(s: State, cap: nat, clock: nat, op: Op)
    requires RowsAgree(s, clock) && op.Create? && Admissible(s, clock, op)
    ensures RowsAgree(Step(s, cap, op), op.now)
  {
  }

  lemma {:induction false} DropsKeepRows(s: State, clock: nat, now: nat, h: Hash, userId: string)
    requires RowsAgree(s, clock) && clock <= now
    ensures RowsAgree(TokenDropped(s, h), now) && RowsAgree(UserDropped(s, userId), now)
    ensures RowsAgree(CleanedUp(s, now), now)
  {
  }

  lemma {:induction false} ValidateKeepsRows(s: State, clock: nat, op: Op)
    requires RowsAgree(s, clock) && op.Validate? && Admissible(s, clock, op)
    ensures RowsAgree(Validated(s, op.now, op.h, op.expectedIp), op.now)
  {
  }

  lemma {:induction false} RestartKeepsRows(s: State, clock: nat, op: Op)
    requires RowsAgree(s, clock) && op.Restart? && Admissible(s, clock, op)
    ensures RowsAgree(Loaded(s.rows, op.order, op.now), op.now)
  {
  }

  lemma {:induction false} StepKeepsRows(s: State, cap: nat, clock: nat, op: Op)
    requires RowsAgree(s, clock) && Admissible(s, clock, op)
    ensures RowsAgree(Step(s, cap, op), op.now)
  {
    match op
    case Create(_, _, _, _, _, _, _) => CreateKeepsRows(s, cap, clock, op);
    case Validate(_, _, _) => ValidateKeepsRows(s, clock, op);
    case InvalidateToken(now, h) => DropsKeepRows(s, clock, now, h, "");
    case InvalidateUser(now, userId) => DropsKeepRows(s, clock, now, "", userId);
    case Cleanup(now) => DropsKeepRows(s, clock, now, "", "");
    case Restart(_, _) => RestartKeepsRows(s, clock, op);
  }

  lemma {:induction false} RunKeepsInv(s: State, cap: nat, clock: nat, ops: seq<Op>)
    requires 0 < cap && Inv(s, cap, clock) && RowsAgree(s, clock) && IsRun(s, cap, clock, ops)
    ensures Inv(Final(s, cap, ops), cap, EndClock(clock, ops))
    ensures RowsAgree(Final(s, cap, ops), EndClock(clock, ops))
    ensures clock <= EndClock(clock, ops)
    decreases |ops|
  {
    if ops != [] {
      StepKeepsInv(s, cap, clock, ops[0]);
      StepKeepsRows(s, cap, clock, ops[0]);
      RunKeepsInv(Step(s, cap, ops[0]), cap, ops[0].now, ops[1..]);
    }
  }

  const EMPTY := State(map[], map[], map[])

  lemma EmptyIsOk(cap: nat)
    ensures Inv(EMPTY, cap, 0) && RowsAgree(EMPTY, 0)
  {
  }

  ghost function LiveOf(s: State, userId: string, now: nat): set<Hash> {
    set h | h in s.sessions && s.sessions[h].userId == userId && Live(s.sessions[h], now)
  }

  /** From an empty manager, every run, restarts included, keeps a user within the cap. */
  lemma {:induction false} CapHolds(cap: nat, ops: seq<Op>, userId: string, now: nat)
    requires 0 < cap && IsRun(EMPTY, cap, 0, ops) && EndClock(0, ops) <= now
    ensures |LiveOf(Final(EMPTY, cap, ops), userId, now)| <= cap
  {
    EmptyIsOk(cap);
    RunKeepsInv(EMPTY, cap, 0, ops);
    var end := Final(EMPTY, cap, ops);
    assert ListOk(end, cap, userId);
    MembersAtMostLength(LiveOf(end, userId, now), Tokens(end, userId));
  }

  // ----- a dead token stays dead

  /** Nothing accepts `h` now or later. */
  ghost predicate Gone(s: State, h: Hash, now: nat) {
    h !in s.sessions || !Live(s.sessions[h], now)
  }

  ghost predicate Recreates(op: Op, h: Hash) {
    op.Create? && op.h == h
  }

  lemma StepKeepsGone(s: State, cap: nat, clock: nat, op: Op, h: Hash)
    requires RowsAgree(s, clock) && Admissible(s, clock, op) && Gone(s, h, clock) && !Recreates(op, h)
    ensures Gone(Step(s, cap, op), h, op.now)
  {
  }

  /** Whatever follows, restarts included, a token that is gone never validates again. */
  lemma {:induction false} GoneForever(s: State, cap: nat, clock: nat, ops: seq<Op>, h: Hash, now: nat,
                                       ip: Option<string>)
    requires RowsAgree(s, clock) && IsRun(s, cap, clock, ops) && Gone(s, h, clock)
    requires forall i :: 0 <= i < |ops| ==> !Recreates(ops[i], h)
    requires EndClock(clock, ops) <= now
    ensures !Validates(Final(s, cap, ops), h, now, ip)
    decreases |ops|
  {
    if ops != [] {
      StepKeepsRows(s, cap, clock, ops[0]);
      StepKeepsGone(s, cap, clock, ops[0], h);
      GoneForever(Step(s, cap, ops[0]), cap, ops[0].now, ops[1..], h, now, ip);
    }
  }

  /** A force logout ends every session of the user, the unlisted ones included. */
  lemma {:induction false} UserDropEndsAll(s: State, cap: nat, clock: nat, userId: string, h: Hash)
    requires Inv(s, cap, clock) && h in s.sessions && s.sessions[h].userId == userId
    ensures Gone(UserDropped(s, userId), h, clock)
    ensures forall x :: x in s.sessions && s.sessions[x].userId != userId ==>
              x in UserDropped(s, userId).sessions && UserDropped(s, userId).sessions[x] == s.sessions[x]
  {
    assert ListOk(s, cap, userId);
  }

  // ----- whom a creation evicts

  /** Token lists are in creation order. */
  ghost predicate ByAge(s: State, clock: nat) {
    && (forall h :: h in s.sessions ==> s.sessions[h].createdAt <= clock)
    && forall u :: ListByAge(s, Tokens(s, u))
  }

  ghost predicate ListByAge(s: State, list: seq<Hash>) {
    forall i, j :: 0 <= i < j < |list| && list[i] in s.sessions && list[j] in s.sessions ==>
      s.sessions[list[i]].createdAt <= s.sessions[list[j]].createdAt
  }

  lemma {:induction false} KeepingByAge(s: State, list: seq<Hash>, keep: set<Hash>)
    requires ListByAge(s, list)
    ensures ListByAge(s, Keeping(list, keep))
  {
    if list != [] {
      var n := |list| - 1;
      var front := Keeping(list[..n], keep);
      KeepingByAge(s, list[..n], keep);
      forall i | 0 <= i < |front| && front[i] in s.sessions && list[n] in s.sessions
        ensures s.sessions[front[i]].createdAt <= s.sessions[list[n]].createdAt
      {
        assert front[i] in front;
        assert front[i] in list[..n];
      }
    }
  }

  ghost function Evicted(s: State, cap: nat, op: Op): set<Hash>
    requires op.Create?
  {
    var tokens := PrunedTokens(s, op.now, op.h, op.userId);
    Members(tokens[..Excess(tokens, cap)])
  }

  /** The tokens to evict are the front of the user's live list, as many as the cap demands. */
  lemma {:induction false} EvictedAreFront(s: State, cap: nat, clock: nat, op: Op)
    requires 0 < cap && Inv(s, cap, clock) && op.Create? && Admissible(s, clock, op)
    ensures var live := Keeping(Tokens(s, op.userId), LiveTokens(s, op.now));
            var before := |LiveOf(s, op.userId, op.now)|;
            var n := if before + 1 > cap then before + 1 - cap else 0;
            && Members(live) == LiveOf(s, op.userId, op.now)
            && n <= |live| && Evicted(s, cap, op) == Members(live[..n]) && |Evicted(s, cap, op)| == n
  {
    var live := Keeping(Tokens(s, op.userId), LiveTokens(s, op.now));
    assert ListOk(s, cap, op.userId);
    PrunedEndsInNew(s, op.now, op.h, op.userId);
    KeepingDistinct(Tokens(s, op.userId), LiveTokens(s, op.now));
    DistinctSize(live);
    assert Members(live) == LiveOf(s, op.userId, op.now);
    var n := Excess(live + [op.h], cap);
    assert (live + [op.h])[..n] == live[..n];
    DistinctSize(live[..n]);
  }

  /** A creation ends exactly as many of the user's live sessions as the cap demands, and nobody else's. */
  lemma {:induction false} CreateEndsOnlyExcess(s: State, cap: nat, clock: nat, op: Op)
    requires 0 < cap && Inv(s, cap, clock) && op.Create? && Admissible(s, clock, op)
    ensures Evicted(s, cap, op) <= LiveOf(s, op.userId, op.now)
    ensures var before := |LiveOf(s, op.userId, op.now)|;
            |Evicted(s, cap, op)| == if before + 1 > cap then before + 1 - cap else 0
    ensures LiveTokens(Step(s, cap, op), op.now) == LiveTokens(s, op.now) - Evicted(s, cap, op) + {op.h}
  {
    EvictedAreFront(s, cap, clock, op);
  }

  /** With token lists in creation order, a creation ends the oldest sessions. */
  lemma {:induction false} CreateEndsOldest(s: State, cap: nat, clock: nat, op: Op, e: Hash, k: Hash)
    requires 0 < cap && Inv(s, cap, clock) && ByAge(s, clock) && op.Create? && Admissible(s, clock, op)
    requires e in Evicted(s, cap, op) && k in LiveOf(s, op.userId, op.now) - Evicted(s, cap, op)
    ensures e in s.sessions && s.sessions[e].createdAt <= s.sessions[k].createdAt
  {
    var live := Keeping(Tokens(s, op.userId), LiveTokens(s, op.now));
    EvictedAreFront(s, cap, clock, op);
    CreateEndsOnlyExcess(s, cap, clock, op);
    var n := |Evicted(s, cap, op)|;
    KeepingByAge(s, Tokens(s, op.userId), LiveTokens(s, op.now));
    var i :| 0 <= i < n && live[..n][i] == e;
    var j :| 0 <= j < |live| && live[j] == k;
    assert live[i] == e;
    assert forall x :: 0 <= x < n ==> live[..n][x] == live[x] && live[x] in live[..n];
  }

  lemma {:induction false} CreateKeepsAges(s: State, cap: nat, clock: nat, op: Op, list: seq<Hash>)
    requires op.Create? && Admissible(s, clock, op) && ListByAge(s, list)
    requires forall h :: h in list ==> h in s.sessions
    requires forall h :: h in s.sessions ==> s.sessions[h].createdAt <= clock
    ensures ListByAge(Step(s, cap, op), list) && ListByAge(Step(s, cap, op), list + [op.h])
  {
    var s' := Step(s, cap, op);
    forall h | h in list ensures h in s'.sessions && s'.sessions[h].createdAt == s.sessions[h].createdAt {
    }
    assert s'.sessions[op.h].createdAt == op.now;
  }

  lemma {:induction false} CreateKeepsOwnAge(s: State, cap: nat, clock: nat, op: Op)
    requires 0 < cap && Inv(s, cap, clock) && ByAge(s, clock) && op.Create? && Admissible(s, clock, op)
    ensures ListByAge(Step(s, cap, op), Tokens(Step(s, cap, op), op.userId))
  {
    var u := op.userId;
    assert ListOk(s, cap, u) && ListByAge(s, Tokens(s, u));
    var live := Keeping(Tokens(s, u), LiveTokens(s, op.now));
    PrunedEndsInNew(s, op.now, op.h, u);
    KeepingByAge(s, Tokens(s, u), LiveTokens(s, op.now));
    CreateKeepsAges(s, cap, clock, op, live);
    assert Tokens(Step(s, cap, op), u) == (live + [op.h])[Excess(live + [op.h], cap)..];
  }

  lemma {:induction false} CreateKeepsAge(s: State, cap: nat, clock: nat, op: Op)
    requires 0 < cap && Inv(s, cap, clock) && ByAge(s, clock) && op.Create? && Admissible(s, clock, op)
    ensures ByAge(Step(s, cap, op), op.now)
  {
    var s' := Step(s, cap, op);
    forall u ensures ListByAge(s', Tokens(s', u)) {
      if u == op.userId {
        CreateKeepsOwnAge(s, cap, clock, op);
      } else {
        assert ListOk(s, cap, u) && ListByAge(s, Tokens(s, u));
        assert Tokens(s', u) == Tokens(s, u);
        CreateKeepsAges(s, cap, clock, op, Tokens(s, u));
      }
    }
  }

  /** Sessions may go or be touched, but none is new and none changes its age. */
  ghost predicate NoneNew(s: State, s': State) {
    forall h :: h in s'.sessions ==> h in s.sessions && s'.sessions[h].createdAt == s.sessions[h].createdAt
  }

  lemma SmallerListByAge(s: State, s': State, u: string, gone: set<Hash>)
    requires ListByAge(s, Tokens(s, u)) && NoneNew(s, s') && Tokens(s', u) == Without(Tokens(s, u), gone)
    ensures ListByAge(s', Tokens(s', u))
  {
    KeepingByAge(s, Tokens(s, u), Members(Tokens(s, u)) - gone);
  }

  lemma TokenDropKeepsAge(s: State, clock: nat, h: Hash)
    requires ByAge(s, clock)
    ensures ByAge(TokenDropped(s, h), clock)
  {
    var s' := TokenDropped(s, h);
    forall u ensures ListByAge(s', Tokens(s', u)) {
      assert ListByAge(s, Tokens(s, u));
      if Tokens(s', u) != Tokens(s, u) {
        SmallerListByAge(s, s', u, {h});
      }
    }
  }

  lemma UserDropKeepsAge(s: State, clock: nat, userId: string)
    requires ByAge(s, clock)
    ensures ByAge(UserDropped(s, userId), clock)
  {
    var s' := UserDropped(s, userId);
    forall u ensures ListByAge(s', Tokens(s', u)) {
      assert ListByAge(s, Tokens(s, u));
      assert Tokens(s', u) == if u == userId then [] else Tokens(s, u);
    }
  }

  lemma {:induction false} CleanupKeepsAge(s: State, clock: nat, now: nat)
    requires ByAge(s, clock) && clock <= now
    ensures ByAge(CleanedUp(s, now), now)
  {
    var s' := CleanedUp(s, now);
    forall u ensures ListByAge(s', Tokens(s', u)) {
      assert ListByAge(s, Tokens(s, u));
      SmallerListByAge(s, s', u, OwnedBy(s, Dead(s, now), u));
    }
  }

  lemma {:induction false} TouchKeepsAge(s: State, clock: nat, now: nat, h: Hash)
    requires ByAge(s, clock) && h in s.sessions
    ensures ByAge(Touched(s, now, h), clock)
  {
    var s' := Touched(s, now, h);
    forall u ensures ListByAge(s', Tokens(s', u)) {
      assert ListByAge(s, Tokens(s, u));
    }
  }

  lemma {:induction false} StepKeepsAge(s: State, cap: nat, clock: nat, op: Op)
    requires 0 < cap && Inv(s, cap, clock) && ByAge(s, clock) && !op.Restart? && Admissible(s, clock, op)
    ensures ByAge(Step(s, cap, op), op.now)
  {
    match op
    case Create(_, _, _, _, _, _, _) => CreateKeepsAge(s, cap, clock, op);
    case Validate(now, h, ip) =>
      TokenDropKeepsAge(s, clock, h);
      if h in s.sessions {
        TouchKeepsAge(s, clock, now, h);
      }
    case InvalidateToken(_, h) => TokenDropKeepsAge(s, clock, h);
    case InvalidateUser(_, userId) => UserDropKeepsAge(s, clock, userId);
    case Cleanup(now) => CleanupKeepsAge(s, clock, now);
  }

  /** Without a restart token lists stay in creation order, so every creation ends the oldest sessions. */
  lemma {:induction false} RunKeepsAge(s: State, cap: nat, clock: nat, ops: seq<Op>)
    requires 0 < cap && Inv(s, cap, clock) && RowsAgree(s, clock) && ByAge(s, clock) && IsRun(s, cap, clock, ops)
    requires forall i :: 0 <= i < |ops| ==> !ops[i].Restart?
    ensures ByAge(Final(s, cap, ops), EndClock(clock, ops))
    decreases |ops|
  {
    if ops != [] {
      StepKeepsInv(s, cap, clock, ops[0]);
      StepKeepsRows(s, cap, clock, ops[0]);
      StepKeepsAge(s, cap, clock, ops[0]);
      RunKeepsAge(Step(s, cap, ops[0]), cap, ops[0].now, ops[1..]);
    }
  }

  ghost predicate RowsByAge(rows: map<Hash, Session>, order: seq<Hash>, now: nat)
    requires Enumerates(order, rows)
  {
    forall i, j :: 0 <= i < j < |order| && Loadable(rows[order[i]], now) && Loadable(rows[order[j]], now)
                   && rows[order[i]].userId == rows[order[j]].userId ==>
                     rows[order[i]].createdAt <= rows[order[j]].createdAt
  }

  /**
   A restart lists the sessions in the order of the query, which asks for none; the lists are in creation
   order afterwards exactly when the query returned each user's loadable rows in that order.
   */
  lemma {:induction false} RestartAgeIffRowOrder(s: State, cap: nat, clock: nat, op: Op)
    requires RowsAgree(s, clock) && op.Restart? && Admissible(s, clock, op)
    requires forall h :: h in s.sessions ==> s.sessions[h].createdAt <= clock
    ensures ByAge(Step(s, cap, op), op.now) <==> RowsByAge(s.rows, op.order, op.now)
  {
    var s' := Step(s, cap, op);
    assert forall h :: h in s'.sessions ==> h in s.sessions && s'.sessions[h].createdAt <= op.now;
    if ByAge(s', op.now) {
      forall i, j | 0 <= i < j < |op.order| && Loadable(s.rows[op.order[i]], op.now)
                    && Loadable(s.rows[op.order[j]], op.now)
                    && s.rows[op.order[i]].userId == s.rows[op.order[j]].userId
        ensures s.rows[op.order[i]].createdAt <= s.rows[op.order[j]].createdAt
      {
        assert ListByAge(s', Tokens(s', s.rows[op.order[i]].userId));
        ListAgeGivesRowAge(s.rows, op.order, op.now, i, j);
      }
    }
    if RowsByAge(s.rows, op.order, op.now) {
      forall u ensures ListByAge(s', Tokens(s', u)) {
        RowAgeGivesListAge(s.rows, op.order, op.now, u);
      }
    }
  }

  lemma {:induction false} ListAgeGivesRowAge(rows: map<Hash, Session>, order: seq<Hash>, now: nat, i: nat, j: nat)
    requires Enumerates(order, rows) && i < j < |order|
    requires Loadable(rows[order[i]], now) && Loadable(rows[order[j]], now)
    requires rows[order[i]].userId == rows[order[j]].userId
    requires var s := Loaded(rows, order, now);
             ListByAge(s, Tokens(s, rows[order[i]].userId))
    ensures rows[order[i]].createdAt <= rows[order[j]].createdAt
  {
    var u := rows[order[i]].userId;
    LoadedTokens(rows, order, now, u);
    var a, b := KeepingHasPair(order, LoadableOf(rows, order, now, u), i, j);
  }

  lemma {:induction false} RowAgeGivesListAge(rows: map<Hash, Session>, order: seq<Hash>, now: nat, u: string)
    requires Enumerates(order, rows) && RowsByAge(rows, order, now)
    ensures var s := Loaded(rows, order, now);
            ListByAge(s, Tokens(s, u))
  {
    var s := Loaded(rows, order, now);
    LoadedTokens(rows, order, now, u);
    var list := LoadedList(rows, order, now, u);
    forall a, b | 0 <= a < b < |list| && list[a] in s.sessions && list[b] in s.sessions
      ensures s.sessions[list[a]].createdAt <= s.sessions[list[b]].createdAt
    {
      var i, j := KeepingFromPair(order, LoadableOf(rows, order, now, u), a, b);
      assert list[a] in LoadableOf(rows, order, now, u) && list[b] in LoadableOf(rows, order, now, u);
    }
  }

  lemma LoadedTokens(rows: map<Hash, Session>, order: seq<Hash>, now: nat, u: string)
    ensures Tokens(Loaded(rows, order, now), u) == LoadedList(rows, order, now, u)
  {
    if u !in Owners(rows, order, now) {
      NoOwnerNoList(rows, order, now, u);
    }
  }
}
