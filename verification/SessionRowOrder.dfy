/**
 Why the order of the reloaded rows matters: if it differs from the order of a user's token list, new sessions of
 that user make the reloaded process end other sessions than the old one would.
 */
module SessionRowOrder {
  import opened Collections
  import opened Sessions
  import opened SessionRuns
  import opened SessionRestart

  // ----- tokens that nobody has

  lemma {:induction false} LongerThanAll(used: set<Hash>) returns (n: nat)
    ensures forall h :: h in used ==> |h| < n
  {
    if used == {} {
      n := 0;
    } else {
      var h :| h in used;
      var m := LongerThanAll(used - {h});
      n := if m > |h| then m else |h| + 1;
      assert forall x :: x in used ==> x == h || x in used - {h};
    }
  }

  lemma {:induction false} FreshHashes(used: set<Hash>, k: nat) returns (unused: seq<Hash>)
    ensures |unused| == k && Distinct(unused) && forall h :: h in unused ==> h !in used
    decreases k
  {
    if k == 0 {
      unused := [];
    } else {
      var n := LongerThanAll(used);
      var h := seq(n, _ => 'x');
      assert h !in used;
      var rest := FreshHashes(used + {h}, k - 1);
      unused := [h] + rest;
    }
  }

  // ----- many creations and one validation

  function Creations(u: string, now: nat, hs: seq<Hash>): seq<Op> {
    if hs == [] then [] else [Create(now, hs[0], u, "", "", "", 0)] + Creations(u, now, hs[1..])
  }

  /** What is left of a list that the cap cuts at the front. */
  function Kept(list: seq<Hash>, cap: nat): seq<Hash> {
    list[Excess(list, cap)..]
  }

  lemma KeptTwice(list: seq<Hash>, more: seq<Hash>, cap: nat)
    ensures Kept(Kept(list, cap) + more, cap) == Kept(list + more, cap)
  {
  }

  /** A live session is listed; a creation keeps it live exactly if it keeps it listed. */
  lemma {:induction false} CreationKeepsListed(s: State, cap: nat, op: Op, x: Hash)
    requires 0 < cap && Inv(s, cap, op.now) && op.Create? && Admissible(s, op.now, op) && x != op.h
    requires x in LiveTokens(s, op.now) <==> x in LiveList(s, op.userId, op.now)
    ensures var own := LiveList(s, op.userId, op.now) + [op.h];
            x in LiveTokens(Step(s, cap, op), op.now) <==> x in Kept(own, cap)
  {
    var own := LiveList(s, op.userId, op.now) + [op.h];
    CreateEndsFront(s, cap, op);
    OwnListIsDistinct(s, cap, op);
    BehindTheCut(own, Excess(own, cap), x);
  }

  lemma BehindTheCut(list: seq<Hash>, n: nat, x: Hash)
    requires Distinct(list) && n <= |list|
    ensures x in list[n..] <==> x in list && x !in list[..n]
  {
    assert list == list[..n] + list[n..];
  }

  lemma OwnListIsDistinct(s: State, cap: nat, op: Op)
    requires Inv(s, cap, op.now) && op.Create? && Admissible(s, op.now, op)
    ensures Distinct(LiveList(s, op.userId, op.now) + [op.h])
  {
    assert ListOk(s, cap, op.userId);
    KeepingDistinct(Tokens(s, op.userId), LiveTokens(s, op.now));
  }

  lemma {:induction false} CreateThen(s: State, cap: nat, clock: nat, op: Op, rest: seq<Op>)
    requires op.Create? && Admissible(s, clock, op) && Continues(Step(s, cap, op), cap, op.now, rest)
    ensures Continues(s, cap, clock, [op] + rest)
    ensures Answers(s, cap, [op] + rest) == Answers(Step(s, cap, op), cap, rest)
  {
    assert ([op] + rest)[1..] == rest;
  }

  lemma {:induction false} LoneValidation(s: State, cap: nat, now: nat, x: Hash)
    ensures Continues(s, cap, now, [Validate(now, x, None)])
    ensures |Answers(s, cap, [Validate(now, x, None)])| == 1
    ensures Answers(s, cap, [Validate(now, x, None)])[0].Some? <==> x in LiveTokens(s, now)
  {
    var op := Validate(now, x, None);
    assert [op][1..] == [];
    assert Answers(Step(s, cap, op), cap, []) == [];
  }

  ghost predicate Answered(s: State, cap: nat, clock: nat, ops: seq<Op>, accepted: bool) {
    Continues(s, cap, clock, ops) && |Answers(s, cap, ops)| == 1 && (Answers(s, cap, ops)[0].Some? <==> accepted)
  }

  /** After new sessions of the user a token validates exactly if the cap has left it in the list. */
  lemma {:induction false} CreationsDecide(s: State, cap: nat, now: nat, u: string, hs: seq<Hash>, x: Hash)
    requires 0 < cap && Inv(s, cap, now) && RowsAgree(s, now)
    requires Distinct(hs) && x !in hs && forall h :: h in hs ==> h !in s.sessions
    requires x in LiveTokens(s, now) <==> x in LiveList(s, u, now)
    ensures Answered(s, cap, now, Creations(u, now, hs) + [Validate(now, x, None)],
                     x in Kept(LiveList(s, u, now) + hs, cap))
    decreases |hs|
  {
    var check := [Validate(now, x, None)];
    if hs == [] {
      assert Creations(u, now, hs) + check == check && LiveList(s, u, now) + hs == LiveList(s, u, now);
      ShortListIsKept(s, cap, now, u);
      LoneValidation(s, cap, now, x);
    } else {
      var op := Create(now, hs[0], u, "", "", "", 0);
      var rest := Creations(u, now, hs[1..]) + check;
      assert Creations(u, now, hs) + check == [op] + rest;
      NextCreation(s, cap, now, op, hs, x);
      CreationsDecide(Step(s, cap, op), cap, now, u, hs[1..], x);
      CreateThen(s, cap, now, op, rest);
    }
  }

  lemma {:induction false} NextCreation(s: State, cap: nat, now: nat, op: Op, hs: seq<Hash>, x: Hash)
    requires 0 < cap && Inv(s, cap, now) && RowsAgree(s, now) && hs != []
    requires op.Create? && op.now == now && op.h == hs[0]
    requires Distinct(hs) && x !in hs && forall h :: h in hs ==> h !in s.sessions
    requires x in LiveTokens(s, now) <==> x in LiveList(s, op.userId, now)
    ensures var s', u := Step(s, cap, op), op.userId;
            && Inv(s', cap, now) && RowsAgree(s', now) && Distinct(hs[1..])
            && (forall h :: h in hs[1..] ==> h !in s'.sessions)
            && (x in LiveTokens(s', now) <==> x in LiveList(s', u, now))
            && Kept(LiveList(s', u, now) + hs[1..], cap) == Kept(LiveList(s, u, now) + hs, cap)
  {
    StepKeepsInv(s, cap, now, op);
    StepKeepsRows(s, cap, now, op);
    CreationKeepsListed(s, cap, op, x);
    CreateSetsOwnList(s, cap, op);
    CreationAddsKey(s, cap, op);
    NextKept(LiveList(s, op.userId, now), hs, cap);
  }

  lemma {:induction false} CreationAddsKey(s: State, cap: nat, op: Op)
    requires op.Create?
    ensures Step(s, cap, op).sessions.Keys == s.sessions.Keys + {op.h}
  {
  }

  lemma NextKept(list: seq<Hash>, hs: seq<Hash>, cap: nat)
    requires hs != []
    ensures Kept(Kept(list + [hs[0]], cap) + hs[1..], cap) == Kept(list + hs, cap)
  {
    KeptTwice(list + [hs[0]], hs[1..], cap);
    assert list + hs == list + [hs[0]] + hs[1..];
  }

  lemma ShortListIsKept(s: State, cap: nat, now: nat, u: string)
    requires Inv(s, cap, now)
    ensures Kept(LiveList(s, u, now), cap) == LiveList(s, u, now)
  {
    assert ListOk(s, cap, u);
  }

  // ----- two orders of the same tokens

  lemma {:induction false} FirstDifference(a: seq<Hash>, b: seq<Hash>) returns (i: nat)
    requires a != b && Distinct(a) && Distinct(b) && forall h :: h in a <==> h in b
    ensures i < |a| == |b| && a[..i] == b[..i] && a[i] in b[i + 1..]
  {
    DistinctAtMost(a, b);
    DistinctAtMost(b, a);
    i := 0;
    while a[i] == b[i]
      invariant i < |a| && a[..i] == b[..i]
      decreases |a| - i
    {
      i := i + 1;
    }
    assert a[i] in b;
    var j :| 0 <= j < |b| && b[j] == a[i];
    assert forall k :: 0 <= k < i ==> a[k] == a[..i][k] == b[..i][k];
    assert b[i + 1..][j - i - 1] == a[i];
  }

  /** As many creations as push out everything up to the first difference push out different tokens. */
  lemma {:induction false} DifferentlyKept(a: seq<Hash>, b: seq<Hash>, i: nat, hs: seq<Hash>, cap: nat)
    requires i < |a| == |b| <= cap && Distinct(a) && a[i] in b[i + 1..] && a[i] !in hs
    requires |hs| == cap - |a| + i + 1
    ensures a[i] !in Kept(a + hs, cap) && a[i] in Kept(b + hs, cap)
  {
    assert (a + hs)[i + 1..] == a[i + 1..] + hs;
    assert (b + hs)[i + 1..] == b[i + 1..] + hs;
  }

  /** If the rows come in another order than some list, new sessions of that user tell the two processes apart. */
  lemma {:induction false} OtherOrderShows(s: State, cap: nat, clock: nat, restart: Op, u: string)
    returns (after: seq<Op>)
    requires 0 < cap && Inv(s, cap, clock) && RowsAgree(s, clock) && CanReload(s, clock, restart)
    requires Keeping(restart.order, LiveOf(s, u, restart.now + 1)) != LiveList(s, u, restart.now + 1)
    ensures Continues(s, cap, restart.now + 1, after) && Continues(Step(s, cap, restart), cap, restart.now + 1, after)
    ensures Answers(s, cap, after) != Answers(Step(s, cap, restart), cap, after)
  {
    var s', now := Step(s, cap, restart), restart.now + 1;
    ReloadedKeepsInv(s, cap, clock, restart);
    ReloadedList(s, cap, clock, restart, u);
    var a, b := LiveList(s, u, now), LiveList(s', u, now);
    SameMembers(s, cap, now, u);
    SameMembers(s', cap, now, u);
    SameLiveOf(s, cap, clock, restart, u);
    var i := FirstDifference(a, b);
    assert a[i] in a && a[i] in b;
    var hs := FreshHashes(s.sessions.Keys + s'.sessions.Keys, cap - |a| + i + 1);
    DifferentlyKept(a, b, i, hs, cap);
    after := Creations(u, now, hs) + [Validate(now, a[i], None)];
    CreationsDecide(s, cap, now, u, hs, a[i]);
    CreationsDecide(s', cap, now, u, hs, a[i]);
  }

  lemma {:induction false} ReloadedKeepsInv(s: State, cap: nat, clock: nat, restart: Op)
    requires 0 < cap && Inv(s, cap, clock) && RowsAgree(s, clock) && CanReload(s, clock, restart)
    ensures var s', now := Step(s, cap, restart), restart.now + 1;
            Inv(s, cap, now) && RowsAgree(s, now) && Inv(s', cap, now) && RowsAgree(s', now)
  {
    var s' := Step(s, cap, restart);
    StepKeepsInv(s, cap, clock, restart);
    StepKeepsRows(s, cap, clock, restart);
    InvLater(s, cap, clock, restart.now + 1);
    InvLater(s', cap, restart.now, restart.now + 1);
    RowsAgreeLater(s, clock, restart.now + 1);
    RowsAgreeLater(s', restart.now, restart.now + 1);
  }

  lemma SameMembers(s: State, cap: nat, now: nat, u: string)
    requires Inv(s, cap, now)
    ensures Distinct(LiveList(s, u, now)) && |LiveList(s, u, now)| <= cap
    ensures forall h :: h in LiveList(s, u, now) <==> h in LiveOf(s, u, now)
  {
    assert ListOk(s, cap, u);
    KeepingDistinct(Tokens(s, u), LiveTokens(s, now));
  }

  lemma SameLiveOf(s: State, cap: nat, clock: nat, restart: Op, u: string)
    requires RowsAgree(s, clock) && CanReload(s, clock, restart)
    ensures LiveOf(Step(s, cap, restart), u, restart.now + 1) == LiveOf(s, u, restart.now + 1)
  {
  }

  /**
   The exact condition: after any run the reloaded process and the one that never stopped give the same answers
   in every continuation if and only if the query returned each user's live rows in the order of the user's list.
   */
  lemma {:induction false} RestartIsInvisibleIff(cap: nat, before: seq<Op>, s: State, restart: Op)
    requires 0 < cap && IsRun(EMPTY, cap, 0, before) && s == Final(EMPTY, cap, before)
    requires CanReload(s, EndClock(0, before), restart)
    ensures (forall after ::
               && Continues(s, cap, restart.now + 1, after)
               && Continues(Step(s, cap, restart), cap, restart.now + 1, after)
               ==> Answers(s, cap, after) == Answers(Step(s, cap, restart), cap, after))
            <==> KeepsListOrder(s, restart.order, restart.now + 1)
  {
    if KeepsListOrder(s, restart.order, restart.now + 1) {
      forall after | Continues(s, cap, restart.now + 1, after)
                     && Continues(Step(s, cap, restart), cap, restart.now + 1, after)
        ensures Answers(s, cap, after) == Answers(Step(s, cap, restart), cap, after)
      {
        RestartIsInvisible(cap, before, s, restart, after);
      }
    } else {
      var u :| Keeping(restart.order, LiveOf(s, u, restart.now + 1)) != LiveList(s, u, restart.now + 1);
      EmptyIsOk(cap);
      RunKeepsInv(EMPTY, cap, 0, before);
      var after := OtherOrderShows(s, cap, EndClock(0, before), restart, u);
    }
  }
}
