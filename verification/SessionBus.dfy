/**
 Session managers that tell each other about invalidations.

 The bus may delay, reorder and duplicate: an event, once published, can be delivered to any node at any
 later time and any number of times, or never. Every node has a session table and rows of its own.
 */
module SessionBus {
  import opened Bus
  import opened Collections
  import opened Sessions
  import opened SessionRuns

  datatype Net = Net(nodes: seq<State>, clocks: seq<nat>, published: set<BusEvent>)

  datatype NetStep =
    | Local(node: nat, op: Op)
    | Deliver(node: nat, now: nat, event: BusEvent)

  /** What an operation publishes, if anything. */
  function Announced(s: State, op: Op): Option<BusEvent> {
    match op
    case InvalidateToken(_, h) => TokenEvent(s, h)
    case InvalidateUser(_, userId) => UserEvent(s, userId)
    case _ => None
  }

  function AsSet(event: Option<BusEvent>): set<BusEvent> {
    if event.Some? then {event.value} else {}
  }

  /** The operation that a step makes its node perform; session managers ignore rule events. */
  function OpsOf(step: NetStep): seq<Op> {
    match step
    case Local(_, op) => [op]
    case Deliver(_, now, SessionInvalidateToken(h)) => [InvalidateToken(now, h)]
    case Deliver(_, now, SessionInvalidateUser(userId)) => [InvalidateUser(now, userId)]
    case Deliver(_, now, _) => []
  }

  ghost predicate Enabled(net: Net, step: NetStep) {
    && |net.nodes| == |net.clocks| && step.node < |net.nodes|
    && match step
       case Local(n, op) => Admissible(net.nodes[n], net.clocks[n], op)
       case Deliver(n, now, event) => event in net.published && net.clocks[n] <= now
  }

  function Next(net: Net, cap: nat, step: NetStep): Net
    requires step.node < |net.nodes| && step.node < |net.clocks|
  {
    var n := step.node;
    match step
    case Local(_, op) =>
      Net(net.nodes[n := Step(net.nodes[n], cap, op)], net.clocks[n := op.now],
          net.published + AsSet(Announced(net.nodes[n], op)))
    case Deliver(_, now, event) =>
      Net(net.nodes[n := Handled(net.nodes[n], event)], net.clocks[n := now], net.published)
  }

  ghost predicate IsNetRun(net: Net, cap: nat, steps: seq<NetStep>)
    decreases |steps|
  {
    steps == [] || (Enabled(net, steps[0]) && IsNetRun(Next(net, cap, steps[0]), cap, steps[1..]))
  }

  ghost function NetFinal(net: Net, cap: nat, steps: seq<NetStep>): Net
    requires IsNetRun(net, cap, steps)
    decreases |steps|
  {
    if steps == [] then net else NetFinal(Next(net, cap, steps[0]), cap, steps[1..])
  }

  ghost predicate NetInv(net: Net, cap: nat) {
    && |net.nodes| == |net.clocks|
    && forall n :: 0 <= n < |net.nodes| ==>
         Inv(net.nodes[n], cap, net.clocks[n]) && RowsAgree(net.nodes[n], net.clocks[n])
  }

  /** A step moves one node, by the operation that it stands for. */
  lemma {:induction false} NodeAfter(net: Net, cap: nat, step: NetStep)
    requires Enabled(net, step)
    ensures var n, net', ops := step.node, Next(net, cap, step), OpsOf(step);
            && net'.nodes == net.nodes[n := if ops == [] then net.nodes[n] else Step(net.nodes[n], cap, ops[0])]
            && net'.clocks == net.clocks[n := if step.Local? then step.op.now else step.now]
            && (ops != [] ==> Admissible(net.nodes[n], net.clocks[n], ops[0]) && ops[0].now == net'.clocks[n])
            && net.clocks[n] <= net'.clocks[n]
  {
  }

  lemma {:induction false} StepKeepsNetInv(net: Net, cap: nat, step: NetStep)
    requires 0 < cap && NetInv(net, cap) && Enabled(net, step)
    ensures NetInv(Next(net, cap, step), cap)
  {
    var n := step.node;
    var net', s, clock := Next(net, cap, step), net.nodes[n], net.clocks[n];
    NodeAfter(net, cap, step);
    if OpsOf(step) != [] {
      StepKeepsInv(s, cap, clock, OpsOf(step)[0]);
      StepKeepsRows(s, cap, clock, OpsOf(step)[0]);
    }
    OtherNodesKeepInv(net, net', cap, n);
  }

  lemma OtherNodesKeepInv(net: Net, net': Net, cap: nat, n: nat)
    requires NetInv(net, cap) && n < |net.nodes| == |net'.nodes| == |net'.clocks|
    requires net'.nodes == net.nodes[n := net'.nodes[n]] && net'.clocks == net.clocks[n := net'.clocks[n]]
    requires Inv(net'.nodes[n], cap, net'.clocks[n]) && RowsAgree(net'.nodes[n], net'.clocks[n])
    ensures NetInv(net', cap)
  {
    forall m | 0 <= m < |net'.nodes|
      ensures Inv(net'.nodes[m], cap, net'.clocks[m]) && RowsAgree(net'.nodes[m], net'.clocks[m])
    {
      assert m == n || (net'.nodes[m] == net.nodes[m] && net'.clocks[m] == net.clocks[m]);
    }
  }

  lemma {:induction false} RunKeepsNetInv(net: Net, cap: nat, steps: seq<NetStep>)
    requires 0 < cap && NetInv(net, cap) && IsNetRun(net, cap, steps)
    ensures NetInv(NetFinal(net, cap, steps), cap)
    decreases |steps|
  {
    if steps != [] {
      StepKeepsNetInv(net, cap, steps[0]);
      RunKeepsNetInv(Next(net, cap, steps[0]), cap, steps[1..]);
    }
  }

  ghost predicate NeverRecreatedAt(steps: seq<NetStep>, n: nat, h: Hash) {
    forall i :: 0 <= i < |steps| && steps[i].Local? && steps[i].node == n ==> !Recreates(steps[i].op, h)
  }

  ghost predicate GoneAt(net: Net, n: nat, h: Hash) {
    && n < |net.nodes| && n < |net.clocks|
    && RowsAgree(net.nodes[n], net.clocks[n]) && Gone(net.nodes[n], h, net.clocks[n])
  }

  lemma {:induction false} NetStepKeepsGone(net: Net, cap: nat, step: NetStep, n: nat, h: Hash)
    requires Enabled(net, step) && GoneAt(net, n, h)
    requires step.Local? && step.node == n ==> !Recreates(step.op, h)
    ensures GoneAt(Next(net, cap, step), n, h)
  {
    NodeAfter(net, cap, step);
    if step.node == n && OpsOf(step) != [] {
      StepKeepsRows(net.nodes[n], cap, net.clocks[n], OpsOf(step)[0]);
      StepKeepsGone(net.nodes[n], cap, net.clocks[n], OpsOf(step)[0], h);
    }
  }

  /** A token that is gone at a node stays gone there through every later step of the network. */
  lemma {:induction false} NetGoneForever(net: Net, cap: nat, steps: seq<NetStep>, n: nat, h: Hash)
    requires IsNetRun(net, cap, steps) && GoneAt(net, n, h) && NeverRecreatedAt(steps, n, h)
    ensures GoneAt(NetFinal(net, cap, steps), n, h)
    decreases |steps|
  {
    if steps != [] {
      NetStepKeepsGone(net, cap, steps[0], n, h);
      NetGoneForever(Next(net, cap, steps[0]), cap, steps[1..], n, h);
    }
  }

  /** The steps after which `h` must be dead at the node that took them. */
  ghost predicate Kills(net: Net, step: NetStep, h: Hash)
    requires Enabled(net, step)
  {
    var s := net.nodes[step.node];
    match step
    case Local(_, InvalidateToken(_, x)) => x == h
    case Local(_, InvalidateUser(_, userId)) => h in s.sessions && s.sessions[h].userId == userId
    case Deliver(_, _, SessionInvalidateToken(x)) => x == h
    case Deliver(_, _, SessionInvalidateUser(userId)) => h in s.sessions && s.sessions[h].userId == userId
    case _ => false
  }

  /**
   From the return of a local invalidation or the delivery of its event onward, a node never again
   validates the token, or any session of the user it had by then, whatever the bus and the nodes do.
   */
  lemma InvalidationIsFinal(net: Net, cap: nat, before: seq<NetStep>, kill: NetStep, after: seq<NetStep>,
                            h: Hash, now: nat, ip: Option<string>)
    requires 0 < cap && NetInv(net, cap) && IsNetRun(net, cap, before)
    requires Enabled(NetFinal(net, cap, before), kill) && Kills(NetFinal(net, cap, before), kill, h)
    requires IsNetRun(Next(NetFinal(net, cap, before), cap, kill), cap, after)
    requires NeverRecreatedAt(after, kill.node, h)
    ensures var end := NetFinal(Next(NetFinal(net, cap, before), cap, kill), cap, after);
            kill.node < |end.nodes| && kill.node < |end.clocks| &&
            (end.clocks[kill.node] <= now ==> !Validates(end.nodes[kill.node], h, now, ip))
  {
    RunKeepsNetInv(net, cap, before);
    var mid := NetFinal(net, cap, before);
    StepKeepsNetInv(mid, cap, kill);
    var s, clock := mid.nodes[kill.node], mid.clocks[kill.node];
    if h in s.sessions {
      UserDropEndsAll(s, cap, clock, s.sessions[h].userId, h);
    }
    NetGoneForever(Next(mid, cap, kill), cap, after, kill.node, h);
  }

  /**
   An invalidation is announced if and only if it changed who is logged in here, and the announcement makes any other
   node do what the call itself would have done there.
   */
  lemma AnnouncedIffDropped(s: State, cap: nat, clock: nat, op: Op, other: State)
    requires Inv(s, cap, clock) && (op.InvalidateToken? || op.InvalidateUser?)
    ensures Announced(s, op).Some? <==> Step(s, cap, op).sessions != s.sessions
    ensures Announced(s, op).Some? ==> Handled(other, Announced(s, op).value) == Step(other, cap, op)
  {
    if op.InvalidateUser? {
      var list := Tokens(s, op.userId);
      assert ListOk(s, cap, op.userId);
      if list != [] {
        assert list[0] in ActiveAmong(s, list);
        assert list[0] in s.sessions && list[0] !in Step(s, cap, op).sessions;
      } else {
        assert Step(s, cap, op).sessions == s.sessions;
      }
    }
  }

  /**
   A force logout reaches the other nodes if and only if the local node lists a session of the user; the
   documentation promises the event for every `invalidate_all`.
   */
  lemma ForceLogoutAnnouncedIff(s: State, cap: nat, clock: nat, now: nat, userId: string)
    requires Inv(s, cap, clock)
    ensures Announced(s, InvalidateUser(now, userId)) == Some(SessionInvalidateUser(userId))
            <==> Tokens(s, userId) != []
    ensures Announced(s, InvalidateUser(now, userId)) == None <==> Tokens(s, userId) == []
  {
    assert ListOk(s, cap, userId);
    var list := Tokens(s, userId);
    if list != [] {
      assert list[0] in ActiveAmong(s, list);
    }
  }

  /** The failing case: a user whose only session is on another node keeps it. */
  lemma ForceLogoutElsewhereIsSilent(session: Session, now: nat) returns (net: Net, step: NetStep)
    requires Live(session, now)
    ensures NetInv(net, 1) && Enabled(net, step) && step == Local(0, InvalidateUser(now, session.userId))
    ensures var end := Next(net, 1, step);
            end.published == {} && |end.nodes| == 2 && Validates(end.nodes[1], "h", now, None)
  {
    var other := State(map["h" := session], map[session.userId := ["h"]], map["h" := session]);
    net := Net([EMPTY, other], [now, now], {});
    step := Local(0, InvalidateUser(now, session.userId));
    EmptyIsOk(1);
    forall u ensures ListOk(EMPTY, 1, u) && ListOk(other, 1, u) {
    }
    ForceLogoutAnnouncedIff(EMPTY, 1, now, now, session.userId);
  }

  // ----- the apply steps are idempotent and commute

  lemma AppliesAreIdempotent(s: State, event: BusEvent)
    ensures Handled(Handled(s, event), event) == Handled(s, event)
  {
  }

  /** Each list once both tokens are dropped; it does not depend on their order. */
  lemma DroppedList(s: State, h: Hash, k: Hash, u: string)
    requires h in s.sessions && k in s.sessions && h != k && u in s.index
    ensures TokenDropped(TokenDropped(s, h), k).index[u] == Without(s.index[u], OwnedBy(s, {h, k}, u))
  {
    var list := s.index[u];
    var first := if s.sessions[h].userId == u then {h} else {};
    var second := if s.sessions[k].userId == u then {k} else {};
    WithoutTwice(list, first, second);
    WithoutNone(list);
    WithoutNone(Without(list, first));
    assert OwnedBy(s, {h, k}, u) == first + second;
  }

  lemma WithoutNone(list: seq<Hash>)
    ensures Without(list, {}) == list
  {
    KeepingAll(list, Members(list) - {});
  }

  lemma TokenDropsCommute(s: State, h: Hash, k: Hash)
    ensures TokenDropped(TokenDropped(s, h), k) == TokenDropped(TokenDropped(s, k), h)
  {
    if h in s.sessions && k in s.sessions && h != k {
      var hk, kh := TokenDropped(TokenDropped(s, h), k), TokenDropped(TokenDropped(s, k), h);
      assert hk.sessions == kh.sessions && hk.rows == kh.rows;
      assert {h, k} == {k, h};
      assert hk.index.Keys == s.index.Keys == kh.index.Keys;
      forall u | u in s.index ensures hk.index[u] == kh.index[u] {
        DroppedList(s, h, k, u);
        DroppedList(s, k, h, u);
      }
      assert hk.index == kh.index;
    }
  }

  lemma TokenAndUserDropsCommute(s: State, cap: nat, clock: nat, h: Hash, userId: string)
    requires Inv(s, cap, clock)
    ensures UserDropped(TokenDropped(s, h), userId) == TokenDropped(UserDropped(s, userId), h)
  {
    assert ListOk(s, cap, userId);
    if h in s.sessions {
      if s.sessions[h].userId == userId {
        OwnTokenAndUserDropsCommute(s, h, userId);
      } else {
        OtherTokenAndUserDropsCommute(s, h, userId);
      }
    }
  }

  lemma {:induction false} OwnTokenAndUserDropsCommute(s: State, h: Hash, userId: string)
    requires h in s.sessions && s.sessions[h].userId == userId
    ensures UserDropped(TokenDropped(s, h), userId) == TokenDropped(UserDropped(s, userId), h)
  {
    var listed := Members(Tokens(s, userId));
    var tokenFirst, userFirst := UserDropped(TokenDropped(s, h), userId), TokenDropped(UserDropped(s, userId), h);
    assert Members(Tokens(TokenDropped(s, h), userId)) == listed - {h};
    assert tokenFirst.sessions == s.sessions - (listed + {h}) && tokenFirst.rows == s.rows - (listed + {h});
    assert userFirst.sessions == s.sessions - (listed + {h});
    assert userFirst.rows == s.rows - (listed + {h});
  }

  lemma OtherTokenAndUserDropsCommute(s: State, h: Hash, userId: string)
    requires h in s.sessions && s.sessions[h].userId != userId && h !in Tokens(s, userId)
    ensures UserDropped(TokenDropped(s, h), userId) == TokenDropped(UserDropped(s, userId), h)
  {
    var listed := Members(Tokens(s, userId));
    var tokenFirst, userFirst := UserDropped(TokenDropped(s, h), userId), TokenDropped(UserDropped(s, userId), h);
    assert Tokens(TokenDropped(s, h), userId) == Tokens(s, userId);
    assert tokenFirst.sessions == userFirst.sessions && tokenFirst.rows == userFirst.rows;
    assert tokenFirst.index == userFirst.index;
  }

  lemma UserDropsCommute(s: State, cap: nat, clock: nat, u: string, v: string)
    requires Inv(s, cap, clock)
    ensures UserDropped(UserDropped(s, u), v) == UserDropped(UserDropped(s, v), u)
  {
    if u != v {
      assert Tokens(UserDropped(s, u), v) == Tokens(s, v);
      assert Tokens(UserDropped(s, v), u) == Tokens(s, u);
    }
  }

  /** Nodes may receive any two events in either order. */
  lemma {:induction false} AppliesCommute(s: State, cap: nat, clock: nat, e: BusEvent, f: BusEvent)
    requires Inv(s, cap, clock)
    ensures Handled(Handled(s, e), f) == Handled(Handled(s, f), e)
  {
    match (e, f)
    case (SessionInvalidateToken(h), SessionInvalidateToken(k)) => TokenDropsCommute(s, h, k);
    case (SessionInvalidateToken(h), SessionInvalidateUser(u)) => TokenAndUserDropsCommute(s, cap, clock, h, u);
    case (SessionInvalidateUser(u), SessionInvalidateToken(h)) => TokenAndUserDropsCommute(s, cap, clock, h, u);
    case (SessionInvalidateUser(u), SessionInvalidateUser(v)) => UserDropsCommute(s, cap, clock, u, v);
    case _ =>
  }
}
