/**
 When a removal is final. Publish tasks are spawned, so nothing orders them; if the tasks of each node
 do reach the channel in spawn order, a removed rule never comes back, otherwise it can.
 */
module WafRemoval {
  import opened Bus
  import opened Collections
  import opened Waf
  import opened WafCluster
  import opened WafConvergence

  ghost predicate Adds(e: BusEvent, id: nat) {
    e.WafRuleAdded? && e.id == id
  }

  ghost predicate AddPublished(c: Cluster, id: nat) {
    exists e :: e in c.channel && Adds(e, id)
  }

  ghost predicate AddPending(c: Cluster, id: nat) {
    exists k :: 0 <= k < |c.pending| && Adds(c.pending[k].event, id)
  }

  ghost predicate Known(base: Store, c: Cluster, id: nat) {
    id in Ids(base) || AddPublished(c, id) || AddPending(c, id)
  }

  /** A task is published before every task that its node spawned later. */
  ghost predicate InSpawnOrder(c: Cluster, step: Step) {
    step.Publish? && step.task < |c.pending| ==>
      forall j :: 0 <= j < step.task ==> c.pending[j].node != c.pending[step.task].node
  }

  ghost predicate OrderedRun(base: Store, c: Cluster, compiles: string -> bool, steps: seq<Step>)
    requires IsRun(c, compiles, steps)
    decreases |steps|
  {
    steps == [] || (FreshAdd(base, c, steps[0]) && InSpawnOrder(c, steps[0])
                    && OrderedRun(base, Next(c, compiles, steps[0]), compiles, steps[1..]))
  }

  // ----- the invariant: no removal overtakes the add of the same id

  ghost predicate RemovalsFollowAdds(channel: seq<BusEvent>) {
    forall i, j :: 0 <= i < j < |channel| && channel[i].WafRuleRemoved? ==> !Adds(channel[j], channel[i].id)
  }

  ghost predicate PendingAddIsFirst(base: Store, c: Cluster, k: nat)
    requires k < |c.pending|
  {
    c.pending[k].event.WafRuleAdded? ==>
      var id := c.pending[k].event.id;
      && id !in Ids(base)
      && WafRuleRemoved(id) !in c.channel
      && forall j :: 0 <= j < |c.pending| && c.pending[j].event == WafRuleRemoved(id) ==>
                       j > k && c.pending[j].node == c.pending[k].node
  }

  ghost predicate PendingAddIsSole(c: Cluster, k: nat)
    requires k < |c.pending|
  {
    c.pending[k].event.WafRuleAdded? ==>
      var id := c.pending[k].event.id;
      && !AddPublished(c, id)
      && forall j :: 0 <= j < |c.pending| && Adds(c.pending[j].event, id) ==> j == k
  }

  /** Only the minting node can hold a rule whose add is still pending. */
  ghost predicate HeldIsKnown(base: Store, c: Cluster, n: nat)
    requires n < |c.nodes|
  {
    forall id :: id in Ids(c.nodes[n]) ==>
      id in Ids(base) || AddPublished(c, id) ||
      exists k :: 0 <= k < |c.pending| && c.pending[k].node == n && Adds(c.pending[k].event, id)
  }

  ghost predicate RemovedIsKnown(base: Store, c: Cluster) {
    forall id :: Removed(c, id) ==> Known(base, c, id)
  }

  ghost predicate Ordered(base: Store, c: Cluster) {
    && RemovalsFollowAdds(c.channel)
    && (forall k: nat :: k < |c.pending| ==> PendingAddIsFirst(base, c, k) && PendingAddIsSole(c, k))
    && (forall n: nat :: n < |c.nodes| ==> HeldIsKnown(base, c, n))
    && RemovedIsKnown(base, c)
  }

  lemma KnownIsIssued(base: Store, c: Cluster, id: nat)
    requires Known(base, c, id)
    ensures exists r :: r in Issued(base, c) && r.id == id
  {
    if id in Ids(base) {
      var r :| r in base.rules && r.id == id;
      assert r in Issued(base, c);
    } else if AddPublished(c, id) {
      var e :| e in c.channel && Adds(e, id);
      assert RuleOf(e) in Issued(base, c);
    } else {
      var k :| 0 <= k < |c.pending| && Adds(c.pending[k].event, id);
      assert c.pending[k] in c.pending;
      assert RuleOf(c.pending[k].event) in Issued(base, c);
    }
  }

  lemma KnownStays(base: Store, c: Cluster, compiles: string -> bool, step: Step, id: nat)
    requires Enabled(c, step) && Known(base, c, id)
    ensures Known(base, Next(c, compiles, step), id)
  {
    var c' := Next(c, compiles, step);
    if AddPublished(c, id) {
      var e :| e in c.channel && Adds(e, id);
      assert e in c'.channel;
    } else if AddPending(c, id) {
      var k :| 0 <= k < |c.pending| && Adds(c.pending[k].event, id);
      if step.Publish? {
        if step.task == k {
          assert c'.channel[|c.channel|] in c'.channel;
        } else {
          assert c'.pending[if k < step.task then k else k - 1] == c.pending[k];
        }
      } else {
        assert c'.pending[k] == c.pending[k];
      }
    }
  }

  lemma {:induction false} AddKeepsOrdered(base: Store, c: Cluster, compiles: string -> bool, step: Step)
    requires Inv(base, c, compiles) && Ordered(base, c) && Enabled(c, step) && step.Add? && FreshAdd(base, c, step)
    ensures Ordered(base, Next(c, compiles, step))
  {
    var c' := Next(c, compiles, step);
    var id := c.nodes[step.node].next;
    if Known(base, c, id) {
      KnownIsIssued(base, c, id);
    }
    forall k: nat | k < |c'.pending| ensures PendingAddIsFirst(base, c', k) && PendingAddIsSole(c', k) {
      if k < |c.pending| {
        assert PendingAddIsFirst(base, c, k) && PendingAddIsSole(c, k);
        if c.pending[k].event.WafRuleAdded? {
          assert AddPending(c, c.pending[k].event.id);
        }
      } else {
        assert !Removed(c, id);
        assert forall t :: t in c.pending ==> t.event != WafRuleRemoved(id);
      }
    }
    forall n: nat | n < |c'.nodes| ensures HeldIsKnown(base, c', n) {
      assert HeldIsKnown(base, c, n);
      forall x | x in Ids(c'.nodes[n])
        ensures x in Ids(base) || AddPublished(c', x) ||
                exists k :: 0 <= k < |c'.pending| && c'.pending[k].node == n && Adds(c'.pending[k].event, x)
      {
        if x !in Ids(c.nodes[n]) {
          assert x == id && Adds(c'.pending[|c.pending|].event, x);
        } else if x !in Ids(base) && !AddPublished(c, x) {
          var k :| 0 <= k < |c.pending| && c.pending[k].node == n && Adds(c.pending[k].event, x);
          assert c'.pending[k] == c.pending[k];
        }
      }
    }
    forall x | Removed(c', x) ensures Known(base, c', x) {
      assert Removed(c, x);
      KnownStays(base, c, compiles, step, x);
    }
  }

  lemma {:induction false} RemoveKeepsOrdered(base: Store, c: Cluster, compiles: string -> bool, step: Step)
    requires Inv(base, c, compiles) && Ordered(base, c) && Enabled(c, step) && step.Remove?
    ensures Ordered(base, Next(c, compiles, step))
  {
    var c' := Next(c, compiles, step);
    var m, id := step.node, step.id;
    assert HeldIsKnown(base, c, m);
    RemoveTakesExactly(c.nodes[m], id);
    forall k: nat | k < |c'.pending| ensures PendingAddIsFirst(base, c', k) && PendingAddIsSole(c', k) {
      if k < |c.pending| {
        assert PendingAddIsFirst(base, c, k) && PendingAddIsSole(c, k);
      }
    }
    forall n: nat | n < |c'.nodes| ensures HeldIsKnown(base, c', n) {
      assert HeldIsKnown(base, c, n);
      forall x | x in Ids(c'.nodes[n])
        ensures x in Ids(base) || AddPublished(c', x) ||
                exists k :: 0 <= k < |c'.pending| && c'.pending[k].node == n && Adds(c'.pending[k].event, x)
      {
        if x !in Ids(base) && !AddPublished(c, x) {
          var k :| 0 <= k < |c.pending| && c.pending[k].node == n && Adds(c.pending[k].event, x);
          assert c'.pending[k] == c.pending[k];
        }
      }
    }
    forall x | Removed(c', x) ensures Known(base, c', x) {
      if Removed(c, x) || (x == id && id in Ids(c.nodes[m])) {
        assert Known(base, c, x);
        KnownStays(base, c, compiles, step, x);
      }
    }
  }

  lemma {:induction false} PublishKeepsOrdered(base: Store, c: Cluster, compiles: string -> bool, step: Step)
    requires Inv(base, c, compiles) && Ordered(base, c) && Enabled(c, step) && step.Publish? && InSpawnOrder(c, step)
    ensures Ordered(base, Next(c, compiles, step))
  {
    var c' := Next(c, compiles, step);
    var at := step.task;
    var e := c.pending[at].event;
    assert PendingAddIsFirst(base, c, at) && PendingAddIsSole(c, at);
    assert c'.channel[|c.channel|] == e;
    assert RemovalsFollowAdds(c'.channel) by {
      forall i | 0 <= i < |c.channel| && c.channel[i].WafRuleRemoved? ensures !Adds(e, c.channel[i].id) {
        assert c.channel[i] in c.channel;
      }
    }
    forall k: nat | k < |c'.pending| ensures PendingAddIsFirst(base, c', k) && PendingAddIsSole(c', k) {
      PublishKeepsPendingAdd(base, c, compiles, step, k);
    }
    forall n: nat | n < |c'.nodes| ensures HeldIsKnown(base, c', n) {
      assert HeldIsKnown(base, c, n);
      forall x | x in Ids(c'.nodes[n])
        ensures x in Ids(base) || AddPublished(c', x) ||
                exists k :: 0 <= k < |c'.pending| && c'.pending[k].node == n && Adds(c'.pending[k].event, x)
      {
        if AddPublished(c, x) {
          KnownStays(base, c, compiles, step, x);
        } else if x !in Ids(base) {
          var k :| 0 <= k < |c.pending| && c.pending[k].node == n && Adds(c.pending[k].event, x);
          if k == at {
            assert e in c'.channel;
          } else {
            assert c'.pending[if k < at then k else k - 1] == c.pending[k];
          }
        }
      }
    }
    forall x | Removed(c', x) ensures Known(base, c', x) {
      PublishedWasPending(c, compiles, step, x);
      KnownStays(base, c, compiles, step, x);
    }
  }

  lemma PublishedWasPending(c: Cluster, compiles: string -> bool, step: Step, id: nat)
    requires Enabled(c, step) && step.Publish? && Removed(Next(c, compiles, step), id)
    ensures Removed(c, id)
  {
  }

  lemma {:induction false} PublishKeepsPendingAdd(base: Store, c: Cluster, compiles: string -> bool, step: Step, k: nat)
    requires Ordered(base, c) && Enabled(c, step) && step.Publish? && InSpawnOrder(c, step)
    requires k < |Next(c, compiles, step).pending|
    ensures PendingAddIsFirst(base, Next(c, compiles, step), k) && PendingAddIsSole(Next(c, compiles, step), k)
  {
    var c' := Next(c, compiles, step);
    var at := step.task;
    var was := if k < at then k else k + 1;
    assert c'.pending[k] == c.pending[was];
    assert PendingAddIsFirst(base, c, was) && PendingAddIsSole(c, was);
    if c.pending[was].event.WafRuleAdded? {
      var id := c.pending[was].event.id;
      assert c.pending[at].event != WafRuleRemoved(id);
      assert !Adds(c.pending[at].event, id);
      assert forall e :: e in c'.channel ==> e in c.channel || e == c.pending[at].event;
      forall j | 0 <= j < |c'.pending| ensures c'.pending[j] == c.pending[if j < at then j else j + 1] {
      }
    }
  }

  lemma {:induction false} DeliverKeepsOrdered(base: Store, c: Cluster, compiles: string -> bool, step: Step)
    requires Inv(base, c, compiles) && Ordered(base, c) && Enabled(c, step) && step.Deliver?
    ensures Ordered(base, Next(c, compiles, step))
  {
    var c' := Next(c, compiles, step);
    var m := step.node;
    var e := c.channel[c.cursor[m]];
    assert e in c.channel;
    forall k: nat | k < |c'.pending| ensures PendingAddIsFirst(base, c', k) && PendingAddIsSole(c', k) {
      assert PendingAddIsFirst(base, c, k) && PendingAddIsSole(c, k);
    }
    forall n: nat | n < |c'.nodes| ensures HeldIsKnown(base, c', n) {
      assert HeldIsKnown(base, c, n);
      if n == m {
        match e {
          case WafRuleAdded(x, pattern, tag) =>
            assert Adds(e, x);
            AddPutsExactly(c.nodes[n], compiles, x, pattern, tag);
          case WafRuleRemoved(x) => RemoveTakesExactly(c.nodes[n], x);
          case _ =>
        }
      }
    }
    forall x | Removed(c', x) ensures Known(base, c', x) {
      assert Removed(c, x);
      KnownStays(base, c, compiles, step, x);
    }
  }

  lemma {:induction false} OrderedRunKeeps(base: Store, c: Cluster, compiles: string -> bool, steps: seq<Step>)
    requires Inv(base, c, compiles) && Ordered(base, c) && IsRun(c, compiles, steps)
    requires OrderedRun(base, c, compiles, steps)
    ensures Inv(base, Final(c, compiles, steps), compiles) && Ordered(base, Final(c, compiles, steps))
    decreases |steps|
  {
    if steps != [] {
      match steps[0] {
        case Add(_, _, _) => AddKeepsOrdered(base, c, compiles, steps[0]);
        case Remove(_, _) => RemoveKeepsOrdered(base, c, compiles, steps[0]);
        case Publish(_) => PublishKeepsOrdered(base, c, compiles, steps[0]);
        case Deliver(_) => DeliverKeepsOrdered(base, c, compiles, steps[0]);
      }
      StepKeepsInv(base, c, compiles, steps[0]);
      OrderedRunKeeps(base, Next(c, compiles, steps[0]), compiles, steps[1..]);
    }
  }

  lemma {:induction false} RemovalEvenAfterRun(c: Cluster, compiles: string -> bool, steps: seq<Step>, id: nat)
    requires Removed(c, id) && IsRun(c, compiles, steps)
    ensures Removed(Final(c, compiles, steps), id)
    decreases |steps|
  {
    if steps != [] {
      RemovedStays(c, compiles, steps[0], id);
      RemovalEvenAfterRun(Next(c, compiles, steps[0]), compiles, steps[1..], id);
    }
  }

  lemma {:induction false} RemovedStaysOut(base: Store, channel: seq<BusEvent>, id: nat)
    requires RemovalsFollowAdds(channel) && WafRuleRemoved(id) in channel
    ensures !LastSaysPresent(base, channel, id)
  {
    var n := |channel| - 1;
    var i :| 0 <= i < |channel| && channel[i] == WafRuleRemoved(id);
    assert i == n || !Adds(channel[n], channel[i].id);
    if !About(channel[n], id) {
      assert channel[..n][i] == channel[i];
      RemovedStaysOut(base, channel[..n], id);
    }
  }

  /** The last published event about an id. */
  ghost function LastAbout(channel: seq<BusEvent>, id: nat): Option<BusEvent> {
    if channel == [] then None
    else if About(channel[|channel| - 1], id) then Some(channel[|channel| - 1])
    else LastAbout(channel[..|channel| - 1], id)
  }

  lemma {:induction false} LastAboutSays(base: Store, channel: seq<BusEvent>, id: nat)
    requires WafRuleRemoved(id) in channel
    ensures LastSaysPresent(base, channel, id) <==> LastAbout(channel, id) != Some(WafRuleRemoved(id))
  {
    var n := |channel| - 1;
    if !About(channel[n], id) {
      LastAboutSays(base, channel[..n], id);
    }
  }

  /** What follows a removal that succeeded at node `at`, in any order of publications. */
  ghost predicate FollowsRemoval(c: Cluster, compiles: string -> bool, before: seq<Step>, at: nat, id: nat,
                                 after: seq<Step>, end: Cluster)
  {
    && IsRun(c, compiles, before)
    && var mid := Final(c, compiles, before);
       && Enabled(mid, Remove(at, id)) && id in Ids(mid.nodes[at])
       && IsRun(Next(mid, compiles, Remove(at, id)), compiles, after)
       && end == Final(Next(mid, compiles, Remove(at, id)), compiles, after)
  }

  lemma RemovalIsPublished(c: Cluster, compiles: string -> bool, before: seq<Step>, at: nat, id: nat,
                           after: seq<Step>, end: Cluster)
    requires FollowsRemoval(c, compiles, before, at, id, after, end) && Quiescent(end)
    ensures WafRuleRemoved(id) in end.channel
  {
    var mid := Final(c, compiles, before);
    var next := Next(mid, compiles, Remove(at, id));
    assert next.pending[|mid.pending|] in next.pending;
    assert Removed(next, id);
    RemovalEvenAfterRun(next, compiles, after, id);
  }

  /**
   The exact condition, for every order of publications: a successful removal holds at a node, once everything is
   delivered, if and only if the last published event about the id is a removal. No node is an exception.
   */
  lemma {:induction false} RemovalHoldsIff(base: Store, c: Cluster, compiles: string -> bool,
                        before: seq<Step>, at: nat, id: nat, after: seq<Step>, end: Cluster, n: nat)
    requires Initial(c, base) && FollowsRemoval(c, compiles, before, at, id, after, end)
    requires Quiescent(end) && n < |end.nodes|
    ensures id !in Ids(end.nodes[n]) <==> LastAbout(end.channel, id) == Some(WafRuleRemoved(id))
  {
    var mid := Final(c, compiles, before);
    var next := Next(mid, compiles, Remove(at, id));
    InitialInv(base, c, compiles);
    RunKeepsInv(base, c, compiles, before);
    StepKeepsInv(base, mid, compiles, Remove(at, id));
    RunKeepsInv(base, next, compiles, after);
    assert Settled(base, end, n, id);
    RemovalIsPublished(c, compiles, before, at, id, after, end);
    LastAboutSays(base, end.channel, id);
  }

  /**
   With publications in spawn order and fresh ids, a successful removal anywhere is final: once
   everything is delivered no node has the rule, whatever happened before and after.
   */
  lemma {:induction false} RemovalIsFinal(base: Store, c: Cluster, compiles: string -> bool,
                       before: seq<Step>, at: nat, id: nat, after: seq<Step>, end: Cluster, n: nat)
    requires Initial(c, base) && FollowsRemoval(c, compiles, before, at, id, after, end)
    requires OrderedRun(base, c, compiles, before)
    requires OrderedRun(base, Next(Final(c, compiles, before), compiles, Remove(at, id)), compiles, after)
    requires Quiescent(end) && n < |end.nodes|
    ensures id !in Ids(end.nodes[n])
  {
    var mid := Final(c, compiles, before);
    InitialInv(base, c, compiles);
    InitialOrdered(base, c);
    OrderedRunKeeps(base, c, compiles, before);
    RemoveKeepsOrdered(base, mid, compiles, Remove(at, id));
    StepKeepsInv(base, mid, compiles, Remove(at, id));
    OrderedRunKeeps(base, Next(mid, compiles, Remove(at, id)), compiles, after);
    RemovalIsPublished(c, compiles, before, at, id, after, end);
    RemovedStaysOut(base, end.channel, id);
    assert Settled(base, end, n, id);
  }

  lemma InitialOrdered(base: Store, c: Cluster)
    requires Initial(c, base)
    ensures Ordered(base, c)
  {
  }

  /** Out of spawn order the removal overtakes its add and the removed rule comes back, whatever it is. */
  lemma OvertakenRemovalIsUndone(base: Store, compiles: string -> bool, add: BusEvent)
    returns (c: Cluster, steps: seq<Step>)
    requires Mints(base, compiles, add)
    ensures Initial(c, base) && IsRun(c, compiles, steps)
    ensures Remove(0, add.id) in steps && Quiescent(Final(c, compiles, steps))
    ensures Final(c, compiles, steps).nodes == [With(base, add)]
  {
    var a, none, remove := With(base, add), base.(next := base.next + 1), WafRuleRemoved(add.id);
    LoneRule(base, compiles, add, add);
    var rest := Overtake(compiles, none, a, add, remove);
    c := Cluster([base], [], [], [0]);
    var c1 := Cluster([a], [], [Task(0, add)], [0]);
    var c2 := Cluster([none], [], [Task(0, add), Task(0, remove)], [0]);
    var s1 := Prepend(c1, compiles, Remove(0, add.id), c2, rest);
    steps := Prepend(c, compiles, Add(0, add.pattern, add.tag), c1, s1);
    assert steps[1] == Remove(0, add.id);
  }

  lemma Overtake(compiles: string -> bool, none: Store, a: Store, add: BusEvent, remove: BusEvent)
    returns (steps: seq<Step>)
    requires Handled(none, compiles, remove) == none && Handled(none, compiles, add) == a
    ensures var c := Cluster([none], [], [Task(0, add), Task(0, remove)], [0]);
            IsRun(c, compiles, steps) && Final(c, compiles, steps) == Cluster([a], [remove, add], [], [2])
  {
    var c := Cluster([none], [], [Task(0, add), Task(0, remove)], [0]);
    var c1 := Cluster([none], [remove], [Task(0, add)], [0]);
    var c2 := Cluster([none], [remove, add], [], [0]);
    var c3 := Cluster([none], [remove, add], [], [1]);
    var c4 := Cluster([a], [remove, add], [], [2]);
    steps := Prepend(c3, compiles, Deliver(0), c4, []);
    steps := Prepend(c2, compiles, Deliver(0), c3, steps);
    steps := Prepend(c1, compiles, Publish(0), c2, steps);
    steps := Prepend(c, compiles, Publish(1), c1, steps);
  }
}
