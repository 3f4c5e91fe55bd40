/**
 Agreement about every id, removed ones included. If the publications of each node keep their spawn order, the
 nodes agree on an id at the end exactly if it was issued with one content or removed somewhere: a removal clears
 the id everywhere, and from there on the channel alone decides.
 */
module WafAgreement {
  import opened Bus
  import opened Collections
  import opened Waf
  import opened WafCluster
  import opened WafConvergence
  import opened WafRemoval

  ghost predicate SpawnOrdered(c: Cluster, compiles: string -> bool, steps: seq<Step>)
    requires IsRun(c, compiles, steps)
    decreases |steps|
  {
    steps == [] ||
    (InSpawnOrder(c, steps[0]) && SpawnOrdered(Next(c, compiles, steps[0]), compiles, steps[1..]))
  }

  // ----- a removal is published after an add of its id

  ghost predicate AddedBefore(base: Store, channel: seq<BusEvent>, at: nat, id: nat)
    requires at <= |channel|
  {
    id in Ids(base) || exists j :: 0 <= j < at && Adds(channel[j], id)
  }

  ghost predicate ChannelOrdered(base: Store, channel: seq<BusEvent>) {
    forall i :: 0 <= i < |channel| && channel[i].WafRuleRemoved? ==> AddedBefore(base, channel, i, channel[i].id)
  }

  /** An add of the id is on its way before the removal `k` and from the same node, unless it is out already. */
  ghost predicate AddComesFirst(base: Store, c: Cluster, k: nat)
    requires k < |c.pending|
  {
    c.pending[k].event.WafRuleRemoved? ==>
      var id := c.pending[k].event.id;
      id in Ids(base) || AddPublished(c, id) ||
      exists j :: 0 <= j < k && c.pending[j].node == c.pending[k].node && Adds(c.pending[j].event, id)
  }

  /** The counter of a node is above every id that it has seen. */
  ghost predicate SeenBelowNext(base: Store, c: Cluster, n: nat)
    requires Shaped(c) && n < |c.nodes|
  {
    && base.next <= c.nodes[n].next
    && forall i :: 0 <= i < c.cursor[n] && c.channel[i].WafRuleAdded? ==> c.channel[i].id < c.nodes[n].next
  }

  ghost predicate Causal(base: Store, c: Cluster) {
    && Shaped(c)
    && ChannelOrdered(base, c.channel)
    && (forall k: nat :: k < |c.pending| ==> AddComesFirst(base, c, k))
    && (forall n: nat :: n < |c.nodes| ==> HeldIsKnown(base, c, n) && SeenBelowNext(base, c, n))
  }

  lemma {:induction false} AddKeepsCausal(base: Store, c: Cluster, compiles: string -> bool, step: Step)
    requires Inv(base, c, compiles) && Causal(base, c) && Enabled(c, step) && step.Add?
    ensures Causal(base, Next(c, compiles, step))
  {
    var c' := Next(c, compiles, step);
    assert forall k :: 0 <= k < |c.pending| ==> c'.pending[k] == c.pending[k];
    forall k: nat | k < |c'.pending| ensures AddComesFirst(base, c', k) {
      if k < |c.pending| {
        assert AddComesFirst(base, c, k);
      }
    }
    forall n: nat | n < |c'.nodes| ensures HeldIsKnown(base, c', n) && SeenBelowNext(base, c', n) {
      assert HeldIsKnown(base, c, n) && SeenBelowNext(base, c, n);
      HeldStaysKnown(base, c, compiles, step, n);
    }
  }

  lemma {:induction false} HeldStaysKnown(base: Store, c: Cluster, compiles: string -> bool, step: Step, n: nat)
    requires Enabled(c, step) && (step.Add? || step.Remove?) && n < |c.nodes| && HeldIsKnown(base, c, n)
    ensures HeldIsKnown(base, Next(c, compiles, step), n)
  {
    var c' := Next(c, compiles, step);
    forall id | id in Ids(c'.nodes[n]) && id !in Ids(base) && !AddPublished(c', id)
      ensures exists k :: 0 <= k < |c'.pending| && c'.pending[k].node == n && Adds(c'.pending[k].event, id)
    {
      if id in Ids(c.nodes[n]) {
        var k :| 0 <= k < |c.pending| && c.pending[k].node == n && Adds(c.pending[k].event, id);
        assert c'.pending[k] == c.pending[k];
      } else {
        assert c'.pending[|c.pending|].node == n && Adds(c'.pending[|c.pending|].event, id);
      }
    }
  }

  lemma {:induction false} RemoveKeepsCausal(base: Store, c: Cluster, compiles: string -> bool, step: Step)
    requires Inv(base, c, compiles) && Causal(base, c) && Enabled(c, step) && step.Remove?
    ensures Causal(base, Next(c, compiles, step))
  {
    var c' := Next(c, compiles, step);
    assert HeldIsKnown(base, c, step.node);
    assert forall k :: 0 <= k < |c.pending| ==> c'.pending[k] == c.pending[k];
    forall k: nat | k < |c'.pending| ensures AddComesFirst(base, c', k) {
      if k < |c.pending| {
        assert AddComesFirst(base, c, k);
      }
    }
    forall n: nat | n < |c'.nodes| ensures HeldIsKnown(base, c', n) && SeenBelowNext(base, c', n) {
      assert HeldIsKnown(base, c, n) && SeenBelowNext(base, c, n);
      HeldStaysKnown(base, c, compiles, step, n);
    }
  }

  lemma {:induction false} PublishKeepsCausal(base: Store, c: Cluster, compiles: string -> bool, step: Step)
    requires Inv(base, c, compiles) && Causal(base, c) && Enabled(c, step) && step.Publish? && InSpawnOrder(c, step)
    ensures Causal(base, Next(c, compiles, step))
  {
    var c' := Next(c, compiles, step);
    var at := step.task;
    assert AddComesFirst(base, c, at);
    forall i | 0 <= i < |c'.channel| && c'.channel[i].WafRuleRemoved?
      ensures AddedBefore(base, c'.channel, i, c'.channel[i].id)
    {
      PublishedAddComesFirst(base, c, c', at, i);
    }
    forall k: nat | k < |c'.pending| ensures AddComesFirst(base, c', k) {
      StillComesFirst(base, c, c', at, k);
    }
    forall n: nat | n < |c'.nodes| ensures HeldIsKnown(base, c', n) && SeenBelowNext(base, c', n) {
      assert HeldIsKnown(base, c, n) && SeenBelowNext(base, c, n);
      PublishKeepsHeld(base, c, c', at, n);
    }
  }

  /** What publishing the pending event `at` makes of the channel and of the pending ones. */
  ghost predicate Published(c: Cluster, c': Cluster, at: nat) {
    && at < |c.pending|
    && c'.channel == c.channel + [c.pending[at].event]
    && c'.pending == c.pending[..at] + c.pending[at + 1..]
    && c'.nodes == c.nodes
  }

  lemma {:induction false} PublishedAddComesFirst(base: Store, c: Cluster, c': Cluster, at: nat, i: nat)
    requires Published(c, c', at) && ChannelOrdered(base, c.channel) && AddComesFirst(base, c, at)
    requires InSpawnOrder(c, Publish(at)) && i < |c'.channel| && c'.channel[i].WafRuleRemoved?
    ensures AddedBefore(base, c'.channel, i, c'.channel[i].id)
  {
    var id := c'.channel[i].id;
    if i < |c.channel| {
      assert AddedBefore(base, c.channel, i, id);
      if id !in Ids(base) {
        var j :| 0 <= j < i && Adds(c.channel[j], id);
        assert Adds(c'.channel[j], id);
      }
    } else if id !in Ids(base) {
      var e :| e in c.channel && Adds(e, id);
      var j :| 0 <= j < |c.channel| && c.channel[j] == e;
      assert Adds(c'.channel[j], id);
    }
  }

  lemma {:induction false} StillComesFirst(base: Store, c: Cluster, c': Cluster, at: nat, k: nat)
    requires Published(c, c', at) && k < |c'.pending|
    requires AddComesFirst(base, c, if k < at then k else k + 1)
    ensures AddComesFirst(base, c', k)
  {
    var was := if k < at then k else k + 1;
    assert c'.pending[k] == c.pending[was];
    if c.pending[was].event.WafRuleRemoved? {
      var id := c.pending[was].event.id;
      if AddPublished(c, id) {
        var e :| e in c.channel && Adds(e, id);
        assert e in c'.channel;
      } else if id !in Ids(base) {
        var j :| 0 <= j < was && c.pending[j].node == c.pending[was].node && Adds(c.pending[j].event, id);
        if j == at {
          assert c'.channel[|c.channel|] in c'.channel;
        } else {
          assert c'.pending[if j < at then j else j - 1] == c.pending[j];
        }
      }
    }
  }

  lemma {:induction false} PublishKeepsHeld(base: Store, c: Cluster, c': Cluster, at: nat, n: nat)
    requires Published(c, c', at) && n < |c.nodes| && HeldIsKnown(base, c, n)
    ensures HeldIsKnown(base, c', n)
  {
    forall id | id in Ids(c'.nodes[n]) && id !in Ids(base) && !AddPublished(c', id)
      ensures exists k :: 0 <= k < |c'.pending| && c'.pending[k].node == n && Adds(c'.pending[k].event, id)
    {
      assert forall e :: e in c.channel ==> e in c'.channel;
      assert c'.channel[|c.channel|] in c'.channel;
      var k :| 0 <= k < |c.pending| && c.pending[k].node == n && Adds(c.pending[k].event, id);
      assert c'.pending[if k < at then k else k - 1] == c.pending[k];
    }
  }

  lemma {:induction false} DeliverKeepsCausal(base: Store, c: Cluster, compiles: string -> bool, step: Step)
    requires Inv(base, c, compiles) && Causal(base, c) && Enabled(c, step) && step.Deliver?
    ensures Causal(base, Next(c, compiles, step))
  {
    var c' := Next(c, compiles, step);
    forall k: nat | k < |c'.pending| ensures AddComesFirst(base, c', k) {
      assert AddComesFirst(base, c, k);
    }
    forall n: nat | n < |c'.nodes| ensures HeldIsKnown(base, c', n) && SeenBelowNext(base, c', n) {
      assert HeldIsKnown(base, c, n) && SeenBelowNext(base, c, n);
      if n == step.node {
        DeliveredIsSeen(base, c, compiles, n);
      }
    }
  }

  lemma DeliveredIsSeen(base: Store, c: Cluster, compiles: string -> bool, n: nat)
    requires Inv(base, c, compiles) && Enabled(c, Deliver(n))
    requires HeldIsKnown(base, c, n) && SeenBelowNext(base, c, n)
    ensures HeldIsKnown(base, Next(c, compiles, Deliver(n)), n)
    ensures SeenBelowNext(base, Next(c, compiles, Deliver(n)), n)
  {
    var e := c.channel[c.cursor[n]];
    assert e in c.channel && WellFormed(c.nodes[n]);
    match e
    case WafRuleAdded(x, pattern, tag) =>
      assert Adds(e, x);
      AddPutsExactly(c.nodes[n], compiles, x, pattern, tag);
    case WafRuleRemoved(x) => RemoveTakesExactly(c.nodes[n], x);
    case _ =>
  }

  lemma {:induction false} StepKeepsCausal(base: Store, c: Cluster, compiles: string -> bool, step: Step)
    requires Inv(base, c, compiles) && Causal(base, c) && Enabled(c, step) && InSpawnOrder(c, step)
    ensures Causal(base, Next(c, compiles, step))
  {
    match step
    case Add(_, _, _) => AddKeepsCausal(base, c, compiles, step);
    case Remove(_, _) => RemoveKeepsCausal(base, c, compiles, step);
    case Publish(_) => PublishKeepsCausal(base, c, compiles, step);
    case Deliver(_) => DeliverKeepsCausal(base, c, compiles, step);
  }

  // ----- after a removal the channel alone decides what a node holds

  ghost function AfterEvent(rule: Option<Rule>, e: BusEvent, id: nat): Option<Rule> {
    if e == WafRuleRemoved(id) then None
    else if Adds(e, id) && rule == None then Some(RuleOf(e))
    else rule
  }

  /** The rule that the events leave under an id: the first one added since it was last removed. */
  ghost function Left(events: seq<BusEvent>, id: nat): Option<Rule> {
    if events == [] then None
    else AfterEvent(Left(events[..|events| - 1], id), events[|events| - 1], id)
  }

  ghost predicate HoldsJust(s: Store, id: nat, rule: Option<Rule>) {
    match rule
    case None => id !in Ids(s)
    case Some(r) => r in s.rules && r.id == id
  }

  /** A removal of the id is still on its way to node `n`. */
  ghost predicate RemovalAhead(c: Cluster, n: nat, id: nat)
    requires Shaped(c) && n < |c.nodes|
  {
    WafRuleRemoved(id) in c.channel[c.cursor[n]..] ||
    exists k :: 0 <= k < |c.pending| && c.pending[k].event == WafRuleRemoved(id)
  }

  ghost predicate Decided(c: Cluster, n: nat, id: nat)
    requires Shaped(c) && n < |c.nodes|
  {
    var seen := c.channel[..c.cursor[n]];
    WafRuleRemoved(id) in seen && !RemovalAhead(c, n, id) ==> HoldsJust(c.nodes[n], id, Left(seen, id))
  }

  /** A node that has seen a removal of an id will not mint that id. */
  lemma RemovedIsBelowNext(base: Store, c: Cluster, compiles: string -> bool, n: nat, id: nat)
    requires Causal(base, c) && WellFormed(base) && n < |c.nodes| && WafRuleRemoved(id) in c.channel[..c.cursor[n]]
    ensures id < c.nodes[n].next
  {
    assert SeenBelowNext(base, c, n);
    var i :| 0 <= i < c.cursor[n] && c.channel[..c.cursor[n]][i] == WafRuleRemoved(id);
    assert c.channel[i] == WafRuleRemoved(id);
    assert AddedBefore(base, c.channel, i, id);
  }

  lemma CallKeepsDecided(base: Store, c: Cluster, compiles: string -> bool, step: Step, n: nat, id: nat)
    requires WellFormed(base) && Causal(base, c) && Enabled(c, step) && (step.Add? || step.Remove?)
    requires n < |c.nodes| && Decided(c, n, id)
    ensures Decided(Next(c, compiles, step), n, id)
  {
    var c' := Next(c, compiles, step);
    if WafRuleRemoved(id) in c.channel[..c.cursor[n]] {
      RemovedIsBelowNext(base, c, compiles, n, id);
      if RemovalAhead(c, n, id) {
        if WafRuleRemoved(id) !in c.channel[c.cursor[n]..] {
          var k :| 0 <= k < |c.pending| && c.pending[k].event == WafRuleRemoved(id);
          assert c'.pending[k] == c.pending[k];
        }
      } else if step.Remove? && step.node == n && step.id == id && id in Ids(c.nodes[n]) {
        assert c'.pending[|c.pending|].event == WafRuleRemoved(id);
      } else {
        OtherIdIsUntouched(c, compiles, step, n, id);
      }
    }
  }

  lemma OtherIdIsUntouched(c: Cluster, compiles: string -> bool, step: Step, n: nat, id: nat)
    requires Enabled(c, step) && (step.Add? || step.Remove?) && n < |c.nodes| && id < c.nodes[n].next
    requires step.Remove? && step.node == n && step.id == id ==> id !in Ids(c.nodes[n])
    ensures forall rule :: HoldsJust(c.nodes[n], id, rule) ==> HoldsJust(Next(c, compiles, step).nodes[n], id, rule)
  {
    if n == step.node {
      match step
      case Add(_, pattern, tag) =>
        var s := c.nodes[n].(next := c.nodes[n].next + 1);
        assert Ids(s) == Ids(c.nodes[n]);
        if compiles(pattern) {
          AddPutsExactly(s, compiles, c.nodes[n].next, pattern, tag);
        }
      case Remove(_, x) => RemoveTakesExactly(c.nodes[n], x);
    }
  }

  lemma {:induction false} PublishKeepsDecided(c: Cluster, compiles: string -> bool, at: nat, n: nat, id: nat)
    requires Enabled(c, Publish(at)) && n < |c.nodes| && Decided(c, n, id)
    ensures Decided(Next(c, compiles, Publish(at)), n, id)
  {
    var c' := Next(c, compiles, Publish(at));
    var from := c.cursor[n];
    assert c'.channel[..from] == c.channel[..from];
    assert c'.channel[from..] == c.channel[from..] + [c.pending[at].event];
    if RemovalAhead(c, n, id) && WafRuleRemoved(id) !in c'.channel[from..] {
      var k :| 0 <= k < |c.pending| && c.pending[k].event == WafRuleRemoved(id);
      assert c'.pending[if k < at then k else k - 1] == c.pending[k];
    }
  }

  lemma HandledHoldsJust(s: Store, compiles: string -> bool, e: BusEvent, id: nat, rule: Option<Rule>)
    requires HoldsJust(s, id, rule) && (e.WafRuleAdded? ==> compiles(e.pattern))
    ensures HoldsJust(Handled(s, compiles, e), id, AfterEvent(rule, e, id))
  {
    match e
    case WafRuleAdded(x, pattern, tag) => AddPutsExactly(s, compiles, x, pattern, tag);
    case WafRuleRemoved(x) => RemoveTakesExactly(s, x);
    case _ =>
  }

  lemma {:induction false} DeliverKeepsDecided(base: Store, c: Cluster, compiles: string -> bool, n: nat, id: nat)
    requires Inv(base, c, compiles) && Enabled(c, Deliver(n)) && Decided(c, n, id)
    ensures Decided(Next(c, compiles, Deliver(n)), n, id)
  {
    var c' := Next(c, compiles, Deliver(n));
    var at := c.cursor[n];
    var e, s, seen := c.channel[at], c.nodes[n], c.channel[..at];
    assert c'.channel[..at + 1] == seen + [e] && (seen + [e])[..at] == seen;
    assert c.channel[at..] == [e] + c'.channel[at + 1..];
    if WafRuleRemoved(id) in seen + [e] && !RemovalAhead(c', n, id) {
      if e == WafRuleRemoved(id) {
        RemoveTakesExactly(s, id);
      } else {
        assert !RemovalAhead(c, n, id);
        HandledHoldsJust(s, compiles, e, id, Left(seen, id));
      }
    }
  }

  lemma {:induction false} StepKeepsDecided(base: Store, c: Cluster, compiles: string -> bool, step: Step, n: nat,
                                            id: nat)
    requires WellFormed(base) && Inv(base, c, compiles) && Causal(base, c) && Enabled(c, step)
    requires n < |c.nodes| && Decided(c, n, id)
    ensures Decided(Next(c, compiles, step), n, id)
  {
    match step
    case Add(_, _, _) => CallKeepsDecided(base, c, compiles, step, n, id);
    case Remove(_, _) => CallKeepsDecided(base, c, compiles, step, n, id);
    case Publish(at) => PublishKeepsDecided(c, compiles, at, n, id);
    case Deliver(m) =>
      if m == n {
        DeliverKeepsDecided(base, c, compiles, n, id);
      }
  }

  lemma {:induction false} RunKeepsDecided(base: Store, c: Cluster, compiles: string -> bool, steps: seq<Step>,
                                           n: nat, id: nat)
    requires WellFormed(base) && Inv(base, c, compiles) && Causal(base, c)
    requires IsRun(c, compiles, steps) && SpawnOrdered(c, compiles, steps)
    requires n < |c.nodes| && Decided(c, n, id)
    ensures var end := Final(c, compiles, steps);
            Shaped(end) && n < |end.nodes| && Decided(end, n, id)
    decreases |steps|
  {
    if steps != [] {
      StepKeepsDecided(base, c, compiles, steps[0], n, id);
      StepKeepsCausal(base, c, compiles, steps[0]);
      StepKeepsInv(base, c, compiles, steps[0]);
      RunKeepsDecided(base, Next(c, compiles, steps[0]), compiles, steps[1..], n, id);
    }
  }

  lemma {:induction false} InitialCausal(base: Store, c: Cluster)
    requires Initial(c, base)
    ensures Causal(base, c)
  {
  }

  lemma {:induction false} NodesStay(c: Cluster, compiles: string -> bool, steps: seq<Step>)
    requires IsRun(c, compiles, steps)
    ensures |Final(c, compiles, steps).nodes| == |c.nodes|
    decreases |steps|
  {
    if steps != [] {
      NodesStay(Next(c, compiles, steps[0]), compiles, steps[1..]);
    }
  }

  /** Once an id was removed anywhere, the channel leaves the same rule, or none, on every node. */
  lemma {:induction false} RemovedAgrees(base: Store, c: Cluster, compiles: string -> bool, steps: seq<Step>, id: nat)
    requires Initial(c, base) && IsRun(c, compiles, steps) && SpawnOrdered(c, compiles, steps)
    requires Quiescent(Final(c, compiles, steps)) && WafRuleRemoved(id) in Final(c, compiles, steps).channel
    ensures AgreeOn(Final(c, compiles, steps), id)
  {
    var end := Final(c, compiles, steps);
    InitialInv(base, c, compiles);
    InitialCausal(base, c);
    NodesStay(c, compiles, steps);
    RunKeepsInv(base, c, compiles, steps);
    forall n: nat | n < |end.nodes| ensures HoldsJust(end.nodes[n], id, Left(end.channel, id)) {
      RunKeepsDecided(base, c, compiles, steps, n, id);
      assert end.channel[..|end.channel|] == end.channel;
    }
    forall n, m, r: Rule | 0 <= n < |end.nodes| && 0 <= m < |end.nodes| && r.id == id && r in end.nodes[n].rules
      ensures r in end.nodes[m].rules
    {
      assert HoldsJust(end.nodes[n], id, Left(end.channel, id)) && HoldsJust(end.nodes[m], id, Left(end.channel, id));
      assert id in Ids(end.nodes[n]) && WellFormed(end.nodes[n]);
    }
  }

  /**
   The exact condition for every id: with publications in spawn order the nodes agree on it at quiescence if and
   only if it was issued with one content or removed somewhere.
   */
  lemma {:induction false} AgreeIffIssuedOnceOrRemoved(base: Store, c: Cluster, compiles: string -> bool,
                                                       steps: seq<Step>, id: nat)
    requires Initial(c, base) && |c.nodes| > 0 && IsRun(c, compiles, steps) && SpawnOrdered(c, compiles, steps)
    requires Quiescent(Final(c, compiles, steps))
    ensures var end := Final(c, compiles, steps);
            AgreeOn(end, id) <==> IssuedOnce(base, end, id) || WafRuleRemoved(id) in end.channel
  {
    if WafRuleRemoved(id) in Final(c, compiles, steps).channel {
      RemovedAgrees(base, c, compiles, steps, id);
    } else {
      AgreeIffIssuedOnce(base, c, compiles, steps, id);
    }
  }

  // ----- without spawn order

  /** What was issued under an id. */
  ghost function Contents(base: Store, c: Cluster, id: nat): set<Rule> {
    set r | r in Issued(base, c) && r.id == id
  }

  /** A complete run in which `id` was removed and issued with exactly these contents. */
  ghost predicate RemovedRun(base: Store, c: Cluster, compiles: string -> bool, steps: seq<Step>, id: nat,
                             contents: set<Rule>) {
    && Initial(c, base) && IsRun(c, compiles, steps)
    && var end := Final(c, compiles, steps);
       Quiescent(end) && WafRuleRemoved(id) in end.channel && Contents(base, end, id) == contents
  }

  /**
   Without spawn order: the nodes agree on an id that was removed at the end of every run that issued it with one or
   both of these contents if and only if the two are the same.
   */
  lemma AgreeInEveryOrderIff(base: Store, compiles: string -> bool, ea: BusEvent, eb: BusEvent)
    requires Mints(base, compiles, ea) && Mints(base, compiles, eb)
    ensures (forall c, steps :: RemovedRun(base, c, compiles, steps, base.next, {RuleOf(ea), RuleOf(eb)})
                                ==> AgreeOn(Final(c, compiles, steps), base.next))
            <==> RuleOf(ea) == RuleOf(eb)
  {
    var id, contents := base.next, {RuleOf(ea), RuleOf(eb)};
    if RuleOf(ea) == RuleOf(eb) {
      forall c, steps | RemovedRun(base, c, compiles, steps, id, contents)
        ensures AgreeOn(Final(c, compiles, steps), id)
      {
        OneContent(base, Final(c, compiles, steps), id, RuleOf(ea));
        IssuedOnceAgrees(base, c, compiles, steps, id);
      }
    } else {
      var c, steps := RemovedDivergesOutOfOrder(base, compiles, ea, eb);
      var end := Final(c, compiles, steps);
      assert RuleOf(ea) in Table(end.nodes[0]) && RuleOf(ea) !in Table(base);
      assert RuleOf(ea) !in Table(end.nodes[1]);
      assert !AgreeOn(end, id);
    }
  }

  lemma OneContent(base: Store, c: Cluster, id: nat, rule: Rule)
    requires Contents(base, c, id) == {rule}
    ensures IssuedOnce(base, c, id)
  {
    forall r | r in Issued(base, c) && r.id == id ensures r == rule {
      assert r in Contents(base, c, id);
    }
  }

  /**
   The failing run, for any boot rules and any two contents: the removal of the id overtakes its add, and both nodes
   end with a rule of their own under it.
   */
  lemma RemovedDivergesOutOfOrder(base: Store, compiles: string -> bool, ea: BusEvent, eb: BusEvent)
    returns (c: Cluster, steps: seq<Step>)
    requires Mints(base, compiles, ea) && Mints(base, compiles, eb)
    ensures RemovedRun(base, c, compiles, steps, base.next, {RuleOf(ea), RuleOf(eb)})
    ensures var end := Final(c, compiles, steps);
            && |end.nodes| == 2
            && Table(end.nodes[0]) == Table(base) + {RuleOf(ea)} && Table(end.nodes[1]) == Table(base) + {RuleOf(eb)}
  {
    Minting(base, compiles, ea);
    Minting(base, compiles, eb);
    c, steps := OvertakingRun(base, compiles, ea, eb);
    AllIssued(base, Final(c, compiles, steps), base.next, ea, eb);
  }

  lemma AllIssued(base: Store, c: Cluster, id: nat, ea: BusEvent, eb: BusEvent)
    requires WellFormed(base) && id == base.next && ea.WafRuleAdded? && eb.WafRuleAdded? && ea.id == eb.id == id
    requires c.channel == [WafRuleRemoved(id), ea, eb] && c.pending == []
    ensures Contents(base, c, id) == {RuleOf(ea), RuleOf(eb)} && WafRuleRemoved(id) in c.channel
  {
    assert c.channel[0] == WafRuleRemoved(id) && c.channel[1] == ea && c.channel[2] == eb;
    assert RuleOf(ea) in Issued(base, c) && RuleOf(eb) in Issued(base, c);
  }

  lemma OvertakingRun(base: Store, compiles: string -> bool, ea: BusEvent, eb: BusEvent)
    returns (c: Cluster, steps: seq<Step>)
    requires Mints(base, compiles, ea) && Mints(base, compiles, eb)
    ensures c == Cluster([base, base], [], [], [0, 0]) && IsRun(c, compiles, steps)
    ensures Final(c, compiles, steps) ==
            Cluster([With(base, ea), With(base, eb)], [WafRuleRemoved(base.next), ea, eb], [], [3, 3])
  {
    var none, rm := base.(next := base.next + 1), WafRuleRemoved(base.next);
    var a, b := With(base, ea), With(base, eb);
    LoneRule(base, compiles, ea, eb);
    LoneRule(base, compiles, eb, ea);
    steps := LateAdds(compiles, none, a, b, rm, ea, eb);
    steps := OvertakingRemoval(compiles, base, none, b, rm, ea, eb, steps);
    c, steps := AddThenRemove(compiles, base, a, none, ea, rm, steps);
  }

  /** The first node adds a rule and removes it again. */
  lemma AddThenRemove(compiles: string -> bool, base: Store, a: Store, none: Store, ea: BusEvent, rm: BusEvent,
                      rest: seq<Step>)
    returns (c: Cluster, steps: seq<Step>)
    requires Mints(base, compiles, ea) && LocalAdd(base, compiles, ea.pattern, ea.tag) == a
    requires rm == WafRuleRemoved(base.next) && base.next in Ids(a) && ApplyRemove(a, base.next) == none
    requires IsRun(Cluster([none, base], [], [Task(0, ea), Task(0, rm)], [0, 0]), compiles, rest)
    ensures c == Cluster([base, base], [], [], [0, 0]) && IsRun(c, compiles, steps)
    ensures Final(c, compiles, steps) ==
            Final(Cluster([none, base], [], [Task(0, ea), Task(0, rm)], [0, 0]), compiles, rest)
  {
    c := Cluster([base, base], [], [], [0, 0]);
    var c1 := Cluster([a, base], [], [Task(0, ea)], [0, 0]);
    var c2 := Cluster([none, base], [], [Task(0, ea), Task(0, rm)], [0, 0]);
    steps := Prepend(c1, compiles, Remove(0, base.next), c2, rest);
    steps := Prepend(c, compiles, Add(0, ea.pattern, ea.tag), c1, steps);
  }

  /** The removal overtakes its add, and the other node, which has seen the removal only, mints the id again. */
  lemma OvertakingRemoval(compiles: string -> bool, base: Store, none: Store, b: Store, rm: BusEvent, ea: BusEvent,
                          eb: BusEvent, rest: seq<Step>)
    returns (steps: seq<Step>)
    requires Mints(base, compiles, eb) && LocalAdd(base, compiles, eb.pattern, eb.tag) == b
    requires Handled(base, compiles, rm) == base
    requires IsRun(Cluster([none, b], [rm], [Task(0, ea), Task(1, eb)], [0, 1]), compiles, rest)
    ensures var c := Cluster([none, base], [], [Task(0, ea), Task(0, rm)], [0, 0]);
            IsRun(c, compiles, steps) && Final(c, compiles, steps) ==
            Final(Cluster([none, b], [rm], [Task(0, ea), Task(1, eb)], [0, 1]), compiles, rest)
  {
    var c := Cluster([none, base], [], [Task(0, ea), Task(0, rm)], [0, 0]);
    var c1 := Cluster([none, base], [rm], [Task(0, ea)], [0, 0]);
    var c2 := Cluster([none, base], [rm], [Task(0, ea)], [0, 1]);
    var c3 := Cluster([none, b], [rm], [Task(0, ea), Task(1, eb)], [0, 1]);
    steps := Prepend(c2, compiles, Add(1, eb.pattern, eb.tag), c3, rest);
    steps := Prepend(c1, compiles, Deliver(1), c2, steps);
    steps := Prepend(c, compiles, Publish(1), c1, steps);
  }

  lemma {:induction false} LateAdds(compiles: string -> bool, none: Store, a: Store, b: Store,
                                    rm: BusEvent, ea: BusEvent, eb: BusEvent)
    returns (steps: seq<Step>)
    requires Handled(none, compiles, rm) == none && Handled(none, compiles, ea) == a
    requires Handled(a, compiles, eb) == a && Handled(b, compiles, ea) == b && Handled(b, compiles, eb) == b
    ensures var c := Cluster([none, b], [rm], [Task(0, ea), Task(1, eb)], [0, 1]);
            IsRun(c, compiles, steps) && Final(c, compiles, steps) == Cluster([a, b], [rm, ea, eb], [], [3, 3])
  {
    steps := LateEchoes(compiles, a, b, [rm, ea, eb]);
    steps := FirstNodeCatchesUp(compiles, none, a, b, [rm, ea, eb], steps);
    assert [rm] + [ea, eb] == [rm, ea, eb];
    steps := PublishBoth(compiles, [none, b], [rm], ea, eb, [0, 1], steps);
  }

  lemma {:induction false} FirstNodeCatchesUp(compiles: string -> bool, none: Store, a: Store, b: Store,
                                              all: seq<BusEvent>, rest: seq<Step>)
    returns (steps: seq<Step>)
    requires |all| == 3 && Handled(none, compiles, all[0]) == none && Handled(none, compiles, all[1]) == a
    requires Handled(a, compiles, all[2]) == a && IsRun(Cluster([a, b], all, [], [3, 1]), compiles, rest)
    ensures var c := Cluster([none, b], all, [], [0, 1]);
            IsRun(c, compiles, steps)
            && Final(c, compiles, steps) == Final(Cluster([a, b], all, [], [3, 1]), compiles, rest)
  {
    var c, c1 := Cluster([none, b], all, [], [0, 1]), Cluster([none, b], all, [], [1, 1]);
    var c2, c3 := Cluster([a, b], all, [], [2, 1]), Cluster([a, b], all, [], [3, 1]);
    steps := Prepend(c2, compiles, Deliver(0), c3, rest);
    steps := Prepend(c1, compiles, Deliver(0), c2, steps);
    steps := Prepend(c, compiles, Deliver(0), c1, steps);
  }

  lemma LateEchoes(compiles: string -> bool, a: Store, b: Store, all: seq<BusEvent>) returns (steps: seq<Step>)
    requires |all| == 3 && Handled(b, compiles, all[1]) == b && Handled(b, compiles, all[2]) == b
    ensures var c := Cluster([a, b], all, [], [3, 1]);
            IsRun(c, compiles, steps) && Final(c, compiles, steps) == Cluster([a, b], all, [], [3, 3])
  {
    var c := Cluster([a, b], all, [], [3, 1]);
    steps := Prepend(c.(cursor := [3, 2]), compiles, Deliver(1), c.(cursor := [3, 3]), []);
    steps := Prepend(c, compiles, Deliver(1), c.(cursor := [3, 2]), steps);
  }
}
