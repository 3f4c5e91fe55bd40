/**
 Many WAF nodes that replicate their rules over one totally ordered bus channel.

 An admin call changes its node at once and spawns a publish task; a task appends its event to the
 channel at any later moment and in any order; every node, the sender included, handles the channel
 from front to back at its own pace.
 */
module WafCluster {
  import opened Bus
  import opened Collections
  import opened Waf

  /** A spawned publish task and the node that spawned it. */
  datatype Task = Task(node: nat, event: BusEvent)

  /** `pending` is in spawn order; `cursor[n]` counts the events that node `n` has handled. */
  datatype Cluster = Cluster(nodes: seq<Store>, channel: seq<BusEvent>, pending: seq<Task>, cursor: seq<nat>)

  datatype Step =
    | Add(node: nat, pattern: string, tag: string)
    | Remove(node: nat, id: nat)
    | Publish(task: nat)
    | Deliver(node: nat)

  ghost predicate Shaped(c: Cluster) {
    && |c.nodes| == |c.cursor|
    && forall n :: 0 <= n < |c.nodes| ==> c.cursor[n] <= |c.channel|
  }

  ghost predicate Enabled(c: Cluster, step: Step) {
    && Shaped(c)
    && match step
       case Add(n, _, _) => n < |c.nodes|
       case Remove(n, _) => n < |c.nodes|
       case Publish(k) => k < |c.pending|
       case Deliver(n) => n < |c.nodes| && c.cursor[n] < |c.channel|
  }

  ghost function Next(c: Cluster, compiles: string -> bool, step: Step): Cluster
    requires Enabled(c, step)
  {
    match step
    case Add(n, pattern, tag) =>
      c.(nodes := c.nodes[n := LocalAdd(c.nodes[n], compiles, pattern, tag)],
         pending := c.pending +
           if compiles(pattern) then [Task(n, WafRuleAdded(c.nodes[n].next, pattern, tag))] else [])
    case Remove(n, id) =>
      c.(nodes := c.nodes[n := ApplyRemove(c.nodes[n], id)],
         pending := c.pending +
           if id in Ids(c.nodes[n]) then [Task(n, WafRuleRemoved(id))] else [])
    case Publish(k) =>
      c.(channel := c.channel + [c.pending[k].event],
         pending := c.pending[..k] + c.pending[k + 1..])
    case Deliver(n) =>
      c.(nodes := c.nodes[n := Handled(c.nodes[n], compiles, c.channel[c.cursor[n]])],
         cursor := c.cursor[n := c.cursor[n] + 1])
  }

  ghost predicate IsRun(c: Cluster, compiles: string -> bool, steps: seq<Step>)
    decreases |steps|
  {
    steps == [] || (Enabled(c, steps[0]) && IsRun(Next(c, compiles, steps[0]), compiles, steps[1..]))
  }

  ghost function Final(c: Cluster, compiles: string -> bool, steps: seq<Step>): Cluster
    requires IsRun(c, compiles, steps)
    decreases |steps|
  {
    if steps == [] then c else Final(Next(c, compiles, steps[0]), compiles, steps[1..])
  }

  /** All nodes boot from the same configuration. */
  ghost predicate Initial(c: Cluster, base: Store) {
    && WellFormed(base)
    && c.channel == [] && c.pending == []
    && |c.nodes| == |c.cursor|
    && forall n :: 0 <= n < |c.nodes| ==> c.nodes[n] == base && c.cursor[n] == 0
  }

  /** Every event is out and handled by every node. */
  ghost predicate Quiescent(c: Cluster) {
    && c.pending == []
    && |c.nodes| == |c.cursor|
    && forall n :: 0 <= n < |c.nodes| ==> c.cursor[n] == |c.channel|
  }

  // ----- what the channel says about one id

  ghost predicate About(e: BusEvent, id: nat) {
    (e.WafRuleAdded? || e.WafRuleRemoved?) && e.id == id
  }

  ghost predicate Mentions(events: seq<BusEvent>, id: nat) {
    exists i :: 0 <= i < |events| && About(events[i], id)
  }

  ghost predicate PendingAbout(c: Cluster, id: nat) {
    exists k :: 0 <= k < |c.pending| && About(c.pending[k].event, id)
  }

  /** Whether the last event about `id` adds it; without any such event the boot rules decide. */
  ghost predicate LastSaysPresent(base: Store, channel: seq<BusEvent>, id: nat) {
    if channel == [] then id in Ids(base)
    else
      var e := channel[|channel| - 1];
      if About(e, id) then e.WafRuleAdded? else LastSaysPresent(base, channel[..|channel| - 1], id)
  }

  lemma {:induction false} UnmentionedTail(base: Store, channel: seq<BusEvent>, from: nat, id: nat)
    requires from <= |channel|
    requires !Mentions(channel[from..], id)
    ensures LastSaysPresent(base, channel, id) == LastSaysPresent(base, channel[..from], id)
    decreases |channel|
  {
    if from == |channel| {
      assert channel[..from] == channel;
    } else {
      var n := |channel| - 1;
      assert channel[from..][n - from] == channel[n];
      forall i | 0 <= i < |channel[..n][from..]| ensures !About(channel[..n][from..][i], id) {
        assert channel[from..][i] == channel[..n][from..][i];
      }
      UnmentionedTail(base, channel[..n], from, id);
      assert channel[..n][..from] == channel[..from];
    }
  }

  // ----- the invariant

  /** Once nothing about `id` is on its way to node `n`, the channel decides whether `n` has it. */
  ghost predicate Settled(base: Store, c: Cluster, n: nat, id: nat)
    requires Shaped(c) && n < |c.nodes|
  {
    PendingAbout(c, id) || Mentions(c.channel[c.cursor[n]..], id) ||
    (id in Ids(c.nodes[n]) <==> LastSaysPresent(base, c.channel, id))
  }

  ghost predicate Sound(c: Cluster, compiles: string -> bool) {
    && (forall i :: 0 <= i < |c.channel| && c.channel[i].WafRuleAdded? ==> compiles(c.channel[i].pattern))
    && (forall k :: 0 <= k < |c.pending| && c.pending[k].event.WafRuleAdded? ==> compiles(c.pending[k].event.pattern))
  }

  ghost predicate Inv(base: Store, c: Cluster, compiles: string -> bool) {
    && Shaped(c)
    && Sound(c, compiles)
    && (forall n :: 0 <= n < |c.nodes| ==> WellFormed(c.nodes[n]))
    && (forall n: nat, id :: n < |c.nodes| ==> Settled(base, c, n, id))
  }

  lemma InitialInv(base: Store, c: Cluster, compiles: string -> bool)
    requires Initial(c, base)
    ensures Inv(base, c, compiles)
  {
  }

  lemma {:induction false} AddSettled(base: Store, c: Cluster, compiles: string -> bool, step: Step, n: nat, id: nat)
    requires Inv(base, c, compiles) && Enabled(c, step) && (step.Add? || step.Remove?) && n < |c.nodes|
    ensures Settled(base, Next(c, compiles, step), n, id)
  {
    var c' := Next(c, compiles, step);
    assert Settled(base, c, n, id);
    if PendingAbout(c, id) {
      var k :| 0 <= k < |c.pending| && About(c.pending[k].event, id);
      assert About(c'.pending[k].event, id);
    } else if !Mentions(c.channel[c.cursor[n]..], id) && n == step.node {
      match step
      case Add(_, pattern, tag) =>
        if compiles(pattern) {
          AddPutsExactly(c.nodes[n].(next := c.nodes[n].next + 1), compiles, c.nodes[n].next, pattern, tag);
          assert Ids(c.nodes[n].(next := c.nodes[n].next + 1)) == Ids(c.nodes[n]);
          if id == c.nodes[n].next {
            assert About(c'.pending[|c.pending|].event, id);
          }
        }
      case Remove(_, gone) =>
        RemoveTakesExactly(c.nodes[n], gone);
        if id == gone && id in Ids(c.nodes[n]) {
          assert About(c'.pending[|c.pending|].event, id);
        }
    }
  }

  lemma {:induction false} PublishSettled(base: Store, c: Cluster, compiles: string -> bool, k: nat, n: nat, id: nat)
    requires Inv(base, c, compiles) && Enabled(c, Publish(k)) && n < |c.nodes|
    ensures Settled(base, Next(c, compiles, Publish(k)), n, id)
  {
    var c' := Next(c, compiles, Publish(k));
    var e := c.pending[k].event;
    var todo, todo' := c.channel[c.cursor[n]..], c'.channel[c.cursor[n]..];
    assert Settled(base, c, n, id);
    assert todo' == todo + [e];
    if About(e, id) {
      assert About(todo'[|todo|], id);
    } else if PendingAbout(c, id) {
      var j :| 0 <= j < |c.pending| && About(c.pending[j].event, id);
      assert c'.pending[if j < k then j else j - 1] == c.pending[j];
    } else if Mentions(todo, id) {
      var i :| 0 <= i < |todo| && About(todo[i], id);
      assert About(todo'[i], id);
    } else {
      assert c'.channel[..|c.channel|] == c.channel;
    }
  }

  lemma HandledIds(s: Store, compiles: string -> bool, e: BusEvent, id: nat)
    requires e.WafRuleAdded? ==> compiles(e.pattern)
    ensures id in Ids(Handled(s, compiles, e)) <==> if About(e, id) then e.WafRuleAdded? else id in Ids(s)
  {
    match e
    case WafRuleAdded(x, pattern, tag) => AddPutsExactly(s, compiles, x, pattern, tag);
    case WafRuleRemoved(x) => RemoveTakesExactly(s, x);
    case _ =>
  }

  lemma {:induction false} DeliverSettled(base: Store, c: Cluster, compiles: string -> bool, m: nat, n: nat, id: nat)
    requires Inv(base, c, compiles) && Enabled(c, Deliver(m)) && n < |c.nodes|
    ensures Settled(base, Next(c, compiles, Deliver(m)), n, id)
  {
    assert Settled(base, c, n, id);
    var at := c.cursor[n];
    if n == m && !PendingAbout(c, id) && !Mentions(c.channel[at + 1..], id) {
      var e := c.channel[at];
      HandledIds(c.nodes[n], compiles, e, id);
      if About(e, id) {
        UnmentionedTail(base, c.channel, at + 1, id);
        assert c.channel[..at + 1][at] == e;
      } else {
        var todo := c.channel[at..];
        forall i | 0 <= i < |todo| ensures !About(todo[i], id) {
          if i > 0 {
            assert c.channel[at + 1..][i - 1] == todo[i];
          }
        }
      }
    }
  }

  lemma {:induction false} StepKeepsInv(base: Store, c: Cluster, compiles: string -> bool, step: Step)
    requires Inv(base, c, compiles) && Enabled(c, step)
    ensures Inv(base, Next(c, compiles, step), compiles)
  {
    var c' := Next(c, compiles, step);
    forall n: nat, id: nat | n < |c.nodes| ensures Settled(base, c', n, id) {
      match step
      case Add(_, _, _) => AddSettled(base, c, compiles, step, n, id);
      case Remove(_, _) => AddSettled(base, c, compiles, step, n, id);
      case Publish(k) => PublishSettled(base, c, compiles, k, n, id);
      case Deliver(m) => DeliverSettled(base, c, compiles, m, n, id);
    }
    match step
    case Add(n, pattern, tag) => StoreStaysWellFormed(c.nodes[n], compiles, pattern, tag, WafRuleRemoved(0));
    case Remove(n, id) => ApplyRemoveKeepsWellFormed(c.nodes[n], id);
    case Publish(_) =>
    case Deliver(n) => StoreStaysWellFormed(c.nodes[n], compiles, "", "", c.channel[c.cursor[n]]);
  }

  lemma {:induction false} RunKeepsInv(base: Store, c: Cluster, compiles: string -> bool, steps: seq<Step>)
    requires Inv(base, c, compiles) && IsRun(c, compiles, steps)
    ensures Inv(base, Final(c, compiles, steps), compiles)
    decreases |steps|
  {
    if steps != [] {
      StepKeepsInv(base, c, compiles, steps[0]);
      RunKeepsInv(base, Next(c, compiles, steps[0]), compiles, steps[1..]);
    }
  }

  /** In every run, however publications are ordered, all nodes end with the same rule ids. */
  lemma IdsConverge(base: Store, c: Cluster, compiles: string -> bool, steps: seq<Step>, n: nat, id: nat)
    requires Initial(c, base) && IsRun(c, compiles, steps)
    requires Quiescent(Final(c, compiles, steps)) && n < |Final(c, compiles, steps).nodes|
    ensures var end := Final(c, compiles, steps);
            id in Ids(end.nodes[n]) <==> LastSaysPresent(base, end.channel, id)
  {
    InitialInv(base, c, compiles);
    RunKeepsInv(base, c, compiles, steps);
    assert Settled(base, Final(c, compiles, steps), n, id);
  }
}
