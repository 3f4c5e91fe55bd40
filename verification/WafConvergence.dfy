/** When the replicated rule tables agree, and when a removal is final. */
module WafConvergence {
  import opened Bus
  import opened Collections
  import opened Waf
  import opened WafCluster

  ghost function RuleOf(e: BusEvent): Rule
    requires e.WafRuleAdded?
  {
    Rule(e.id, e.pattern, NormalTag(e.tag))
  }

  /** All rules that were ever accepted anywhere: boot rules and successful adds. */
  ghost function Issued(base: Store, c: Cluster): set<Rule> {
    Table(base)
    + (set e | e in c.channel && e.WafRuleAdded? :: RuleOf(e))
    + (set t | t in c.pending && t.event.WafRuleAdded? :: RuleOf(t.event))
  }

  /** No id was issued with two different contents. */
  ghost predicate Coherent(rules: set<Rule>) {
    forall r, r' :: r in rules && r' in rules && r.id == r'.id ==> r == r'
  }

  ghost predicate Backed(base: Store, c: Cluster) {
    forall n, r :: 0 <= n < |c.nodes| && r in c.nodes[n].rules ==> r in Issued(base, c)
  }

  /** Only a successful add issues a rule; publishing and delivering neither lose nor invent one. */
  lemma {:induction false} IssuedStep(base: Store, c: Cluster, compiles: string -> bool, step: Step)
    requires Enabled(c, step)
    ensures Issued(base, Next(c, compiles, step)) ==
            Issued(base, c) +
            if step.Add? && compiles(step.pattern)
            then {Rule(c.nodes[step.node].next, step.pattern, NormalTag(step.tag))} else {}
  {
    var c' := Next(c, compiles, step);
    match step
    case Add(n, pattern, tag) =>
      assert forall t :: t in c.pending ==> t in c'.pending;
      if compiles(pattern) {
        assert c'.pending[|c.pending|] in c'.pending;
      }
    case Remove(n, id) =>
      assert forall t :: t in c.pending ==> t in c'.pending;
    case Publish(k) =>
      var t := c.pending[k];
      assert forall u :: u in c.pending ==> u == t || u in c'.pending;
      assert c'.channel[|c.channel|] in c'.channel;
      forall e | e in c.channel ensures e in c'.channel {
      }
    case Deliver(_) =>
  }

  lemma BackedStep(base: Store, c: Cluster, compiles: string -> bool, step: Step)
    requires Inv(base, c, compiles) && Backed(base, c) && Enabled(c, step)
    ensures Backed(base, Next(c, compiles, step))
  {
    IssuedStep(base, c, compiles, step);
    if step.Deliver? {
      var e := c.channel[c.cursor[step.node]];
      assert e in c.channel;
      if e.WafRuleAdded? {
        assert RuleOf(e) in Issued(base, c);
      }
    }
  }

  lemma {:induction false} BackedRun(base: Store, c: Cluster, compiles: string -> bool, steps: seq<Step>)
    requires Inv(base, c, compiles) && Backed(base, c) && IsRun(c, compiles, steps)
    ensures Backed(base, Final(c, compiles, steps))
    decreases |steps|
  {
    if steps != [] {
      BackedStep(base, c, compiles, steps[0]);
      StepKeepsInv(base, c, compiles, steps[0]);
      BackedRun(base, Next(c, compiles, steps[0]), compiles, steps[1..]);
    }
  }

  /** `id` was issued with one content, if at all. */
  ghost predicate IssuedOnce(base: Store, c: Cluster, id: nat) {
    forall r, r' :: r in Issued(base, c) && r' in Issued(base, c) && r.id == r'.id == id ==> r == r'
  }

  /**
   Convergence, rule by rule: at quiescence a rule whose id was issued with one content is on every node if and
   only if the last published event about its id is an add. Collisions of other ids do not matter.
   */
  lemma RuleConverges(base: Store, c: Cluster, compiles: string -> bool, steps: seq<Step>, n: nat, r: Rule)
    requires Initial(c, base) && IsRun(c, compiles, steps)
    requires Quiescent(Final(c, compiles, steps)) && n < |Final(c, compiles, steps).nodes|
    requires r in Issued(base, Final(c, compiles, steps)) && IssuedOnce(base, Final(c, compiles, steps), r.id)
    ensures var end := Final(c, compiles, steps);
            r in Table(end.nodes[n]) <==> LastSaysPresent(base, end.channel, r.id)
  {
    var end := Final(c, compiles, steps);
    InitialInv(base, c, compiles);
    BackedRun(base, c, compiles, steps);
    IdsConverge(base, c, compiles, steps, n, r.id);
    if r.id in Ids(end.nodes[n]) {
      var held :| held in end.nodes[n].rules && held.id == r.id;
      assert held == r;
    }
  }

  /** Hence, if no id was issued with two contents, all nodes hold one table: the rules that were added last. */
  lemma TablesConverge(base: Store, c: Cluster, compiles: string -> bool, steps: seq<Step>, n: nat)
    requires Initial(c, base) && IsRun(c, compiles, steps)
    requires Quiescent(Final(c, compiles, steps)) && n < |Final(c, compiles, steps).nodes|
    requires Coherent(Issued(base, Final(c, compiles, steps)))
    ensures var end := Final(c, compiles, steps);
            Table(end.nodes[n]) ==
            set r | r in Issued(base, end) && LastSaysPresent(base, end.channel, r.id)
  {
    var end := Final(c, compiles, steps);
    InitialInv(base, c, compiles);
    BackedRun(base, c, compiles, steps);
    forall r | r in Issued(base, end)
      ensures r in Table(end.nodes[n]) <==> LastSaysPresent(base, end.channel, r.id)
    {
      RuleConverges(base, c, compiles, steps, n, r);
    }
  }

  // ----- ids that nobody removes agree exactly when their contents were issued coherently

  ghost predicate Removed(c: Cluster, id: nat) {
    WafRuleRemoved(id) in c.channel || exists t :: t in c.pending && t.event == WafRuleRemoved(id)
  }

  /** Every issued rule is still held by some node, until its id is removed somewhere. */
  ghost predicate Kept(base: Store, c: Cluster) {
    forall r :: r in Issued(base, c) && !Removed(c, r.id) ==> HeldSomewhere(c, r)
  }

  ghost predicate HeldSomewhere(c: Cluster, r: Rule) {
    exists n :: 0 <= n < |c.nodes| && r in c.nodes[n].rules
  }

  lemma RemovedStays(c: Cluster, compiles: string -> bool, step: Step, id: nat)
    requires Enabled(c, step) && Removed(c, id)
    ensures Removed(Next(c, compiles, step), id)
  {
  }

  /** A node only loses a rule through a removal of its id. */
  lemma {:induction false} LossMeansRemoved(c: Cluster, compiles: string -> bool, step: Step, n: nat, r: Rule)
    requires Enabled(c, step) && n < |c.nodes| && r in c.nodes[n].rules
    requires r !in Next(c, compiles, step).nodes[n].rules
    ensures Removed(Next(c, compiles, step), r.id)
  {
  }

  lemma KeptStep(base: Store, c: Cluster, compiles: string -> bool, step: Step)
    requires Inv(base, c, compiles) && Kept(base, c) && Enabled(c, step)
    ensures Kept(base, Next(c, compiles, step))
  {
    var c' := Next(c, compiles, step);
    IssuedStep(base, c, compiles, step);
    forall r | r in Issued(base, c') && !Removed(c', r.id) ensures HeldSomewhere(c', r) {
      if Removed(c, r.id) {
        RemovedStays(c, compiles, step, r.id);
      } else if r in Issued(base, c) {
        var n :| 0 <= n < |c.nodes| && r in c.nodes[n].rules;
        if r !in c'.nodes[n].rules {
          LossMeansRemoved(c, compiles, step, n, r);
        }
        assert r in c'.nodes[n].rules;
      } else {
        assert c'.nodes[step.node].rules[|c.nodes[step.node].rules|] == r;
        assert r in c'.nodes[step.node].rules;
      }
    }
  }

  lemma {:induction false} KeptRun(base: Store, c: Cluster, compiles: string -> bool, steps: seq<Step>)
    requires Inv(base, c, compiles) && Kept(base, c) && IsRun(c, compiles, steps)
    ensures Kept(base, Final(c, compiles, steps))
    decreases |steps|
  {
    if steps != [] {
      KeptStep(base, c, compiles, steps[0]);
      StepKeepsInv(base, c, compiles, steps[0]);
      KeptRun(base, Next(c, compiles, steps[0]), compiles, steps[1..]);
    }
  }

  ghost predicate AgreeOn(c: Cluster, id: nat) {
    forall n, m, r: Rule :: 0 <= n < |c.nodes| && 0 <= m < |c.nodes| && r.id == id && r in c.nodes[n].rules
                      ==> r in c.nodes[m].rules
  }

  /** One content, or no presence, is enough for agreement, whether or not the id was ever removed. */
  lemma {:induction false} IssuedOnceAgrees(base: Store, c: Cluster, compiles: string -> bool, steps: seq<Step>,
                                            id: nat)
    requires Initial(c, base) && IsRun(c, compiles, steps) && Quiescent(Final(c, compiles, steps))
    requires var end := Final(c, compiles, steps);
             IssuedOnce(base, end, id) || !LastSaysPresent(base, end.channel, id)
    ensures AgreeOn(Final(c, compiles, steps), id)
  {
    var end := Final(c, compiles, steps);
    InitialInv(base, c, compiles);
    BackedRun(base, c, compiles, steps);
    forall n, m, r: Rule | 0 <= n < |end.nodes| && 0 <= m < |end.nodes| && r.id == id && r in end.nodes[n].rules
      ensures r in end.nodes[m].rules
    {
      IdsConverge(base, c, compiles, steps, n, id);
      assert id in Ids(end.nodes[n]) && r in Issued(base, end);
      RuleConverges(base, c, compiles, steps, m, r);
    }
  }

  /** Without a removal every issued content is still held somewhere, so agreement means that there is only one. */
  lemma {:induction false} AgreementIsIssuedOnce(base: Store, c: Cluster, compiles: string -> bool, steps: seq<Step>,
                                                 id: nat)
    requires Initial(c, base) && |c.nodes| > 0 && IsRun(c, compiles, steps)
    requires Quiescent(Final(c, compiles, steps)) && WafRuleRemoved(id) !in Final(c, compiles, steps).channel
    requires AgreeOn(Final(c, compiles, steps), id)
    ensures IssuedOnce(base, Final(c, compiles, steps), id)
  {
    InitialInv(base, c, compiles);
    RunKeepsInv(base, c, compiles, steps);
    forall r | r in Issued(base, c) ensures HeldSomewhere(c, r) {
      assert r in c.nodes[0].rules;
    }
    KeptRun(base, c, compiles, steps);
    AgreementIsCoherent(base, Final(c, compiles, steps), compiles, id);
  }

  lemma AgreementIsCoherent(base: Store, end: Cluster, compiles: string -> bool, id: nat)
    requires Inv(base, end, compiles) && Kept(base, end) && !Removed(end, id) && AgreeOn(end, id)
    ensures IssuedOnce(base, end, id)
  {
    forall r, r' | r in Issued(base, end) && r' in Issued(base, end) && r.id == r'.id == id ensures r == r' {
      assert HeldSomewhere(end, r) && HeldSomewhere(end, r');
      var n :| 0 <= n < |end.nodes| && r in end.nodes[n].rules;
      assert r' in end.nodes[n].rules;
      assert WellFormed(end.nodes[n]);
    }
  }

  /**
   The exact condition for an id that nobody removed: the nodes agree on it at quiescence if and only
   if it was issued with one content. Two nodes minting the same id is the failing case.
   */
  lemma AgreeIffIssuedOnce(base: Store, c: Cluster, compiles: string -> bool, steps: seq<Step>, id: nat)
    requires Initial(c, base) && |c.nodes| > 0 && IsRun(c, compiles, steps)
    requires Quiescent(Final(c, compiles, steps)) && WafRuleRemoved(id) !in Final(c, compiles, steps).channel
    ensures AgreeOn(Final(c, compiles, steps), id) <==> IssuedOnce(base, Final(c, compiles, steps), id)
  {
    if AgreeOn(Final(c, compiles, steps), id) {
      AgreementIsIssuedOnce(base, c, compiles, steps, id);
    }
    if IssuedOnce(base, Final(c, compiles, steps), id) {
      IssuedOnceAgrees(base, c, compiles, steps, id);
    }
  }

  // ----- runs that never mint an id twice

  ghost predicate FreshAdd(base: Store, c: Cluster, step: Step)
    requires Shaped(c)
  {
    step.Add? && step.node < |c.nodes| ==> forall r :: r in Issued(base, c) ==> r.id != c.nodes[step.node].next
  }

  ghost predicate FreshRun(base: Store, c: Cluster, compiles: string -> bool, steps: seq<Step>)
    requires IsRun(c, compiles, steps)
    decreases |steps|
  {
    steps == [] || (FreshAdd(base, c, steps[0]) && FreshRun(base, Next(c, compiles, steps[0]), compiles, steps[1..]))
  }

  lemma {:induction false} FreshRunIsCoherent(base: Store, c: Cluster, compiles: string -> bool, steps: seq<Step>)
    requires Coherent(Issued(base, c)) && IsRun(c, compiles, steps) && FreshRun(base, c, compiles, steps)
    ensures Coherent(Issued(base, Final(c, compiles, steps)))
    decreases |steps|
  {
    if steps != [] {
      IssuedStep(base, c, compiles, steps[0]);
      FreshRunIsCoherent(base, Next(c, compiles, steps[0]), compiles, steps[1..]);
    }
  }

  lemma BaseIsCoherent(base: Store, c: Cluster)
    requires Initial(c, base)
    ensures Coherent(Issued(base, c))
    ensures forall r :: r in Issued(base, c) ==> r.id < base.next
  {
  }

  /** If every add goes through one node, all nodes converge on the same table. */
  lemma SingleWriterConverges(base: Store, c: Cluster, compiles: string -> bool, steps: seq<Step>,
                              writer: nat, n: nat, m: nat)
    requires Initial(c, base) && IsRun(c, compiles, steps) && writer < |c.nodes|
    requires forall i :: 0 <= i < |steps| && steps[i].Add? ==> steps[i].node == writer
    requires Quiescent(Final(c, compiles, steps))
    requires n < |Final(c, compiles, steps).nodes| && m < |Final(c, compiles, steps).nodes|
    ensures Table(Final(c, compiles, steps).nodes[n]) == Table(Final(c, compiles, steps).nodes[m])
  {
    InitialInv(base, c, compiles);
    BaseIsCoherent(base, c);
    SingleWriterIsFresh(base, c, compiles, steps, writer);
    FreshRunIsCoherent(base, c, compiles, steps);
    TablesConverge(base, c, compiles, steps, n);
    TablesConverge(base, c, compiles, steps, m);
  }

  lemma {:induction false} SingleWriterIsFresh(base: Store, c: Cluster, compiles: string -> bool,
                                               steps: seq<Step>, writer: nat)
    requires Inv(base, c, compiles) && IsRun(c, compiles, steps) && writer < |c.nodes|
    requires forall i :: 0 <= i < |steps| && steps[i].Add? ==> steps[i].node == writer
    requires forall r :: r in Issued(base, c) ==> r.id < c.nodes[writer].next
    ensures FreshRun(base, c, compiles, steps)
    decreases |steps|
  {
    if steps != [] {
      var step := steps[0];
      var c' := Next(c, compiles, step);
      IssuedStep(base, c, compiles, step);
      StepKeepsInv(base, c, compiles, step);
      NextCounterGrows(base, c, compiles, step, writer);
      SingleWriterIsFresh(base, c', compiles, steps[1..], writer);
    }
  }

  lemma NextCounterGrows(base: Store, c: Cluster, compiles: string -> bool, step: Step, n: nat)
    requires Inv(base, c, compiles) && Enabled(c, step) && n < |c.nodes|
    ensures c.nodes[n].next <= Next(c, compiles, step).nodes[n].next
    ensures step.Add? && step.node == n ==> c.nodes[n].next < Next(c, compiles, step).nodes[n].next
  {
  }

  // ----- two nodes that mint the same id

  /** The event announces the next rule that a node with this store would add. */
  ghost predicate Mints(s: Store, compiles: string -> bool, e: BusEvent) {
    WellFormed(s) && e.WafRuleAdded? && e.id == s.next && compiles(e.pattern)
  }

  ghost function With(s: Store, e: BusEvent): Store
    requires e.WafRuleAdded?
  {
    Store(s.rules + [RuleOf(e)], s.next + 1)
  }

  lemma Minting(s: Store, compiles: string -> bool, e: BusEvent)
    requires Mints(s, compiles, e)
    ensures LocalAdd(s, compiles, e.pattern, e.tag) == With(s, e)
    ensures s.next !in Ids(s) && s.next in Ids(With(s, e))
    ensures Table(With(s, e)) == Table(s) + {RuleOf(e)}
  {
    var one := With(s, e);
    assert Ids(s.(next := s.next + 1)) == Ids(s);
    assert one.rules[|s.rules|] in one.rules;
  }

  /** What the operations on a minted id do to the stores with and without it. */
  lemma LoneRule(base: Store, compiles: string -> bool, e: BusEvent, other: BusEvent)
    requires Mints(base, compiles, e) && Mints(base, compiles, other)
    ensures var one, none, rm := With(base, e), base.(next := base.next + 1), WafRuleRemoved(base.next);
            && LocalAdd(base, compiles, e.pattern, e.tag) == one && base.next in Ids(one)
            && ApplyRemove(one, base.next) == none
            && Handled(base, compiles, rm) == base && Handled(none, compiles, rm) == none
            && Handled(none, compiles, e) == one
            && Handled(one, compiles, e) == Handled(one, compiles, other) == one
  {
    var one, none := With(base, e), base.(next := base.next + 1);
    Minting(base, compiles, e);
    assert Ids(none) == Ids(base);
    WithoutAbsent(base.rules, base.next);
    WithoutLast(base.rules, RuleOf(e));
  }

  lemma WithoutLast(rules: seq<Rule>, last: Rule)
    requires forall r :: r in rules ==> r.id != last.id
    ensures RulesWithout(rules + [last], last.id) == rules
  {
    var all := rules + [last];
    var keep := set r | r in all && r.id != last.id;
    KeepingSnoc(rules, last, keep);
    KeepingAll(rules, keep);
  }

  /**
   Without that, convergence fails: from any boot rules two nodes that add concurrently mint the same id, and end with
   their own contents, whatever these are.
   */
  lemma ConcurrentAddsDiverge(base: Store, compiles: string -> bool, ea: BusEvent, eb: BusEvent)
    returns (c: Cluster, steps: seq<Step>)
    requires Mints(base, compiles, ea) && Mints(base, compiles, eb)
    ensures Initial(c, base) && IsRun(c, compiles, steps) && Quiescent(Final(c, compiles, steps))
    ensures var end := Final(c, compiles, steps);
            && |end.nodes| == 2 && end.channel == [ea, eb]
            && Table(end.nodes[0]) == Table(base) + {RuleOf(ea)} && Table(end.nodes[1]) == Table(base) + {RuleOf(eb)}
  {
    Minting(base, compiles, ea);
    Minting(base, compiles, eb);
    c, steps := ConcurrentAdds(base, compiles, With(base, ea), With(base, eb), ea, eb);
  }

  lemma {:induction false} ConcurrentAdds(base: Store, compiles: string -> bool, a: Store, b: Store,
                                          ea: BusEvent, eb: BusEvent)
    returns (c: Cluster, steps: seq<Step>)
    requires Mints(base, compiles, ea) && Mints(base, compiles, eb) && base.next in Ids(a) * Ids(b)
    requires LocalAdd(base, compiles, ea.pattern, ea.tag) == a && LocalAdd(base, compiles, eb.pattern, eb.tag) == b
    ensures c == Cluster([base, base], [], [], [0, 0]) && IsRun(c, compiles, steps)
    ensures Final(c, compiles, steps) == Cluster([a, b], [ea, eb], [], [2, 2])
  {
    steps := EchoesAreSkipped(compiles, a, b, ea, eb);
    assert [] + [ea, eb] == [ea, eb];
    steps := PublishBoth(compiles, [a, b], [], ea, eb, [0, 0], steps);
    c, steps := BothAdd(base, compiles, a, b, ea, eb, steps);
  }

  lemma BothAdd(base: Store, compiles: string -> bool, a: Store, b: Store, ea: BusEvent, eb: BusEvent, rest: seq<Step>)
    returns (c: Cluster, steps: seq<Step>)
    requires Mints(base, compiles, ea) && Mints(base, compiles, eb)
    requires LocalAdd(base, compiles, ea.pattern, ea.tag) == a && LocalAdd(base, compiles, eb.pattern, eb.tag) == b
    requires IsRun(Cluster([a, b], [], [Task(0, ea), Task(1, eb)], [0, 0]), compiles, rest)
    ensures c == Cluster([base, base], [], [], [0, 0]) && IsRun(c, compiles, steps)
    ensures Final(c, compiles, steps) ==
            Final(Cluster([a, b], [], [Task(0, ea), Task(1, eb)], [0, 0]), compiles, rest)
  {
    c := Cluster([base, base], [], [], [0, 0]);
    var c1 := Cluster([a, base], [], [Task(0, ea)], [0, 0]);
    var c2 := Cluster([a, b], [], [Task(0, ea), Task(1, eb)], [0, 0]);
    steps := Prepend(c1, compiles, Add(1, eb.pattern, eb.tag), c2, rest);
    steps := Prepend(c, compiles, Add(0, ea.pattern, ea.tag), c1, steps);
  }

  /** The pending events of two nodes go out, the one of the first node before that of the second. */
  lemma PublishBoth(compiles: string -> bool, nodes: seq<Store>, channel: seq<BusEvent>, ea: BusEvent, eb: BusEvent,
                    cursor: seq<nat>, rest: seq<Step>)
    returns (steps: seq<Step>)
    requires Shaped(Cluster(nodes, channel, [Task(0, ea), Task(1, eb)], cursor))
    requires IsRun(Cluster(nodes, channel + [ea, eb], [], cursor), compiles, rest)
    ensures var c := Cluster(nodes, channel, [Task(0, ea), Task(1, eb)], cursor);
            IsRun(c, compiles, steps)
            && Final(c, compiles, steps) == Final(Cluster(nodes, channel + [ea, eb], [], cursor), compiles, rest)
  {
    var c := Cluster(nodes, channel, [Task(0, ea), Task(1, eb)], cursor);
    var c1 := Cluster(nodes, channel + [ea], [Task(1, eb)], cursor);
    var c2 := Cluster(nodes, channel + [ea, eb], [], cursor);
    assert channel + [ea] + [eb] == channel + [ea, eb];
    steps := Prepend(c1, compiles, Publish(0), c2, rest);
    steps := Prepend(c, compiles, Publish(0), c1, steps);
  }

  /** Each node skips both events, because it has a rule with that id already. */
  lemma EchoesAreSkipped(compiles: string -> bool, a: Store, b: Store, ea: BusEvent, eb: BusEvent)
    returns (steps: seq<Step>)
    requires ea.WafRuleAdded? && eb.WafRuleAdded? && ea.id in Ids(a) * Ids(b) && eb.id == ea.id
    ensures var c := Cluster([a, b], [ea, eb], [], [0, 0]);
            IsRun(c, compiles, steps) && Final(c, compiles, steps) == Cluster([a, b], [ea, eb], [], [2, 2])
  {
    var c := Cluster([a, b], [ea, eb], [], [0, 0]);
    steps := Prepend(c.(cursor := [2, 1]), compiles, Deliver(1), c.(cursor := [2, 2]), []);
    steps := Prepend(c.(cursor := [2, 0]), compiles, Deliver(1), c.(cursor := [2, 1]), steps);
    steps := Prepend(c.(cursor := [1, 0]), compiles, Deliver(0), c.(cursor := [2, 0]), steps);
    steps := Prepend(c, compiles, Deliver(0), c.(cursor := [1, 0]), steps);
  }

  lemma {:induction false} Prepend(c: Cluster, compiles: string -> bool, step: Step, c': Cluster, rest: seq<Step>)
    returns (steps: seq<Step>)
    requires Enabled(c, step) && Next(c, compiles, step) == c' && IsRun(c', compiles, rest)
    ensures IsRun(c, compiles, steps)
    ensures Final(c, compiles, steps) == Final(c', compiles, rest)
    ensures steps == [step] + rest
  {
    steps := [step] + rest;
    assert steps[1..] == rest;
  }
}
