/** The custom-rule store of one WAF node. */
module Waf {
  import opened Bus
  import opened Collections

  datatype Rule = Rule(id: nat, pattern: string, tag: string)

  /** `rules` is `custom_patterns`, `next` is `next_rule_id`. */
  datatype Store = Store(rules: seq<Rule>, next: nat)

  function Ids(s: Store): set<nat> {
    set r | r in s.rules :: r.id
  }

  /** The id -> (pattern, label) table that a store holds. */
  function Table(s: Store): set<Rule> {
    set r | r in s.rules
  }

  function NormalTag(tag: string): string {
    if tag == "" then "CUSTOM" else tag
  }

  ghost predicate UniqueIds(rules: seq<Rule>) {
    forall i, j :: 0 <= i < j < |rules| ==> rules[i].id != rules[j].id
  }

  /** Ids are unique and smaller than the counter. */
  ghost predicate WellFormed(s: Store) {
    && UniqueIds(s.rules)
    && (forall r :: r in s.rules ==> r.id < s.next)
  }

  /** `apply_add_pattern_with_id`; `compiles` stands for `Regex::new(..).is_ok()`. */
  function ApplyAdd(s: Store, compiles: string -> bool, id: nat, pattern: string, tag: string): Store {
    if !compiles(pattern) || id in Ids(s) then s
    else Store(s.rules + [Rule(id, pattern, NormalTag(tag))],
               if id >= s.next then id + 1 else s.next)
  }

  function RulesWithout(rules: seq<Rule>, id: nat): seq<Rule> {
    Keeping(rules, set r | r in rules && r.id != id)
  }

  function ApplyRemove(s: Store, id: nat): Store {
    s.(rules := RulesWithout(s.rules, id))
  }

  /** `add_custom_pattern`: the counter moves before the pattern is compiled. */
  function LocalAdd(s: Store, compiles: string -> bool, pattern: string, tag: string): Store {
    ApplyAdd(s.(next := s.next + 1), compiles, s.next, pattern, tag)
  }

  /** The WAF half of the bus subscriber. */
  function Handled(s: Store, compiles: string -> bool, event: BusEvent): Store {
    match event
    case WafRuleAdded(id, pattern, tag) => ApplyAdd(s, compiles, id, pattern, tag)
    case WafRuleRemoved(id) => ApplyRemove(s, id)
    case _ => s
  }

  class Waf {
    var customPatterns: seq<Rule>
    var nextRuleId: nat
    const compiles: string -> bool

    function Contents(): Store
      reads this
    {
      Store(customPatterns, nextRuleId)
    }

    constructor (compiles: string -> bool)
      ensures Contents() == Store([], 1) && this.compiles == compiles
    {
      this.compiles := compiles;
      customPatterns, nextRuleId := [], 1;
    }

    method ApplyAddPatternWithId(id: nat, pattern: string, tag: string) returns (r: Result<()>)
      modifies this
      ensures Contents() == ApplyAdd(old(Contents()), compiles, id, pattern, tag)
      ensures r.Ok? <==> compiles(pattern)
    {
      if !compiles(pattern) {
        return Err("invalid regex");
      }
      if id in Ids(Contents()) {
        return Ok(());
      }
      customPatterns := customPatterns + [Rule(id, pattern, NormalTag(tag))];
      var cur := nextRuleId;
      if id >= cur {
        nextRuleId := id + 1;
      }
      return Ok(());
    }

    /** The event is what the spawned publish task will send. */
    method AddCustomPattern(pattern: string, tag: string)
      returns (r: Result<nat>, event: Option<BusEvent>)
      modifies this
      ensures Contents() == LocalAdd(old(Contents()), compiles, pattern, tag)
      ensures r.Ok? <==> compiles(pattern)
      ensures r.Ok? ==> r.value == old(nextRuleId) && event == Some(WafRuleAdded(r.value, pattern, tag))
      ensures r.Err? ==> event == None
    {
      var id := nextRuleId;
      nextRuleId := nextRuleId + 1;
      var applied := ApplyAddPatternWithId(id, pattern, tag);
      match applied
      case Err(e) => return Err(e), None;
      case Ok(_) => return Ok(id), Some(WafRuleAdded(id, pattern, tag));
    }

    method ApplyRemovePattern(id: nat) returns (removed: bool)
      modifies this
      ensures Contents() == ApplyRemove(old(Contents()), id)
      ensures removed <==> id in Ids(old(Contents()))
    {
      var len := |customPatterns|;
      RemovalShrinks(Contents(), id);
      customPatterns := RulesWithout(customPatterns, id);
      return |customPatterns| < len;
    }

    method RemoveCustomPattern(id: nat) returns (removed: bool, event: Option<BusEvent>)
      modifies this
      ensures Contents() == ApplyRemove(old(Contents()), id)
      ensures removed <==> id in Ids(old(Contents()))
      ensures event == if removed then Some(WafRuleRemoved(id)) else None
    {
      removed := ApplyRemovePattern(id);
      event := if removed then Some(WafRuleRemoved(id)) else None;
    }

    method Handle(event: BusEvent)
      modifies this
      ensures Contents() == Handled(old(Contents()), compiles, event)
    {
      match event
      case WafRuleAdded(id, pattern, tag) => var _ := ApplyAddPatternWithId(id, pattern, tag);
      case WafRuleRemoved(id) => var _ := ApplyRemovePattern(id);
      case _ =>
    }
  }

  /** A removal takes out every rule with that id and no other. */
  lemma {:induction false} RemoveTakesExactly(s: Store, id: nat)
    ensures Table(ApplyRemove(s, id)) == set r | r in s.rules && r.id != id
    ensures Ids(ApplyRemove(s, id)) == Ids(s) - {id}
  {
  }

  lemma {:induction false} AddPutsExactly(s: Store, compiles: string -> bool, id: nat, pattern: string, tag: string)
    requires compiles(pattern)
    ensures Ids(ApplyAdd(s, compiles, id, pattern, tag)) == Ids(s) + {id}
    ensures id !in Ids(s) ==>
              Table(ApplyAdd(s, compiles, id, pattern, tag)) ==
              Table(s) + {Rule(id, pattern, if tag == "" then "CUSTOM" else tag)}
    ensures id in Ids(s) ==> Table(ApplyAdd(s, compiles, id, pattern, tag)) == Table(s)
    ensures WellFormed(s) ==>
              ApplyAdd(s, compiles, id, pattern, tag).next == if id < s.next then s.next else id + 1
  {
  }

  lemma {:induction false} WithoutAbsent(rules: seq<Rule>, id: nat)
    requires forall r :: r in rules ==> r.id != id
    ensures RulesWithout(rules, id) == rules
  {
    KeepingAll(rules, set r | r in rules && r.id != id);
  }

  lemma {:induction false} KeepingShrinks(rules: seq<Rule>, keep: set<Rule>)
    requires exists r :: r in rules && r !in keep
    ensures |Keeping(rules, keep)| < |rules|
  {
    var n := |rules| - 1;
    assert rules == rules[..n] + [rules[n]];
    if rules[n] in keep {
      KeepingShrinks(rules[..n], keep);
    }
  }

  lemma RemovalShrinks(s: Store, id: nat)
    ensures |RulesWithout(s.rules, id)| < |s.rules| <==> id in Ids(s)
  {
    if id in Ids(s) {
      KeepingShrinks(s.rules, set r | r in s.rules && r.id != id);
    } else {
      WithoutAbsent(s.rules, id);
    }
  }

  lemma {:induction false} KeepingUniqueIds(rules: seq<Rule>, keep: set<Rule>)
    requires UniqueIds(rules)
    ensures UniqueIds(Keeping(rules, keep))
  {
    if rules != [] {
      var n := |rules| - 1;
      var front := Keeping(rules[..n], keep);
      KeepingUniqueIds(rules[..n], keep);
      forall i | 0 <= i < |front| ensures front[i].id != rules[n].id {
        assert front[i] in front;
        assert front[i] in rules[..n];
      }
    }
  }

  lemma ApplyAddKeepsWellFormed(s: Store, compiles: string -> bool, id: nat, pattern: string, tag: string)
    requires WellFormed(s)
    ensures WellFormed(ApplyAdd(s, compiles, id, pattern, tag))
    ensures s.next <= ApplyAdd(s, compiles, id, pattern, tag).next
  {
  }

  lemma ApplyRemoveKeepsWellFormed(s: Store, id: nat)
    requires WellFormed(s)
    ensures WellFormed(ApplyRemove(s, id))
  {
    KeepingUniqueIds(s.rules, set r | r in s.rules && r.id != id);
  }

  /** Every operation and every delivered event keeps ids unique and below the counter. */
  lemma StoreStaysWellFormed(s: Store, compiles: string -> bool, pattern: string, tag: string, event: BusEvent)
    requires WellFormed(s)
    ensures WellFormed(LocalAdd(s, compiles, pattern, tag))
    ensures WellFormed(Handled(s, compiles, event))
    ensures s.next < LocalAdd(s, compiles, pattern, tag).next
    ensures s.next <= Handled(s, compiles, event).next
  {
    ApplyAddKeepsWellFormed(s.(next := s.next + 1), compiles, s.next, pattern, tag);
    match event
    case WafRuleAdded(id, p, t) => ApplyAddKeepsWellFormed(s, compiles, id, p, t);
    case WafRuleRemoved(id) => ApplyRemoveKeepsWellFormed(s, id);
    case _ =>
  }
}
