/** The bus subscriber of a node: hands every event to its handlers, one after the other. */
module Dispatcher {
  import opened Bus
  import opened Collections
  import SessionBus
  import Sessions
  import Waf

  /** The two implementations of the handler interface. */
  datatype Handler = OfSessions(manager: Sessions.SessionManager) | OfRules(waf: Waf.Waf)

  function ObjectOf(h: Handler): object {
    match h
    case OfSessions(manager) => manager
    case OfRules(waf) => waf
  }

  class EventDispatcher {
    const handlers: seq<Handler>

    constructor (handlers: seq<Handler>)
      ensures this.handlers == handlers
    {
      this.handlers := handlers;
    }

    /** The list may name a handler more than once: handling an event twice is handling it once. */
    method Dispatch(event: BusEvent)
      modifies set h | h in handlers :: ObjectOf(h)
      ensures forall h :: h in handlers && h.OfSessions? ==>
                h.manager.Contents() == Sessions.Handled(old(h.manager.Contents()), event)
      ensures forall h :: h in handlers && h.OfRules? ==>
                h.waf.Contents() == Waf.Handled(old(h.waf.Contents()), h.waf.compiles, event)
    {
      for i := 0 to |handlers|
        invariant forall h :: h in handlers && h.OfSessions? ==>
                    h.manager.Contents() ==
                    if h in handlers[..i] then Sessions.Handled(old(h.manager.Contents()), event)
                    else old(h.manager.Contents())
        invariant forall h :: h in handlers && h.OfRules? ==>
                    h.waf.Contents() ==
                    if h in handlers[..i] then Waf.Handled(old(h.waf.Contents()), h.waf.compiles, event)
                    else old(h.waf.Contents())
      {
        assert handlers[..i + 1] == handlers[..i] + [handlers[i]];
        assert ObjectOf(handlers[i]) in set h | h in handlers :: ObjectOf(h);
        match handlers[i]
        case OfSessions(manager) =>
          SessionBus.AppliesAreIdempotent(old(manager.Contents()), event);
          manager.Handle(event);
        case OfRules(waf) =>
          ApplyingTwice(old(waf.Contents()), waf.compiles, event);
          waf.Handle(event);
      }
      assert handlers[..|handlers|] == handlers;
    }
  }

  /** The rule store takes its own echo, or any repeated event, without effect. */
  lemma {:induction false} ApplyingTwice(s: Waf.Store, compiles: string -> bool, event: BusEvent)
    ensures Waf.Handled(Waf.Handled(s, compiles, event), compiles, event) == Waf.Handled(s, compiles, event)
  {
    match event
    case WafRuleAdded(id, pattern, tag) =>
      if compiles(pattern) {
        Waf.AddPutsExactly(s, compiles, id, pattern, tag);
      }
    case WafRuleRemoved(id) =>
      Waf.RemoveTakesExactly(s, id);
      Waf.WithoutAbsent(Waf.ApplyRemove(s, id).rules, id);
    case _ =>
  }

  /** Every event concerns one of the two handlers only; the other ignores it. */
  lemma EventsConcernOneHandler(s: Sessions.State, w: Waf.Store, compiles: string -> bool, event: BusEvent)
    ensures Sessions.Handled(s, event) == s || Waf.Handled(w, compiles, event) == w
  {
  }
}
