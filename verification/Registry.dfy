/** The service registry: prefix normalisation, replacement on registration, longest-prefix routing. */
module Registry {
  import opened Collections

  type Id = nat

  datatype ServiceEntry = ServiceEntry(id: Id, name: string, prefix: string, upstream: string)

  type Services = map<Id, ServiceEntry>

  // ----- the two normalisers

  /** `trim_end_matches('/')`. */
  function TrimEnd(s: string): (r: string)
    ensures r <= s && (r == "" || r[|r| - 1] != '/')
  {
    if s != "" && s[|s| - 1] == '/' then TrimEnd(s[..|s| - 1]) else s
  }

  /** Nothing but slashes is cut off. */
  lemma {:induction false} TrimmedAreSlashes(s: string, i: nat)
    requires |TrimEnd(s)| <= i < |s|
    ensures s[i] == '/'
  {
    if i < |s| - 1 {
      TrimmedAreSlashes(s[..|s| - 1], i);
    }
  }

  predicate Rooted(s: string) {
    s != "" && s[0] == '/'
  }

  /** As `ServiceEntry::new` stores a prefix. */
  function StoredPrefix(prefix: string): string {
    TrimEnd(if Rooted(prefix) then prefix else "/" + prefix)
  }

  /** As `find_by_prefix` looks for one. */
  function SoughtPrefix(prefix: string): string {
    if Rooted(prefix) then TrimEnd(prefix) else "/" + TrimEnd(prefix)
  }

  lemma {:induction false} TrimAfterRoot(s: string)
    requires s != "" && s[0] != '/'
    ensures TrimEnd(s) != "" && TrimEnd("/" + s) == "/" + TrimEnd(s)
  {
    var n := |s| - 1;
    if s[n] == '/' {
      assert ("/" + s)[..n + 1] == "/" + s[..n];
      TrimAfterRoot(s[..n]);
    }
  }

  /** The two normalisers agree on every prefix but the empty one, which is stored as "" and sought as "/". */
  lemma NormalisersAgreeIff(prefix: string)
    ensures StoredPrefix(prefix) == SoughtPrefix(prefix) <==> prefix != ""
    ensures StoredPrefix(prefix) == "" || (Rooted(StoredPrefix(prefix)) && StoredPrefix(prefix) != "/")
  {
    if prefix != "" && prefix[0] != '/' {
      TrimAfterRoot(prefix);
    }
  }

  // ----- the operations

  /** `find_by_prefix` returns some entry with the prefix, in whatever order the table is iterated. */
  ghost predicate IsFound(s: Services, prefix: string, found: Option<Id>) {
    match found
    case Some(id) => id in s && s[id].prefix == SoughtPrefix(prefix)
    case None => forall id :: id in s ==> s[id].prefix != SoughtPrefix(prefix)
  }

  function NewEntry(id: Id, name: string, prefix: string, upstream: string): ServiceEntry {
    ServiceEntry(id, name, StoredPrefix(prefix), TrimEnd(upstream))
  }

  function Replaced(s: Services, entry: ServiceEntry, existing: Option<Id>): Services {
    (if existing.Some? then s - {existing.value} else s)[entry.id := entry]
  }

  function LoadedOne(s: Services, entry: ServiceEntry, existing: Option<Id>): Services {
    if existing.Some? then s else s[entry.id := entry]
  }

  /** The path is the prefix or continues it at a segment boundary. */
  predicate Matches(path: string, prefix: string) {
    path == prefix || prefix + "/" <= path
  }

  predicate Candidate(s: Services, path: string, id: Id) {
    id in s && s[id].prefix != "" && Matches(path, s[id].prefix)
  }

  /** A longest non-empty matching prefix; none exactly if no non-empty prefix matches. */
  ghost predicate IsBest(s: Services, path: string, best: Option<ServiceEntry>) {
    match best
    case Some(e) =>
      && (exists id :: Candidate(s, path, id) && s[id] == e)
      && forall id :: Candidate(s, path, id) ==> |s[id].prefix| <= |e.prefix|
    case None => forall id :: id in s ==> !Candidate(s, path, id)
  }

  class ServiceRegistry {
    var services: Services

    constructor ()
      ensures services == map[]
    {
      services := map[];
    }

    method FindByPrefix(prefix: string) returns (found: Option<Id>)
      ensures IsFound(services, prefix, found)
    {
      var normalized := SoughtPrefix(prefix);
      var left := services.Keys;
      while left != {}
        invariant left <= services.Keys
        invariant forall id :: id in services.Keys - left ==> services[id].prefix != normalized
        decreases left
      {
        var id :| id in left;
        if services[id].prefix == normalized {
          return Some(id);
        }
        left := left - {id};
      }
      found := None;
    }

    method Register(id: Id, name: string, prefix: string, upstream: string)
      returns (entry: ServiceEntry, existing: Option<Id>)
      modifies this
      ensures entry == NewEntry(id, name, prefix, upstream)
      ensures IsFound(old(services), prefix, existing)
      ensures services == Replaced(old(services), entry, existing)
    {
      existing := FindByPrefix(prefix);
      if existing.Some? {
        services := services - {existing.value};
      }
      entry := NewEntry(id, name, prefix, upstream);
      services := services[id := entry];
    }

    /** One service of the configuration: skipped if its prefix is taken. */
    method LoadOne(id: Id, name: string, prefix: string, upstream: string) returns (existing: Option<Id>)
      modifies this
      ensures IsFound(old(services), prefix, existing)
      ensures services == LoadedOne(old(services), NewEntry(id, name, prefix, upstream), existing)
    {
      existing := FindByPrefix(prefix);
      if existing == None {
        services := services[id := NewEntry(id, name, prefix, upstream)];
      }
    }

    method Unregister(id: Id) returns (removed: Option<ServiceEntry>)
      modifies this
      ensures services == old(services) - {id}
      ensures removed == if id in old(services) then Some(old(services)[id]) else None
    {
      removed := if id in services then Some(services[id]) else None;
      services := services - {id};
    }

    method Lookup(path: string) returns (best: Option<ServiceEntry>)
      ensures IsBest(services, path, best)
    {
      best := None;
      var bestLen := 0;
      var left := services.Keys;
      while left != {}
        invariant left <= services.Keys
        invariant best == None ==> bestLen == 0
        invariant best.Some? ==> bestLen == |best.value.prefix| > 0 &&
                                 exists id :: Candidate(services, path, id) && services[id] == best.value
        invariant forall id :: id in services.Keys - left && Candidate(services, path, id) ==>
                    |services[id].prefix| <= bestLen
        decreases left
      {
        var id :| id in left;
        var prefix := services[id].prefix;
        if (path == prefix || prefix + "/" <= path) && |prefix| > bestLen {
          assert Candidate(services, path, id);
          bestLen := |prefix|;
          best := Some(services[id]);
        }
        left := left - {id};
      }
      if best == None {
        forall id | id in services ensures !Candidate(services, path, id) {
          assert id in services.Keys - left;
        }
      }
    }
  }

  // ----- runs

  ghost predicate IsNormal(prefix: string) {
    prefix == "" || (Rooted(prefix) && TrimEnd(prefix) == prefix)
  }

  /** Stored prefixes are normalised, and unique unless empty. */
  ghost predicate Inv(s: Services) {
    && (forall id :: id in s ==> s[id].id == id && IsNormal(s[id].prefix))
    && forall id, id' :: id in s && id' in s && s[id].prefix == s[id'].prefix != "" ==> id == id'
  }

  datatype Op =
    | Register(id: Id, name: string, prefix: string, upstream: string, existing: Option<Id>)
    | Load(id: Id, name: string, prefix: string, upstream: string, existing: Option<Id>)
    | Unregister(id: Id)

  function Step(s: Services, op: Op): Services {
    match op
    case Register(id, name, prefix, upstream, existing) => Replaced(s, NewEntry(id, name, prefix, upstream), existing)
    case Load(id, name, prefix, upstream, existing) => LoadedOne(s, NewEntry(id, name, prefix, upstream), existing)
    case Unregister(id) => s - {id}
  }

  /** New ids are fresh; what a registration finds depends on the iteration order. */
  ghost predicate Admissible(s: Services, op: Op) {
    op.Unregister? || (op.id !in s && IsFound(s, op.prefix, op.existing))
  }

  ghost predicate IsRun(s: Services, ops: seq<Op>)
    decreases |ops|
  {
    ops == [] || (Admissible(s, ops[0]) && IsRun(Step(s, ops[0]), ops[1..]))
  }

  function Final(s: Services, ops: seq<Op>): Services
    decreases |ops|
  {
    if ops == [] then s else Final(Step(s, ops[0]), ops[1..])
  }

  lemma StoredIsTrimmed(prefix: string)
    ensures TrimEnd(StoredPrefix(prefix)) == StoredPrefix(prefix)
  {
  }

  lemma {:induction false} StepKeepsInv(s: Services, op: Op)
    requires Inv(s) && Admissible(s, op)
    ensures Inv(Step(s, op))
  {
    if !op.Unregister? {
      NewPrefixIsFree(s, op, StoredPrefix(op.prefix));
      EntryKeepsInv(s, NewEntry(op.id, op.name, op.prefix, op.upstream), op.existing);
    }
  }

  lemma EntryKeepsInv(s: Services, entry: ServiceEntry, existing: Option<Id>)
    requires Inv(s) && entry.id !in s && IsNormal(entry.prefix)
    requires entry.prefix != "" ==>
               if existing.Some? then existing.value in s && s[existing.value].prefix == entry.prefix
               else forall id :: id in s ==> s[id].prefix != entry.prefix
    ensures Inv(Replaced(s, entry, existing)) && Inv(LoadedOne(s, entry, existing))
  {
  }

  /** What an operation adds is normalised, and unless empty its prefix is free by then. */
  lemma NewPrefixIsFree(s: Services, op: Op, prefix: string)
    requires !op.Unregister? && Admissible(s, op) && prefix == StoredPrefix(op.prefix)
    ensures IsNormal(prefix)
    ensures prefix != "" ==> IsFound(s, op.prefix, op.existing) && SoughtPrefix(op.prefix) == prefix
  {
    NormalisersAgreeIff(op.prefix);
    StoredIsTrimmed(op.prefix);
  }

  lemma {:induction false} RunKeepsInv(s: Services, ops: seq<Op>)
    requires Inv(s) && IsRun(s, ops)
    ensures Inv(Final(s, ops))
    decreases |ops|
  {
    if ops != [] {
      StepKeepsInv(s, ops[0]);
      RunKeepsInv(Step(s, ops[0]), ops[1..]);
    }
  }

  /**
   Routing is determined: after any registrations and removals, empty prefixes included, every iteration
   order of the table gives the same answer for a path, the entry with the longest matching prefix.
   */
  lemma LookupIsDetermined(ops: seq<Op>, path: string, best: Option<ServiceEntry>, best': Option<ServiceEntry>)
    requires IsRun(map[], ops)
    requires IsBest(Final(map[], ops), path, best) && IsBest(Final(map[], ops), path, best')
    ensures best == best'
  {
    RunKeepsInv(map[], ops);
    var s := Final(map[], ops);
    if best.Some? && best'.Some? {
      var id :| Candidate(s, path, id) && s[id] == best.value;
      var id' :| Candidate(s, path, id') && s[id'] == best'.value;
      SamePrefix(path, s[id].prefix, s[id'].prefix);
    }
  }

  lemma SamePrefix(path: string, a: string, b: string)
    requires Matches(path, a) && Matches(path, b) && |a| == |b|
    ensures a == b
  {
    assert a <= path && b <= path;
    assert a == path[..|a|] && b == path[..|b|];
  }

  /** A service just registered is what a lookup of its prefix finds, if and only if that is not the root. */
  lemma {:induction false} RegisteredIsFound(ops: seq<Op>, op: Op, best: Option<ServiceEntry>)
    requires IsRun(map[], ops) && op.Register? && Admissible(Final(map[], ops), op)
    requires IsBest(Step(Final(map[], ops), op), StoredPrefix(op.prefix), best)
    ensures best == Some(NewEntry(op.id, op.name, op.prefix, op.upstream)) <==> StoredPrefix(op.prefix) != ""
    ensures StoredPrefix(op.prefix) == "" ==> best == None
  {
    RunKeepsInv(map[], ops);
    StepKeepsInv(Final(map[], ops), op);
    var s := Step(Final(map[], ops), op);
    var path := StoredPrefix(op.prefix);
    if path != "" {
      assert Candidate(s, path, op.id);
      var id :| Candidate(s, path, id) && Some(s[id]) == best;
      assert |s[id].prefix| == |path|;
      SamePrefix(path, s[id].prefix, path);
    }
  }

  /** The empty prefix is the exception: registering it twice keeps both entries. */
  lemma {:induction false} EmptyPrefixIsNotReplaced(s: Services, op: Op)
    requires Inv(s) && op.Register? && Admissible(s, op) && op.prefix == ""
    ensures op.existing == None && (forall id :: id in s ==> id in Step(s, op) && Step(s, op)[id] == s[id])
    ensures Step(s, op)[op.id].prefix == ""
  {
  }
}
