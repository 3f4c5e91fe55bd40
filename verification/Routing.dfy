/** What the registry routes where, in terms of the segments of paths and prefixes. */
module Routing {
  import opened Collections
  import opened PathNormalizer
  import Reg = Registry

  lemma {:induction false} JoinAppend(a: seq<Segment>, b: seq<Segment>)
    requires a != [] && b != []
    ensures Join(a + b) == Join(a) + "/" + Join(b)
  {
    var n := |b| - 1;
    assert (a + b)[..|a| + n] == a + b[..n];
    if n == 0 {
      assert a + b[..n] == a;
    } else {
      JoinAppend(a, b[..n]);
    }
  }

  /** A longer path has the prefix's segments first. */
  lemma SplitAppend(p: string, rest: string)
    ensures Split(p + "/" + rest) == Split(p) + Split(rest)
  {
    var a, b := Split(p), Split(rest);
    SplitIsSlashFree(p);
    SplitIsSlashFree(rest);
    JoinSplit(p);
    JoinSplit(rest);
    JoinAppend(a, b);
    SplitJoin(a + b);
  }

  /** A path is routed to a prefix exactly if the prefix's segments are the first ones of the path. */
  lemma MatchesIffSegments(path: string, prefix: string)
    ensures Reg.Matches(path, prefix) <==> Split(prefix) <= Split(path)
  {
    if Reg.Matches(path, prefix) && path != prefix {
      BelowPrefix(path, prefix);
    }
    if Split(prefix) <= Split(path) {
      JoinSplit(prefix);
      JoinSplit(path);
      LongerPath(Split(prefix), Split(path));
    }
  }

  lemma BelowPrefix(path: string, prefix: string)
    requires prefix + "/" <= path
    ensures Split(prefix) <= Split(path)
  {
    var rest := path[|prefix| + 1..];
    assert path == prefix + "/" + rest;
    SplitAppend(prefix, rest);
  }

  lemma LongerPath(front: seq<Segment>, all: seq<Segment>)
    requires front != [] && front <= all
    ensures Join(all) == Join(front) || Join(front) + "/" <= Join(all)
  {
    var rest := all[|front|..];
    assert all == front + rest;
    if rest == [] {
      assert all == front;
    } else {
      JoinAppend(front, rest);
    }
  }

  /** The prefix is not empty, and its segments come first in the path. */
  ghost predicate IsUnder(path: string, prefix: string) {
    prefix != "" && Split(prefix) <= Split(path)
  }

  /**
   What `lookup` returns: an entry of the table that the path is under, with the most characters; none if and only if
   the path is under no entry.
   */
  lemma LookupIs(s: Reg.Services, path: string, best: Option<Reg.ServiceEntry>)
    ensures Reg.IsBest(s, path, best) <==>
            match best
            case Some(e) =>
              && (exists id :: id in s && s[id] == e) && IsUnder(path, e.prefix)
              && NoneLonger(s, path, |e.prefix|)
            case None => forall id :: id in s ==> !IsUnder(path, s[id].prefix)
  {
    forall id | id in s ensures Reg.Candidate(s, path, id) <==> IsUnder(path, s[id].prefix) {
      MatchesIffSegments(path, s[id].prefix);
    }
    if best.Some? {
      MatchesIffSegments(path, best.value.prefix);
    }
  }

  /** Every prefix in the table that the path is under has at most `n` characters. */
  ghost predicate NoneLonger(s: Reg.Services, path: string, n: nat) {
    forall id :: id in s && IsUnder(path, s[id].prefix) ==> |s[id].prefix| <= n
  }

  /** The operation puts a new service into the table: a registration, or a configured service with a free prefix. */
  ghost predicate Adds(op: Reg.Op) {
    op.Register? || (op.Load? && op.existing == None)
  }

  /**
   After any run, a service just added answers a path if and only if the path is under its prefix and under no longer
   one in the table.
   */
  lemma AddedAnswers(ops: seq<Reg.Op>, op: Reg.Op, path: string, best: Option<Reg.ServiceEntry>)
    requires Reg.IsRun(map[], ops) && Adds(op) && Reg.Admissible(Reg.Final(map[], ops), op)
    requires Reg.IsBest(Reg.Step(Reg.Final(map[], ops), op), path, best)
    ensures var before, prefix := Reg.Final(map[], ops), Reg.StoredPrefix(op.prefix);
            best == Some(Reg.ServiceEntry(op.id, op.name, prefix, Reg.TrimEnd(op.upstream))) <==>
            IsUnder(path, prefix) && NoneLonger(before, path, |prefix|)
  {
    Reg.RunKeepsInv(map[], ops);
    var before := Reg.Final(map[], ops);
    Reg.StepKeepsInv(before, op);
    TableAfter(before, op, Reg.StoredPrefix(op.prefix));
    NewIsBestIff(before, Reg.Step(before, op), op.id, path, best);
  }

  /** The table before an addition and the one after it differ by the new entry and one with the same prefix. */
  ghost predicate Extends(before: Reg.Services, s: Reg.Services, id: Reg.Id) {
    && id in s && id !in before
    && (forall x :: x in s && x != id ==> x in before && s[x] == before[x])
    && forall x :: x in before ==> x in s || before[x].prefix == s[id].prefix || s[id].prefix == ""
  }

  lemma TableAfter(before: Reg.Services, op: Reg.Op, prefix: string)
    requires Adds(op) && Reg.Admissible(before, op) && prefix == Reg.StoredPrefix(op.prefix)
    ensures var s := Reg.Step(before, op);
            Extends(before, s, op.id)
            && s[op.id] == Reg.ServiceEntry(op.id, op.name, prefix, Reg.TrimEnd(op.upstream))
  {
    Reg.NormalisersAgreeIff(op.prefix);
  }

  lemma NewIsBestIff(before: Reg.Services, s: Reg.Services, id: Reg.Id, path: string, best: Option<Reg.ServiceEntry>)
    requires Reg.Inv(s) && Extends(before, s, id) && Reg.IsBest(s, path, best)
    ensures best == Some(s[id]) <==>
            IsUnder(path, s[id].prefix) && NoneLonger(before, path, |s[id].prefix|)
  {
    LookupIs(s, path, best);
    if IsUnder(path, s[id].prefix) && NoneLonger(before, path, |s[id].prefix|) {
      assert best.Some?;
      var x :| x in s && s[x] == best.value;
      SameLength(path, s[x].prefix, s[id].prefix);
    }
  }

  lemma SameLength(path: string, a: string, b: string)
    requires IsUnder(path, a) && IsUnder(path, b) && |a| == |b|
    ensures a == b
  {
    MatchesIffSegments(path, a);
    MatchesIffSegments(path, b);
    Reg.SamePrefix(path, a, b);
  }

  // ----- how long an entry stays

  /** The operation takes a service with this id and prefix out of the table. */
  ghost predicate Displaces(op: Reg.Op, id: Reg.Id, prefix: string) {
    (op.Unregister? && op.id == id) || (op.Register? && Reg.StoredPrefix(op.prefix) == prefix)
  }

  /** One operation: the entry goes if it is displaced, and nothing else touches it. */
  lemma EntryAfterStep(s: Reg.Services, op: Reg.Op, id: Reg.Id)
    requires Reg.Inv(s) && Reg.Admissible(s, op) && id in s && s[id].prefix != ""
    ensures id in Reg.Step(s, op) <==> !Displaces(op, id, s[id].prefix)
    ensures id in Reg.Step(s, op) ==> Reg.Step(s, op)[id] == s[id]
  {
    if !op.Unregister? {
      Reg.NormalisersAgreeIff(op.prefix);
      assert op.prefix == "" ==> Reg.SoughtPrefix(op.prefix) == "/" && Reg.TrimEnd("/") == "";
    }
  }

  /**
   A service with a prefix other than the root stays in the table, unchanged, until it is unregistered or another one
   is registered under the same prefix; configured services never displace one.
   */
  lemma {:induction false} EntryStaysIff(s: Reg.Services, ops: seq<Reg.Op>, id: Reg.Id)
    requires Reg.Inv(s) && Reg.IsRun(s, ops) && id in s && s[id].prefix != ""
    requires forall i :: 0 <= i < |ops| && !ops[i].Unregister? ==> ops[i].id != id
    ensures id in Reg.Final(s, ops) <==> forall i :: 0 <= i < |ops| ==> !Displaces(ops[i], id, s[id].prefix)
    ensures id in Reg.Final(s, ops) ==> Reg.Final(s, ops)[id] == s[id]
    decreases |ops|
  {
    if ops != [] {
      var s', rest := Reg.Step(s, ops[0]), ops[1..];
      EntryAfterStep(s, ops[0], id);
      Reg.StepKeepsInv(s, ops[0]);
      assert forall i :: 0 <= i < |rest| ==> rest[i] == ops[i + 1];
      if id in s' {
        EntryStaysIff(s', rest, id);
        assert forall i :: 0 < i < |ops| ==> ops[i] == rest[i - 1];
      } else {
        StaysOut(s', rest, id);
      }
    }
  }

  lemma {:induction false} StaysOut(s: Reg.Services, ops: seq<Reg.Op>, id: Reg.Id)
    requires Reg.IsRun(s, ops) && id !in s
    requires forall i :: 0 <= i < |ops| && !ops[i].Unregister? ==> ops[i].id != id
    ensures id !in Reg.Final(s, ops)
    decreases |ops|
  {
    if ops != [] {
      var rest := ops[1..];
      assert forall i :: 0 <= i < |rest| ==> rest[i] == ops[i + 1];
      StaysOut(Reg.Step(s, ops[0]), rest, id);
    }
  }
}
