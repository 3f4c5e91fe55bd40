/** The path normaliser in front of the JWT exemption check. */
module PathNormalizer {
  type Segment = string

  // ----- splitting and joining at slashes

  /** `p.split('/')`: never empty; the empty text has one empty segment. */
  function Split(p: string): (segments: seq<Segment>)
    ensures segments != []
  {
    if p == "" then [""]
    else
      var n := |p| - 1;
      var front := Split(p[..n]);
      var last := |front| - 1;
      if p[n] == '/' then front + [""] else front[..last] + [front[last] + [p[n]]]
  }

  function Join(segments: seq<Segment>): string {
    if segments == [] then ""
    else if |segments| == 1 then segments[0]
    else Join(segments[..|segments| - 1]) + "/" + segments[|segments| - 1]
  }

  predicate SlashFree(s: Segment) {
    forall i :: 0 <= i < |s| ==> s[i] != '/'
  }

  // ----- the normaliser

  function Push(stack: seq<Segment>, s: Segment): seq<Segment> {
    if s == "" || s == "." then stack
    else if s == ".." then (if stack == [] then [] else stack[..|stack| - 1])
    else stack + [s]
  }

  function Resolve(segments: seq<Segment>): seq<Segment> {
    if segments == [] then []
    else Push(Resolve(segments[..|segments| - 1]), segments[|segments| - 1])
  }

  predicate Leading(p: string) {
    |p| > 0 && p[0] == '/'
  }

  predicate EndsInSlash(p: string) {
    |p| > 0 && p[|p| - 1] == '/'
  }

  predicate Trailing(p: string) {
    |p| > 1 && EndsInSlash(p)
  }

  function Assemble(leading: bool, stack: seq<Segment>, trailing: bool): string {
    var out := (if leading then "/" else "") + Join(stack);
    if trailing && !EndsInSlash(out) then out + "/" else out
  }

  function Normalize(p: string): string {
    Assemble(Leading(p), Resolve(Split(p)), Trailing(p))
  }

  method NormalizePath(p: string) returns (out: string)
    ensures out == Normalize(p)
  {
    var leadingSlash := |p| > 0 && p[0] == '/';
    var trailingSlash := |p| > 1 && p[|p| - 1] == '/';
    var stack: seq<Segment> := [];
    var segments := Split(p);
    for i := 0 to |segments|
      invariant stack == Resolve(segments[..i])
    {
      var seg := segments[i];
      assert segments[..i + 1][..i] == segments[..i];
      if seg == "" || seg == "." {
        continue;
      } else if seg == ".." {
        if |stack| > 0 {
          stack := stack[..|stack| - 1];
        }
      } else {
        stack := stack + [seg];
      }
    }
    assert segments[..|segments|] == segments;
    out := "";
    if leadingSlash {
      out := out + "/";
    }
    out := out + Join(stack);
    if trailingSlash && !EndsInSlash(out) {
      out := out + "/";
    }
  }

  // ----- what the segments look like

  /** Neither empty, nor a dot segment, nor cut by a slash. */
  predicate Proper(s: Segment) {
    s != "" && s != "." && s != ".." && SlashFree(s)
  }

  ghost predicate AllProper(segments: seq<Segment>) {
    forall i :: 0 <= i < |segments| ==> Proper(segments[i])
  }

  lemma {:induction false} SplitIsSlashFree(p: string)
    ensures forall i :: 0 <= i < |Split(p)| ==> SlashFree(Split(p)[i])
  {
    if p != "" {
      SplitIsSlashFree(p[..|p| - 1]);
    }
  }

  lemma {:induction false} ResolveIsProper(segments: seq<Segment>)
    requires forall i :: 0 <= i < |segments| ==> SlashFree(segments[i])
    ensures AllProper(Resolve(segments))
  {
    if segments != [] {
      ResolveIsProper(segments[..|segments| - 1]);
    }
  }

  lemma {:induction false} SplitSlashFree(s: Segment)
    requires SlashFree(s)
    ensures Split(s) == [s]
  {
    if s != "" {
      var n := |s| - 1;
      SplitSlashFree(s[..n]);
      assert s == s[..n] + [s[n]];
    }
  }

  lemma SplitSnoc(p: string, x: char)
    ensures var front, last := Split(p), |Split(p)| - 1;
            Split(p + [x]) == if x == '/' then front + [""] else front[..last] + [front[last] + [x]]
  {
    assert (p + [x])[..|p|] == p;
  }

  lemma {:induction false} SplitConcat(p: string, s: Segment)
    requires SlashFree(s)
    ensures Split(p + "/" + s) == Split(p) + [s]
  {
    var whole := p + "/" + s;
    var n := |whole| - 1;
    if s == "" {
      assert whole[..n] == p;
    } else {
      var m := |s| - 1;
      assert whole[..n] == p + "/" + s[..m];
      SplitConcat(p, s[..m]);
      assert s == s[..m] + [s[m]];
    }
  }

  /** Splitting undoes joining. */
  lemma {:induction false} SplitJoin(segments: seq<Segment>)
    requires segments != [] && forall i :: 0 <= i < |segments| ==> SlashFree(segments[i])
    ensures Split(Join(segments)) == segments
  {
    var n := |segments| - 1;
    if n == 0 {
      SplitSlashFree(segments[0]);
    } else {
      var front := segments[..n];
      SplitJoin(front);
      SplitConcat(Join(front), segments[n]);
      assert segments == front + [segments[n]];
    }
  }

  lemma {:induction false} JoinSplit(p: string)
    ensures Join(Split(p)) == p
  {
    if p != "" {
      var n := |p| - 1;
      JoinSplit(p[..n]);
      var front := Split(p[..n]);
      var last := |front| - 1;
      assert p == p[..n] + [p[n]];
      if p[n] == '/' {
        assert (front + [""])[..last + 1] == front;
      } else {
        assert Split(p)[..last] == front[..last];
      }
    }
  }

  lemma {:induction false} ResolveProper(segments: seq<Segment>)
    requires AllProper(segments)
    ensures Resolve(segments) == segments
  {
    if segments != [] {
      var n := |segments| - 1;
      ResolveProper(segments[..n]);
      assert segments == segments[..n] + [segments[n]];
    }
  }

  lemma {:induction false} ResolveAfterEmpty(segments: seq<Segment>)
    ensures Resolve([""] + segments) == Resolve(segments)
  {
    if segments == [] {
      assert [""] + segments == [""];
      assert [""][..0] == [];
    } else {
      var n := |segments| - 1;
      assert ([""] + segments)[..n + 1] == [""] + segments[..n];
      ResolveAfterEmpty(segments[..n]);
    }
  }

  // ----- idempotence

  lemma {:induction false} JoinEnds(segments: seq<Segment>)
    requires segments != [] && AllProper(segments)
    ensures Join(segments) != "" && !Leading(Join(segments)) && !EndsInSlash(Join(segments))
  {
    if |segments| > 1 {
      JoinEnds(segments[..|segments| - 1]);
    }
  }

  lemma {:induction false} SplitAfterSlash(p: string)
    ensures Split("/" + p) == [""] + Split(p)
  {
    if p == "" {
      assert "/"[..0] == "";
    } else {
      var n := |p| - 1;
      assert ("/" + p)[..n + 1] == "/" + p[..n];
      SplitAfterSlash(p[..n]);
    }
  }

  /** A path made of proper segments and outer slashes is already normal. */
  lemma NormalFormIsFixed(leading: bool, stack: seq<Segment>, trailing: bool)
    requires AllProper(stack) && (stack == [] ==> !trailing)
    ensures Normalize(Assemble(leading, stack, trailing)) == Assemble(leading, stack, trailing)
  {
    if stack == [] {
      EmptyFormIsFixed(leading);
    } else {
      InnerResolves(stack, trailing);
      Assembled(leading, stack, trailing);
      var inner := Inner(stack, trailing);
      if leading {
        SplitAfterSlash(inner);
        ResolveAfterEmpty(Split(inner));
      }
    }
  }

  lemma Assembled(leading: bool, stack: seq<Segment>, trailing: bool)
    requires stack != [] && AllProper(stack)
    ensures var path := Assemble(leading, stack, trailing);
            && path == (if leading then "/" + Inner(stack, trailing) else Inner(stack, trailing))
            && Leading(path) == leading && Trailing(path) == trailing
  {
    JoinEnds(stack);
  }

  lemma EmptyFormIsFixed(leading: bool)
    ensures Normalize(Assemble(leading, [], false)) == Assemble(leading, [], false)
  {
  }

  function Inner(stack: seq<Segment>, trailing: bool): string {
    if trailing then Join(stack) + "/" else Join(stack)
  }

  lemma SplitInner(stack: seq<Segment>, trailing: bool)
    requires stack != [] && AllProper(stack)
    ensures Split(Inner(stack, trailing)) == if trailing then stack + [""] else stack
  {
    SplitJoin(stack);
    if trailing {
      SplitConcat(Join(stack), "");
      assert Join(stack) + "/" + "" == Inner(stack, trailing);
    }
  }

  lemma InnerResolves(stack: seq<Segment>, trailing: bool)
    requires stack != [] && AllProper(stack)
    ensures Resolve(Split(Inner(stack, trailing))) == stack
  {
    SplitInner(stack, trailing);
    ResolveProper(stack);
    assert (stack + [""])[..|stack|] == stack;
  }

  /** The normal form as one of the shapes that `NormalFormIsFixed` speaks of. */
  lemma NormalShape(p: string) returns (leading: bool, stack: seq<Segment>, trailing: bool)
    ensures AllProper(stack) && (stack == [] ==> !trailing)
    ensures Normalize(p) == Assemble(leading, stack, trailing)
  {
    leading, stack, trailing := Leading(p), Resolve(Split(p)), Trailing(p);
    SplitIsSlashFree(p);
    ResolveIsProper(Split(p));
    if stack == [] && trailing {
      assert Normalize(p) == "/" && Assemble(true, [], false) == "/";
      leading, trailing := true, false;
    }
  }

  /** Normalising twice is normalising once. */
  lemma {:induction false} NormalizeIsIdempotent(p: string)
    ensures Normalize(Normalize(p)) == Normalize(p)
  {
    var leading, stack, trailing := NormalShape(p);
    NormalFormIsFixed(leading, stack, trailing);
  }

  /** Whatever the input, no segment of the result is a dot segment, and only the outer ones can be empty. */
  lemma NoDotSegmentsRemain(p: string)
    ensures var segments := Split(Normalize(p));
            forall i :: 0 <= i < |segments| ==>
              Proper(segments[i]) || (segments[i] == "" && (i == 0 || i == |segments| - 1))
  {
    var leading, stack, trailing := NormalShape(p);
    SplitNormal(leading, stack, trailing);
  }

  lemma SplitNormal(leading: bool, stack: seq<Segment>, trailing: bool)
    requires AllProper(stack) && (stack == [] ==> !trailing)
    ensures Split(Assemble(leading, stack, trailing)) ==
            if stack == [] then (if leading then ["", ""] else [""])
            else (if leading then [""] else []) + stack + (if trailing then [""] else [])
  {
    if stack == [] {
      if leading {
        SplitAfterSlash("");
        assert Assemble(leading, stack, trailing) == "/" + "";
      }
    } else {
      Assembled(leading, stack, trailing);
      SplitInner(stack, trailing);
      SplitAfterSlash(Inner(stack, trailing));
    }
  }

  // ----- length

  function Weight(segments: seq<Segment>): nat {
    if segments == [] then 0 else Weight(segments[..|segments| - 1]) + |segments[|segments| - 1]| + 1
  }

  function Empties(segments: seq<Segment>): nat {
    if segments == [] then 0
    else Empties(segments[..|segments| - 1]) + if segments[|segments| - 1] == "" then 1 else 0
  }

  lemma {:induction false} JoinLength(segments: seq<Segment>)
    requires segments != []
    ensures |Join(segments)| + 1 == Weight(segments)
  {
    if |segments| > 1 {
      JoinLength(segments[..|segments| - 1]);
    }
  }

  lemma {:induction false} ResolveWeighsLess(segments: seq<Segment>)
    ensures Weight(Resolve(segments)) + Empties(segments) <= Weight(segments)
  {
    if segments != [] {
      var n := |segments| - 1;
      var stack := Resolve(segments[..n]);
      ResolveWeighsLess(segments[..n]);
      assert (stack + [segments[n]])[..|stack|] == stack;
    }
  }

  lemma {:induction false} OuterEmpties(segments: seq<Segment>)
    requires segments != []
    ensures segments[0] == "" ==> Empties(segments) >= 1
    ensures segments[|segments| - 1] == "" ==> Empties(segments) >= 1
    ensures |segments| > 1 && segments[0] == "" && segments[|segments| - 1] == "" ==> Empties(segments) >= 2
  {
    if |segments| > 1 {
      OuterEmpties(segments[..|segments| - 1]);
    }
  }

  lemma {:induction false} SplitEnds(p: string)
    ensures Leading(p) ==> Split(p)[0] == "" && |Split(p)| > 1
    ensures EndsInSlash(p) ==> Split(p)[|Split(p)| - 1] == ""
  {
    if p != "" {
      SplitEnds(p[..|p| - 1]);
    }
  }

  lemma NormalizeNeverLengthens(p: string)
    ensures |Normalize(p)| <= |p|
  {
    var segments := Split(p);
    var stack := Resolve(segments);
    SplitEnds(p);
    OuterEmpties(segments);
    ResolveWeighsLess(segments);
    JoinSplit(p);
    JoinLength(segments);
    if stack != [] {
      JoinLength(stack);
    }
  }
}
