/** `remove_dot_segments`, section 5.2.4 of RFC 3986, and how the path normaliser relates to it. */
module Rfc3986 {
  import opened PathNormalizer

  predicate StartsWith(s: string, prefix: string) {
    prefix <= s
  }

  /** The place of the first slash at or after `from`, or the end. */
  function NextSlash(s: string, from: nat): (at: nat)
    requires from <= |s|
    ensures from <= at <= |s|
    decreases |s| - from
  {
    if from == |s| || s[from] == '/' then from else NextSlash(s, from + 1)
  }

  /** Removes the last segment and the slash before it, if any. */
  function DropLast(output: string): string {
    if output == "" then ""
    else
      var n := |output| - 1;
      if output[n] == '/' then output[..n] else DropLast(output[..n])
  }

  /** The loop of the standard, steps A to E in order, over the input and the output buffer. */
  function RemoveDotSegments(input: string, output: string): string
    decreases |input|
  {
    if input == "" then output
    else if StartsWith(input, "../") then RemoveDotSegments(input[3..], output)
    else if StartsWith(input, "./") then RemoveDotSegments(input[2..], output)
    else if StartsWith(input, "/./") then RemoveDotSegments(input[2..], output)
    else if input == "/." then RemoveDotSegments("/", output)
    else if StartsWith(input, "/../") then RemoveDotSegments(input[3..], DropLast(output))
    else if input == "/.." then RemoveDotSegments("/", DropLast(output))
    else if input == "." || input == ".." then output
    else
      var k := NextSlash(input, 1);
      RemoveDotSegments(input[k..], output + input[..k])
  }

  // ----- absolute paths as segments

  /** A slash before every segment. */
  function Absolute(segments: seq<Segment>): string {
    if segments == [] then "" else Absolute(segments[..|segments| - 1]) + "/" + segments[|segments| - 1]
  }

  lemma {:induction false} AbsoluteCons(s: Segment, rest: seq<Segment>)
    ensures Absolute([s] + rest) == "/" + s + Absolute(rest)
  {
    if rest == [] {
      assert [s] + rest == [s] && [s][..0] == [];
    } else {
      var n := |rest| - 1;
      assert ([s] + rest)[..n + 1] == [s] + rest[..n];
      AbsoluteCons(s, rest[..n]);
    }
  }

  lemma {:induction false} AbsoluteIsJoin(segments: seq<Segment>)
    requires segments != []
    ensures Absolute(segments) == "/" + Join(segments)
  {
    if |segments| > 1 {
      AbsoluteIsJoin(segments[..|segments| - 1]);
    } else {
      assert segments[..0] == [];
    }
  }

  lemma {:induction false} AbsoluteStarts(segments: seq<Segment>)
    ensures segments != [] ==> Absolute(segments) != "" && Absolute(segments)[0] == '/'
  {
    if |segments| > 1 {
      AbsoluteStarts(segments[..|segments| - 1]);
    }
  }

  lemma {:induction false} NextSlashSkips(s: Segment, tail: string, from: nat)
    requires SlashFree(s) && 1 <= from <= 1 + |s| && (tail == "" || tail[0] == '/')
    ensures NextSlash("/" + s + tail, from) == 1 + |s|
    decreases 1 + |s| - from
  {
    var whole := "/" + s + tail;
    if from <= |s| {
      assert whole[from] == s[from - 1];
      NextSlashSkips(s, tail, from + 1);
    } else if tail != "" {
      assert whole[from] == tail[0];
    }
  }

  lemma {:induction false} DropLastSegment(front: string, s: Segment)
    requires SlashFree(s)
    ensures DropLast(front + "/" + s) == front
  {
    var whole := front + "/" + s;
    var n := |whole| - 1;
    if s == "" {
      assert whole[..n] == front;
    } else {
      assert whole[n] == s[|s| - 1];
      assert whole[..n] == front + "/" + s[..|s| - 1];
      DropLastSegment(front, s[..|s| - 1]);
    }
  }

  function Popped(stack: seq<Segment>): seq<Segment> {
    if stack == [] then [] else stack[..|stack| - 1]
  }

  lemma {:induction false} DropLastPops(stack: seq<Segment>)
    requires forall i :: 0 <= i < |stack| ==> SlashFree(stack[i])
    ensures DropLast(Absolute(stack)) == Absolute(Popped(stack))
  {
    if stack != [] {
      DropLastSegment(Absolute(Popped(stack)), stack[|stack| - 1]);
    }
  }

  /** What the standard makes of the segments: a final dot segment leaves an empty one behind. */
  function Standard(stack: seq<Segment>, segments: seq<Segment>): seq<Segment>
    decreases |segments|
  {
    if segments == [] then stack
    else
      var s, rest := segments[0], segments[1..];
      if s == "." then (if rest == [] then stack + [""] else Standard(stack, rest))
      else if s == ".." then (if rest == [] then Popped(stack) + [""] else Standard(Popped(stack), rest))
      else Standard(stack + [s], rest)
  }

  lemma LastSlash(output: string)
    ensures RemoveDotSegments("/", output) == output + "/"
  {
    assert "/"[1..] == "";
  }

  lemma DotStep(rest: seq<Segment>, output: string)
    ensures RemoveDotSegments(Absolute(["."] + rest), output) ==
            if rest == [] then output + "/" else RemoveDotSegments(Absolute(rest), output)
  {
    AbsoluteCons(".", rest);
    AbsoluteStarts(rest);
    var input := "/" + "." + Absolute(rest);
    assert input[0] == '/' && input[1] == '.';
    if rest == [] {
      assert input == "/." && |input| == 2;
      LastSlash(output);
    } else {
      assert input[..3] == "/./" && StartsWith(input, "/./") && input[2..] == Absolute(rest);
    }
  }

  lemma {:induction false} DotDotStep(rest: seq<Segment>, output: string)
    ensures RemoveDotSegments(Absolute([".."] + rest), output) ==
            if rest == [] then DropLast(output) + "/" else RemoveDotSegments(Absolute(rest), DropLast(output))
  {
    AbsoluteCons("..", rest);
    AbsoluteStarts(rest);
    var input := "/" + ".." + Absolute(rest);
    assert input[0] == '/' && input[1] == '.' && input[2] == '.';
    if rest == [] {
      assert input == "/.." && |input| == 3;
      LastSlash(DropLast(output));
    } else {
      assert input[..4] == "/../" && StartsWith(input, "/../") && input[3..] == Absolute(rest);
    }
  }

  lemma {:induction false} OtherStep(s: Segment, rest: seq<Segment>, output: string)
    requires SlashFree(s) && s != "." && s != ".."
    ensures RemoveDotSegments(Absolute([s] + rest), output) ==
            RemoveDotSegments(Absolute(rest), output + "/" + s)
  {
    AbsoluteCons(s, rest);
    AbsoluteStarts(rest);
    var input := "/" + s + Absolute(rest);
    NextSlashSkips(s, Absolute(rest), 1);
    assert input[..1 + |s|] == "/" + s && input[1 + |s|..] == Absolute(rest);
    assert output + ("/" + s) == output + "/" + s;
    NoDotPrefix(s, Absolute(rest));
  }

  /** Steps A to D do not apply to a segment that is no dot segment. */
  lemma {:induction false} NoDotPrefix(s: Segment, tail: string)
    requires SlashFree(s) && s != "." && s != ".." && (tail == "" || tail[0] == '/')
    ensures var input := "/" + s + tail;
            && !StartsWith(input, "../") && !StartsWith(input, "./") && !StartsWith(input, "/./")
            && input != "/." && !StartsWith(input, "/../") && input != "/.." && input != "." && input != ".."
  {
    var input := "/" + s + tail;
    assert input[0] == '/';
    if |s| >= 1 {
      assert input[1] == s[0];
    }
    if |s| >= 2 {
      assert input[2] == s[1];
    }
    if |s| >= 3 {
      assert input[3] == s[2];
    }
    if s == "" {
      assert input == "/" + tail;
    }
    if |s| == 1 {
      assert s == [s[0]];
    }
    if |s| == 2 {
      assert s == [s[0], s[1]];
    }
  }

  ghost predicate AllSlashFree(segments: seq<Segment>) {
    forall i :: 0 <= i < |segments| ==> SlashFree(segments[i])
  }

  /** The character loop of the standard is a fold over the segments of an absolute path, empty ones included. */
  lemma {:induction false} RemovalIsStandard(stack: seq<Segment>, segments: seq<Segment>)
    requires AllSlashFree(segments) && AllSlashFree(stack)
    ensures RemoveDotSegments(Absolute(segments), Absolute(stack)) == Absolute(Standard(stack, segments))
    decreases |segments|
  {
    if segments != [] {
      var s, rest := segments[0], segments[1..];
      assert segments == [s] + rest;
      if s == "." {
        DotStep(rest, Absolute(stack));
        if rest != [] {
          RemovalIsStandard(stack, rest);
        }
      } else if s == ".." {
        DotDotStep(rest, Absolute(stack));
        DropLastPops(stack);
        if rest != [] {
          RemovalIsStandard(Popped(stack), rest);
        }
      } else {
        OtherStep(s, rest, Absolute(stack));
        assert (stack + [s])[..|stack|] == stack;
        RemovalIsStandard(stack + [s], rest);
      }
    }
  }

  // ----- against the normaliser's stack

  function ResolveFrom(stack: seq<Segment>, segments: seq<Segment>): seq<Segment>
    decreases |segments|
  {
    if segments == [] then stack else ResolveFrom(Push(stack, segments[0]), segments[1..])
  }

  lemma {:induction false} ResolveFromIsResolve(done: seq<Segment>, todo: seq<Segment>)
    ensures ResolveFrom(Resolve(done), todo) == Resolve(done + todo)
    decreases |todo|
  {
    if todo == [] {
      assert done + todo == done;
    } else {
      var s := todo[0];
      assert (done + [s])[..|done|] == done;
      ResolveFromIsResolve(done + [s], todo[1..]);
      assert done + [s] + todo[1..] == done + todo;
    }
  }

  predicate IsDot(s: Segment) {
    s == "." || s == ".."
  }

  /** All segments but the last are non-empty. */
  ghost predicate NoEmptyInner(segments: seq<Segment>) {
    forall i :: 0 <= i < |segments| - 1 ==> segments[i] != ""
  }

  lemma {:induction false} StandardIsResolve(stack: seq<Segment>, segments: seq<Segment>)
    requires segments != [] && NoEmptyInner(segments)
    ensures var last := segments[|segments| - 1];
            Standard(stack, segments) ==
            ResolveFrom(stack, segments) + if last == "" || IsDot(last) then [""] else []
    decreases |segments|
  {
    var s, rest := segments[0], segments[1..];
    if rest == [] {
      assert Standard(stack + [s], rest) == stack + [s];
    } else {
      assert rest[|rest| - 1] == segments[|segments| - 1];
      StandardIsResolve(Push(stack, s), rest);
    }
  }

  // ----- paths with empty segments

  /** The path with every run of slashes cut down to one. */
  function Collapsed(p: string): string {
    if p == "" then ""
    else
      var n := |p| - 1;
      if p[n] == '/' && EndsInSlash(p[..n]) then Collapsed(p[..n]) else Collapsed(p[..n]) + [p[n]]
  }

  ghost predicate NoDoubleSlash(p: string) {
    forall i :: 0 < i < |p| ==> !(p[i - 1] == '/' && p[i] == '/')
  }

  lemma {:induction false} CollapsedIsSameIff(p: string)
    ensures |Collapsed(p)| <= |p|
    ensures Collapsed(p) == p <==> NoDoubleSlash(p)
  {
    if p != "" {
      var n := |p| - 1;
      CollapsedIsSameIff(p[..n]);
      assert p == p[..n] + [p[n]];
      assert NoDoubleSlash(p) <==> NoDoubleSlash(p[..n]) && !(p[n] == '/' && EndsInSlash(p[..n])) by {
        assert forall i :: 0 <= i < n ==> p[..n][i] == p[i];
      }
      assert Collapsed(p[..n]) + [p[n]] == p ==> Collapsed(p[..n]) == p[..n];
    }
  }

  lemma {:induction false} CollapsedEnds(p: string)
    ensures Leading(p) <==> Leading(Collapsed(p))
    ensures EndsInSlash(p) <==> EndsInSlash(Collapsed(p))
    ensures p == "" <==> Collapsed(p) == ""
  {
    if p != "" {
      CollapsedEnds(p[..|p| - 1]);
    }
  }

  /** `c` has no inner empty segment, ends like `a`, and resolves like `a` up to that end. */
  ghost predicate CollapsesTo(a: seq<Segment>, c: seq<Segment>) {
    && a != [] && c != []
    && c[|c| - 1] == a[|a| - 1]
    && Resolve(c[..|c| - 1]) == Resolve(a[..|a| - 1])
    && forall i :: 0 < i < |c| - 1 ==> c[i] != ""
  }

  lemma LongerLast(a: seq<Segment>, c: seq<Segment>, x: char)
    requires CollapsesTo(a, c)
    ensures CollapsesTo(a[..|a| - 1] + [a[|a| - 1] + [x]], c[..|c| - 1] + [c[|c| - 1] + [x]])
  {
    assert (a[..|a| - 1] + [a[|a| - 1] + [x]])[..|a| - 1] == a[..|a| - 1];
    assert (c[..|c| - 1] + [c[|c| - 1] + [x]])[..|c| - 1] == c[..|c| - 1];
  }

  /** A further slash begins an empty segment; after an empty one only `a` gets it. */
  lemma OneMoreSlash(a: seq<Segment>, c: seq<Segment>)
    requires CollapsesTo(a, c)
    ensures |c| == 1 || c[|c| - 1] != "" ==> CollapsesTo(a + [""], c + [""])
    ensures c[|c| - 1] == "" ==> CollapsesTo(a + [""], c)
  {
    assert (a + [""])[..|a|] == a && (c + [""])[..|c|] == c;
  }

  /** Collapsing takes out exactly the inner empty segments. */
  lemma {:induction false} CollapsedSegments(p: string)
    ensures CollapsesTo(Split(p), Split(Collapsed(p)))
  {
    if p == "" {
      assert [""][..0] == [];
    } else {
      var n := |p| - 1;
      CollapsedSegments(p[..n]);
      OneMoreCharacter(p[..n], p[n]);
      assert p == p[..n] + [p[n]];
    }
  }

  lemma {:induction false} OneMoreCharacter(front: string, x: char)
    requires CollapsesTo(Split(front), Split(Collapsed(front)))
    ensures var p := front + [x];
            CollapsesTo(Split(p), Split(Collapsed(p)))
  {
    var a, c := Split(front), Split(Collapsed(front));
    LastOfSplit(front);
    SplitSnoc(front, x);
    SplitSnoc(Collapsed(front), x);
    assert (front + [x])[..|front|] == front;
    if x == '/' {
      OneMoreSlash(a, c);
    } else {
      LongerLast(a, c, x);
    }
  }

  lemma NormalizeCollapses(p: string)
    requires Leading(p)
    ensures Resolve(Split(Collapsed(p))) == Resolve(Split(p))
    ensures Normalize(Collapsed(p)) == Normalize(p)
  {
    CollapsedSegments(p);
    CollapsedEnds(p);
    CollapsedIsSameIff(p);
    if |Collapsed(p)| == 1 {
      assert Collapsed(p) == "/";
      LoneSlash();
    }
  }

  // ----- the normaliser against the standard

  /** How many names are left once the dot segments have taken theirs. */
  function NamesLeft(segments: seq<Segment>): nat {
    if segments == [] then 0
    else
      var s, before := segments[|segments| - 1], NamesLeft(segments[..|segments| - 1]);
      if s == "" || s == "." then before
      else if s == ".." then (if before > 0 then before - 1 else 0)
      else before + 1
  }

  lemma {:induction false} NamesLeftCounts(segments: seq<Segment>)
    ensures |Resolve(segments)| == NamesLeft(segments)
  {
    if segments != [] {
      NamesLeftCounts(segments[..|segments| - 1]);
    }
  }

  /**
   On every absolute path the normaliser does what section 5.2.4 of RFC 3986 does to the path with its runs of
   slashes cut down to one, except that a final "." or ".." leaves no slash behind. So the two agree if and only if
   the last segment is no dot segment or no name is left; otherwise they differ by that slash.
   */
  lemma {:induction false} NormalizeAgainstStandard(p: string)
    requires Leading(p)
    ensures var segments := Split(p);
            var standard := RemoveDotSegments(Collapsed(p), "");
            && (Normalize(p) == standard <==> !IsDot(segments[|segments| - 1]) || NamesLeft(segments) == 0)
            && (Normalize(p) != standard ==> Normalize(p) + "/" == standard)
  {
    var q := Collapsed(p);
    CollapsedSegments(p);
    CollapsedEnds(p);
    NormalizeCollapses(p);
    NamesLeftCounts(Split(p));
    var stack := CollapsedStandard(q);
    assert stack == Resolve(Split(p));
    LastOfSplit(q);
    SplitIsSlashFree(q);
    ResolveIsProper(Split(q));
    StandardText(q, stack, Split(q)[|Split(q)| - 1]);
  }

  /** The standard's result on a path without empty inner segments, by segments. */
  lemma CollapsedStandard(q: string) returns (stack: seq<Segment>)
    requires Leading(q) && forall i :: 0 < i < |Split(q)| - 1 ==> Split(q)[i] != ""
    ensures stack == Resolve(Split(q))
    ensures var last := Split(q)[|Split(q)| - 1];
            RemoveDotSegments(q, "") == Absolute(stack + if last == "" || IsDot(last) then [""] else [])
  {
    var segments := Split(q);
    SplitEnds(q);
    SplitIsSlashFree(q);
    JoinSplit(q);
    var tail := segments[1..];
    assert segments == [""] + tail;
    AbsoluteIsJoin(segments);
    AbsoluteCons("", tail);
    assert ("/" + q)[1..] == q && ("/" + "" + Absolute(tail))[1..] == Absolute(tail);
    RemovalIsStandard([], tail);
    StandardIsResolve([], tail);
    ResolveAfterEmpty(tail);
    ResolveFromIsResolve([], tail);
    assert [] + tail == tail;
    stack := Resolve(tail);
  }

  lemma {:induction false} LastOfSplit(p: string)
    ensures EndsInSlash(p) <==> p != "" && Split(p)[|Split(p)| - 1] == ""
  {
    if p != "" {
      LastOfSplit(p[..|p| - 1]);
    }
  }

  lemma {:induction false} StandardText(p: string, stack: seq<Segment>, last: Segment)
    requires Leading(p) && AllProper(stack) && stack == Resolve(Split(p))
    requires EndsInSlash(p) <==> last == ""
    requires last != "" && !IsDot(last) ==> stack != []
    ensures var standard := Absolute(stack + if last == "" || IsDot(last) then [""] else []);
            && (Normalize(p) == standard <==> !IsDot(last) || stack == [])
            && (Normalize(p) != standard ==> Normalize(p) + "/" == standard)
  {
    AbsoluteSlash(stack);
    if stack != [] {
      if |p| == 1 {
        assert p == "/";
        LoneSlash();
      }
      AbsoluteIsJoin(stack);
      NormalizeText(p, stack);
      FinalSlash("/" + Join(stack));
    }
  }

  lemma {:induction false} AbsoluteSlash(stack: seq<Segment>)
    ensures stack + [] == stack && Absolute(stack + [""]) == Absolute(stack) + "/"
    ensures Absolute([]) == ""
  {
    assert (stack + [""])[..|stack|] == stack;
    assert Absolute(stack) + "/" + "" == Absolute(stack) + "/";
  }

  lemma FinalSlash(s: string)
    ensures s + "" == s && s + "/" != s
  {
    assert |s + "/"| == |s| + 1;
  }

  lemma NormalizeText(p: string, stack: seq<Segment>)
    requires Leading(p) && |p| > 1 && stack != [] && AllProper(stack) && stack == Resolve(Split(p))
    ensures Normalize(p) == "/" + Join(stack) + (if EndsInSlash(p) then "/" else "") && Normalize(p) != "/"
  {
    JoinEnds(stack);
    var out := "/" + Join(stack);
    assert out[|out| - 1] == Join(stack)[|Join(stack)| - 1];
    assert out + "" == out;
  }

  lemma LoneSlash()
    ensures Resolve(Split("/")) == []
  {
  }

  /** An empty inner segment is kept by the standard and dropped here, so the results part ways. */
  lemma EmptySegmentsDiffer()
    ensures Normalize("//") == "/" && RemoveDotSegments("//", "") == "//"
  {
    DoubleSlashResolves();
    var p := "//";
    assert NextSlash(p, 1) == 1 && p[1..] == "/";
    LastSlash("" + p[..1]);
  }

  lemma DoubleSlashResolves()
    ensures Resolve(Split("//")) == []
  {
    SplitAfterSlash("/");
    LoneSlash();
    ResolveAfterEmpty(Split("/"));
    assert "/" + "/" == "//";
  }
}
