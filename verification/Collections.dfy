/** Types and sequence functions that several components share. */
module Collections {

  datatype Option<+T> = None | Some(value: T)

  datatype Result<+T> = Ok(value: T) | Err(error: string)

  ghost predicate Distinct<T>(s: seq<T>) {
    forall i, j :: 0 <= i < j < |s| ==> s[i] != s[j]
  }

  lemma EmptyOrHeaded<T>(s: seq<T>)
    ensures s == [] || s[0] in s
  {
  }

  /** `Vec::retain`: the elements of `s` that are in `keep`, in their order. */
  function Keeping<T(==,!new)>(s: seq<T>, keep: set<T>): (r: seq<T>)
    ensures forall x :: x in r <==> x in s && x in keep
    ensures |r| <= |s|
  {
    if s == [] then []
    else
      var n := |s| - 1;
      var front := Keeping(s[..n], keep);
      assert s == s[..n] + [s[n]];
      if s[n] in keep then front + [s[n]] else front
  }

  lemma KeepingSnoc<T(!new)>(s: seq<T>, x: T, keep: set<T>)
    ensures Keeping(s + [x], keep) == Keeping(s, keep) + (if x in keep then [x] else [])
  {
    assert (s + [x])[..|s|] == s;
  }

  lemma {:induction false} KeepingDistinct<T(!new)>(s: seq<T>, keep: set<T>)
    requires Distinct(s)
    ensures Distinct(Keeping(s, keep))
  {
    if s != [] {
      KeepingDistinct(s[..|s| - 1], keep);
    }
  }

  /** Only the members of `s` matter to what is kept. */
  lemma {:induction false} KeepingSame<T(!new)>(s: seq<T>, keep: set<T>, keep': set<T>)
    requires forall x :: x in s ==> (x in keep <==> x in keep')
    ensures Keeping(s, keep) == Keeping(s, keep')
  {
    if s != [] {
      assert s[|s| - 1] in s;
      KeepingSame(s[..|s| - 1], keep, keep');
    }
  }

  lemma {:induction false} KeepingTwice<T(!new)>(s: seq<T>, first: set<T>, second: set<T>)
    ensures Keeping(Keeping(s, first), second) == Keeping(s, first * second)
  {
    if s != [] {
      var n := |s| - 1;
      KeepingTwice(s[..n], first, second);
      if s[n] in first {
        KeepingSnoc(Keeping(s[..n], first), s[n], second);
      }
    }
  }

  lemma {:induction false} KeepingAll<T(!new)>(s: seq<T>, keep: set<T>)
    requires forall x :: x in s ==> x in keep
    ensures Keeping(s, keep) == s
  {
    if s != [] {
      var n := |s| - 1;
      assert s == s[..n] + [s[n]];
      KeepingAll(s[..n], keep);
    }
  }

  /** A sequence has no more distinct members than places. */
  lemma {:induction false} MembersAtMostLength<T(!new)>(members: set<T>, s: seq<T>)
    requires forall x :: x in members ==> x in s
    ensures |members| <= |s|
  {
    if s == [] {
      assert members == {};
    } else {
      var n := |s| - 1;
      var rest := members - {s[n]};
      forall x | x in rest ensures x in s[..n] {
        assert x in s;
      }
      MembersAtMostLength(rest, s[..n]);
      assert members <= rest + {s[n]};
      if s[n] in members {
        assert members == rest + {s[n]};
      } else {
        assert members == rest;
      }
    }
  }

  lemma {:induction false} SubsetSize<T(!new)>(a: set<T>, b: set<T>)
    requires a <= b
    ensures |a| <= |b|
  {
    if a != {} {
      var x :| x in a;
      SubsetSize(a - {x}, b - {x});
    }
  }

  lemma {:induction false} DistinctAtMost<T(!new)>(a: seq<T>, b: seq<T>)
    requires Distinct(a)
    requires forall x :: x in a ==> x in b
    ensures |a| <= |b|
  {
    DistinctSize(a);
    MembersAtMostLength((set x | x in a), b);
  }

  lemma {:induction false} DistinctSize<T(!new)>(s: seq<T>)
    requires Distinct(s)
    ensures |set x | x in s| == |s|
  {
    if s != [] {
      var n := |s| - 1;
      DistinctSize(s[..n]);
      assert (set x | x in s) == (set x | x in s[..n]) + {s[n]};
    }
  }

  /** Two kept places keep their order. */
  lemma {:induction false} KeepingHasPair<T(!new)>(s: seq<T>, keep: set<T>, i: nat, j: nat) returns (a: nat, b: nat)
    requires i < j < |s| && s[i] in keep && s[j] in keep
    ensures a < b < |Keeping(s, keep)| && Keeping(s, keep)[a] == s[i] && Keeping(s, keep)[b] == s[j]
  {
    var n := |s| - 1;
    if j < n {
      a, b := KeepingHasPair(s[..n], keep, i, j);
    } else {
      var front := Keeping(s[..n], keep);
      assert s[..n][i] in s[..n];
      a :| 0 <= a < |front| && front[a] == s[i];
      b := |front|;
    }
  }

  /** Two places of the result come from two places in the same order. */
  lemma {:induction false} KeepingFromPair<T(!new)>(s: seq<T>, keep: set<T>, a: nat, b: nat) returns (i: nat, j: nat)
    requires a < b < |Keeping(s, keep)|
    ensures i < j < |s| && s[i] == Keeping(s, keep)[a] && s[j] == Keeping(s, keep)[b]
  {
    var n := |s| - 1;
    var front := Keeping(s[..n], keep);
    if b < |front| {
      i, j := KeepingFromPair(s[..n], keep, a, b);
    } else {
      assert front[a] in front;
      i :| 0 <= i < n && s[..n][i] == front[a];
      j := n;
    }
  }
}
