/**
 Event times that come in blocks of bounded size, as fixed windows produce them, and what that says about
 a span of time that is not aligned with the windows.
 */
module Windows {
  import opened Collections

  /**
   Times in blocks of one window each: `first` is the place where the last block begins,
   `previous` where the one before does. Blocks have at most `max` members and begin more than a window apart.
   */
  ghost predicate Blocked(times: seq<nat>, max: nat, window: nat, first: nat, previous: nat, upTo: nat) {
    && (forall i, j :: 0 <= i < j < |times| ==> times[i] <= times[j])
    && (forall i :: 0 <= i < |times| ==> times[i] <= upTo)
    && (times != [] ==> first < |times| && |times| - first <= max)
    && (times != [] && first > 0 ==>
          previous < first && first - previous <= max && times[previous] + window < times[first])
    && Spread(times, max, window)
  }

  ghost predicate Spread(times: seq<nat>, max: nat, window: nat) {
    forall i, j :: 0 <= i < j < |times| && j - i + 1 >= 2 * max ==> times[i] + window < times[j]
  }

  lemma AppendNewBlock(times: seq<nat>, max: nat, window: nat, first: nat, previous: nat, upTo: nat, now: nat)
    requires Blocked(times, max, window, first, previous, upTo) && upTo <= now && 1 <= max
    requires times != [] ==> times[first] + window < now
    ensures Blocked(times + [now], max, window, |times|, first, now)
  {
    forall i | 0 <= i < |times| && |times| - i + 1 >= 2 * max ensures times[i] + window < now {
      assert i <= first;
      assert times[i] <= times[first];
    }
  }

  lemma AppendToBlock(times: seq<nat>, max: nat, window: nat, first: nat, previous: nat, upTo: nat, now: nat)
    requires Blocked(times, max, window, first, previous, upTo) && upTo <= now
    requires times != [] && |times| - first < max
    ensures Blocked(times + [now], max, window, first, previous, now)
  {
  }

  lemma BlockedLater(times: seq<nat>, max: nat, window: nat, first: nat, previous: nat, upTo: nat, later: nat)
    requires Blocked(times, max, window, first, previous, upTo) && upTo <= later
    ensures Blocked(times, max, window, first, previous, later)
  {
  }

  /** The places of `times` that fall into the closed span from `from` to `to`. */
  ghost function Within(times: seq<nat>, from: nat, to: nat): set<nat> {
    set k | 0 <= k < |times| && from <= times[k] <= to
  }

  lemma {:induction false} SpanSize(times: seq<nat>, max: nat, window: nat, from: nat)
    requires 1 <= max && Spread(times, max, window)
    ensures |Within(times, from, from + window)| <= 2 * max - 1
  {
    var inSpan := Within(times, from, from + window);
    if inSpan != {} {
      var i := Least(inSpan);
      IntervalSize(inSpan, i, 2 * max - 1);
    }
  }

  lemma {:induction false} Least(numbers: set<nat>) returns (least: nat)
    requires numbers != {}
    ensures least in numbers && forall k :: k in numbers ==> least <= k
  {
    var k :| k in numbers;
    least := k;
    var others := numbers - {k};
    if others != {} {
      var m := Least(others);
      if m < k {
        least := m;
      }
    }
    assert forall x :: x in numbers ==> x == k || x in others;
  }

  lemma {:induction false} IntervalSize(numbers: set<nat>, from: nat, size: nat)
    requires forall k :: k in numbers ==> from <= k < from + size
    ensures |numbers| <= size
  {
    if size == 0 {
      assert numbers == {};
    } else {
      var last := from + size - 1;
      IntervalSize(numbers - {last}, from, size - 1);
      if last in numbers {
        assert numbers == numbers - {last} + {last};
      } else {
        assert numbers == numbers - {last};
      }
    }
  }

  ghost function Places(from: nat, n: nat): (places: set<nat>)
    ensures |places| == n && forall k :: k in places <==> from <= k < from + n
  {
    if n == 0 then {} else Places(from, n - 1) + {from + n - 1}
  }

  lemma AllWithin(times: seq<nat>, place: nat, n: nat, from: nat, to: nat)
    requires place + n <= |times| && forall k :: place <= k < place + n ==> from <= times[k] <= to
    ensures |Within(times, from, to)| >= n
  {
    SubsetSize(Places(place, n), Within(times, from, to));
  }
}
