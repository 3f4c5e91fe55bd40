/**
 Every interleaving of the requests that use the queue.

 A request is waiting for a permit, timed out but not yet accounted, holding a permit, released but not yet
 accounted (its drop only spawns the account), or finished. A caller may also vanish while it waits: its
 future is cancelled and nothing accounts for it.
 */
module QueueProtocol {
  import opened Collections
  import opened RequestQueue

  datatype Phase = Waiting | Expired | Holding | Released | Processed | Rejected | Vanished

  /** `waits` is the history of all accounted waits. */
  datatype System = System(stats: Stats, permits: nat, phase: map<nat, Phase>, waits: seq<real>)

  datatype Config = Config(maxConcurrent: nat, enabled: bool)

  datatype Step =
    | Arrive(id: nat)
    | Grant(id: nat)
    | Expire(id: nat)
    | SettleExpiry(id: nat)
    | Drop(id: nat)
    | SettleDrop(id: nat, waitMs: real)
    | Vanish(id: nat)

  predicate IsIn(s: System, id: nat, p: Phase) {
    id in s.phase && s.phase[id] == p
  }

  predicate Enabled(c: Config, s: System, step: Step) {
    match step
    case Arrive(id) => id !in s.phase
    case Grant(id) => IsIn(s, id, Waiting) && s.permits > 0
    case Expire(id) => c.enabled && IsIn(s, id, Waiting)
    case SettleExpiry(id) => IsIn(s, id, Expired)
    case Drop(id) => IsIn(s, id, Holding)
    case SettleDrop(id, _) => IsIn(s, id, Released)
    case Vanish(id) => IsIn(s, id, Waiting) || IsIn(s, id, Expired)
  }

  /** What the decrement of a u64 needs. */
  predicate NoUnderflow(s: System, step: Step) {
    (step.SettleExpiry? || step.SettleDrop?) ==> s.stats.currentDepth > 0
  }

  function Next(c: Config, s: System, step: Step): System {
    match step
    case Arrive(id) =>
      if !c.enabled then s.(phase := s.phase[id := Waiting])
      else s.(stats := Entered(s.stats, c.maxConcurrent),
              phase := s.phase[id := if Full(s.stats, c.maxConcurrent) then Rejected else Waiting])
    case Grant(id) =>
      s.(permits := if s.permits > 0 then s.permits - 1 else 0, phase := s.phase[id := Holding])
    case Expire(id) => s.(phase := s.phase[id := Expired])
    case SettleExpiry(id) =>
      s.(stats := if s.stats.currentDepth > 0 then TimedOut(s.stats) else s.stats, phase := s.phase[id := Rejected])
    case Drop(id) => s.(permits := s.permits + 1, phase := s.phase[id := Released])
    case SettleDrop(id, waitMs) =>
      s.(stats := Settled(s.stats, waitMs), phase := s.phase[id := Processed], waits := s.waits + [waitMs])
    case Vanish(id) => s.(phase := s.phase[id := Vanished])
  }

  function Start(c: Config): System {
    System(Zero(), c.maxConcurrent, map[], [])
  }

  ghost predicate IsRun(c: Config, s: System, steps: seq<Step>)
    decreases |steps|
  {
    steps == [] || (Enabled(c, s, steps[0]) && IsRun(c, Next(c, s, steps[0]), steps[1..]))
  }

  function Final(c: Config, s: System, steps: seq<Step>): System
    decreases |steps|
  {
    if steps == [] then s else Final(c, Next(c, s, steps[0]), steps[1..])
  }

  // ----- counting requests by phase

  function In(s: System, p: Phase): set<nat> {
    set id | id in s.phase && s.phase[id] == p
  }

  function Count(s: System, p: Phase): nat {
    |In(s, p)|
  }

  lemma Moved(s: System, s': System, id: nat, to: Phase)
    requires s'.phase == s.phase[id := to]
    ensures forall p :: Count(s', p) ==
                        Count(s, p) + (if p == to && !IsIn(s, id, p) then 1 else 0)
                        - (if p != to && IsIn(s, id, p) then 1 else 0)
  {
    forall p ensures Count(s', p) ==
                     Count(s, p) + (if p == to && !IsIn(s, id, p) then 1 else 0)
                     - (if p != to && IsIn(s, id, p) then 1 else 0)
    {
      if p == to {
        assert In(s', p) == In(s, p) + {id};
      } else {
        assert In(s', p) == In(s, p) - {id};
      }
    }
  }

  // ----- the invariant

  /** The requests that the depth counts. */
  function Pending(s: System): nat {
    Count(s, Waiting) + Count(s, Expired) + Count(s, Holding) + Count(s, Released) + Count(s, Vanished)
  }

  ghost predicate Conserved(c: Config, s: System) {
    && s.permits + Count(s, Holding) == c.maxConcurrent
    && s.stats.processed == Count(s, Processed)
    && s.stats.rejected == Count(s, Rejected)
    && (c.enabled ==>
          && s.stats.currentDepth == Pending(s)
          && s.stats.queued == s.stats.processed + s.stats.rejected + s.stats.currentDepth
          && s.stats.currentDepth <= 2 * c.maxConcurrent
          && s.stats.currentDepth <= s.stats.maxQueueDepth <= 2 * c.maxConcurrent + 1)
    && (!c.enabled ==>
          s.stats.queued == 0 && s.stats.currentDepth == 0 && Count(s, Rejected) == 0 && Count(s, Expired) == 0)
  }

  lemma {:induction false} StepConserves(c: Config, s: System, step: Step)
    requires Conserved(c, s) && Enabled(c, s, step)
    ensures Conserved(c, Next(c, s, step))
    ensures c.enabled ==> NoUnderflow(s, step)
  {
    if step.Arrive? {
      ArrivalConserves(c, s, step);
    } else if step.SettleExpiry? || step.SettleDrop? {
      AccountConserves(c, s, step);
    } else {
      MoveConserves(c, s, step);
    }
  }

  lemma {:induction false} ArrivalConserves(c: Config, s: System, step: Step)
    requires Conserved(c, s) && Enabled(c, s, step) && step.Arrive?
    ensures Conserved(c, Next(c, s, step))
  {
    var s' := Next(c, s, step);
    Moved(s, s', step.id, s'.phase[step.id]);
  }

  /** The steps that lower the depth have a request to account for. */
  lemma {:induction false} AccountConserves(c: Config, s: System, step: Step)
    requires Conserved(c, s) && Enabled(c, s, step) && (step.SettleExpiry? || step.SettleDrop?)
    ensures Conserved(c, Next(c, s, step))
    ensures c.enabled ==> NoUnderflow(s, step)
  {
    var s' := Next(c, s, step);
    Moved(s, s', step.id, s'.phase[step.id]);
    assert step.id in In(s, if step.SettleExpiry? then Expired else Released);
  }

  lemma {:induction false} MoveConserves(c: Config, s: System, step: Step)
    requires Conserved(c, s) && Enabled(c, s, step)
    requires step.Grant? || step.Expire? || step.Drop? || step.Vanish?
    ensures Conserved(c, Next(c, s, step))
  {
    var s' := Next(c, s, step);
    Moved(s, s', step.id, s'.phase[step.id]);
  }

  lemma StartConserves(c: Config)
    ensures Conserved(c, Start(c))
  {
  }

  lemma {:induction false} RunConserves(c: Config, s: System, steps: seq<Step>)
    requires Conserved(c, s) && IsRun(c, s, steps)
    ensures Conserved(c, Final(c, s, steps))
    decreases |steps|
  {
    if steps != [] {
      StepConserves(c, s, steps[0]);
      RunConserves(c, Next(c, s, steps[0]), steps[1..]);
    }
  }

  /**
   Conservation under every interleaving of an enabled queue: the depth is the number of requests waiting,
   timed out, holding, released or vanished; it never exceeds twice the concurrency; no more requests hold a
   permit than there are; and no decrement of any further step can underflow or saturate.
   */
  lemma {:induction false} QueueConserves(c: Config, steps: seq<Step>, next: Step)
    requires c.enabled && IsRun(c, Start(c), steps)
    ensures var s := Final(c, Start(c), steps);
            && s.stats.queued == s.stats.processed + s.stats.rejected + s.stats.currentDepth
            && s.stats.currentDepth == Pending(s) <= 2 * c.maxConcurrent
            && Count(s, Holding) <= c.maxConcurrent
            && (Enabled(c, s, next) ==> NoUnderflow(s, next))
  {
    StartConserves(c);
    RunConserves(c, Start(c), steps);
    var s := Final(c, Start(c), steps);
    if Enabled(c, s, next) {
      StepConserves(c, s, next);
    }
  }

  /**
   In pass-through mode arrivals are not counted but drops are, so the balance holds exactly until the
   first request is accounted.
   */
  lemma BalanceIffEnabledOrUnused(c: Config, steps: seq<Step>)
    requires IsRun(c, Start(c), steps)
    ensures var s := Final(c, Start(c), steps);
            s.stats.queued == s.stats.processed + s.stats.rejected + s.stats.currentDepth
            <==> c.enabled || s.stats.processed == 0
  {
    StartConserves(c);
    RunConserves(c, Start(c), steps);
  }

  /** A request is turned away on arrival exactly when twice the concurrency is pending. */
  lemma RejectedIffPendingFull(c: Config, steps: seq<Step>, id: nat)
    requires c.enabled && IsRun(c, Start(c), steps)
    ensures var s := Final(c, Start(c), steps);
            Next(c, s, Arrive(id)).phase[id] == Rejected <==> Pending(s) == 2 * c.maxConcurrent
  {
    StartConserves(c);
    RunConserves(c, Start(c), steps);
  }

  // ----- vanished requests are never accounted

  lemma {:induction false} VanishedStays(c: Config, s: System, steps: seq<Step>)
    requires IsRun(c, s, steps)
    ensures In(s, Vanished) <= In(Final(c, s, steps), Vanished)
    decreases |steps|
  {
    if steps != [] {
      VanishedStays(c, Next(c, s, steps[0]), steps[1..]);
    }
  }

  /** The request arrives now and is let into the queue. */
  predicate Accepts(c: Config, s: System, id: nat) {
    Enabled(c, s, Arrive(id)) && Next(c, s, Arrive(id)).phase[id] == Waiting
  }

  /** Steps still to take until nothing but vanished waiters is pending. */
  function Work(s: System): nat {
    2 * Count(s, Waiting) + Count(s, Expired) + 2 * Count(s, Holding) + Count(s, Released)
  }

  /** A step towards the end of some request that has not vanished. */
  lemma Progress(c: Config, s: System) returns (step: Step)
    requires c.enabled && Conserved(c, s) && Work(s) > 0
    ensures Enabled(c, s, step) && Work(Next(c, s, step)) < Work(s)
    ensures Next(c, s, step).phase.Keys == s.phase.Keys
    ensures Count(Next(c, s, step), Vanished) == Count(s, Vanished)
  {
    if Count(s, Expired) > 0 {
      var id :| id in In(s, Expired);
      step := SettleExpiry(id);
    } else if Count(s, Released) > 0 {
      var id :| id in In(s, Released);
      step := SettleDrop(id, 0.0);
    } else if Count(s, Waiting) > 0 {
      var id :| id in In(s, Waiting);
      step := Expire(id);
    } else {
      var id :| id in In(s, Holding);
      step := Drop(id);
    }
    var s' := Next(c, s, step);
    Moved(s, s', step.id, s'.phase[step.id]);
  }

  /** Everything that has not vanished can be brought to its end. */
  lemma {:induction false} Drain(c: Config, s: System) returns (steps: seq<Step>)
    requires c.enabled && Conserved(c, s)
    ensures IsRun(c, s, steps)
    ensures var end := Final(c, s, steps);
            Conserved(c, end) && Work(end) == 0 && end.phase.Keys == s.phase.Keys
            && Count(end, Vanished) == Count(s, Vanished)
    decreases Work(s)
  {
    steps := [];
    if Work(s) > 0 {
      var step := Progress(c, s);
      StepConserves(c, s, step);
      var rest := Drain(c, Next(c, s, step));
      steps := [step] + rest;
    }
  }

  /**
   Each cancelled waiter keeps its place in the depth for ever. The exact condition: after any run, some later
   run lets a new request in if and only if fewer waiters than twice the concurrency have vanished.
   */
  lemma {:induction false} AcceptsAgainIff(c: Config, before: seq<Step>, s: System, id: nat)
    requires c.enabled && IsRun(c, Start(c), before) && s == Final(c, Start(c), before) && id !in s.phase
    ensures (exists after :: IsRun(c, s, after) && Accepts(c, Final(c, s, after), id))
            <==> Count(s, Vanished) < 2 * c.maxConcurrent
  {
    StartConserves(c);
    RunConserves(c, Start(c), before);
    if Count(s, Vanished) < 2 * c.maxConcurrent {
      var after := Drain(c, s);
      assert Accepts(c, Final(c, s, after), id);
    } else {
      forall after | IsRun(c, s, after) ensures !Accepts(c, Final(c, s, after), id) {
        RunConserves(c, s, after);
        VanishedStays(c, s, after);
        SubsetSize(In(s, Vanished), In(Final(c, s, after), Vanished));
      }
    }
  }

  /** The failing case is reached: every place of the queue taken by a waiter that vanished. */
  lemma WedgeIsReached(c: Config) returns (steps: seq<Step>)
    requires c.enabled
    ensures IsRun(c, Start(c), steps)
    ensures Count(Final(c, Start(c), steps), Vanished) == 2 * c.maxConcurrent
  {
    StartConserves(c);
    assert In(Start(c), Vanished) == {};
    steps := VanishFrom(c, Start(c), 0);
  }

  /** One more request that arrives and vanishes. */
  lemma VanishNext(c: Config, s: System, n: nat) returns (s1: System, s2: System)
    requires c.enabled && Conserved(c, s) && n < 2 * c.maxConcurrent
    requires Pending(s) == Count(s, Vanished) == n && forall id :: id in s.phase ==> id < n
    ensures Enabled(c, s, Arrive(n)) && s1 == Next(c, s, Arrive(n))
    ensures Enabled(c, s1, Vanish(n)) && s2 == Next(c, s1, Vanish(n))
    ensures Conserved(c, s2) && Pending(s2) == Count(s2, Vanished) == n + 1
    ensures forall id :: id in s2.phase ==> id < n + 1
  {
    s1 := Next(c, s, Arrive(n));
    s2 := Next(c, s1, Vanish(n));
    StepConserves(c, s, Arrive(n));
    StepConserves(c, s1, Vanish(n));
    Moved(s, s1, n, Waiting);
    Moved(s1, s2, n, Vanished);
  }

  /** From `n` vanished waiters and nothing else pending to as many as there are places. */
  lemma {:induction false} VanishFrom(c: Config, s: System, n: nat) returns (steps: seq<Step>)
    requires c.enabled && Conserved(c, s) && n <= 2 * c.maxConcurrent
    requires Pending(s) == Count(s, Vanished) == n && forall id :: id in s.phase ==> id < n
    ensures IsRun(c, s, steps) && Count(Final(c, s, steps), Vanished) == 2 * c.maxConcurrent
    decreases 2 * c.maxConcurrent - n
  {
    steps := [];
    if n < 2 * c.maxConcurrent {
      var s1, s2 := VanishNext(c, s, n);
      var rest := VanishFrom(c, s2, n + 1);
      var tail := [Vanish(n)] + rest;
      steps := [Arrive(n)] + tail;
      assert tail[1..] == rest && steps[1..] == tail;
      assert IsRun(c, s1, tail);
    }
  }

  // ----- the reported peak

  function Larger(a: nat, b: nat): nat {
    if a < b then b else a
  }

  /** The most requests pending at an arrival of the run, the arriving one included. */
  function Peak(c: Config, s: System, steps: seq<Step>): nat
    decreases |steps|
  {
    if steps == [] then 0
    else Larger(if steps[0].Arrive? then Pending(s) + 1 else 0, Peak(c, Next(c, s, steps[0]), steps[1..]))
  }

  lemma {:induction false} DepthPeaks(c: Config, s: System, steps: seq<Step>)
    requires c.enabled && Conserved(c, s) && IsRun(c, s, steps)
    ensures Final(c, s, steps).stats.maxQueueDepth == Larger(s.stats.maxQueueDepth, Peak(c, s, steps))
    decreases |steps|
  {
    if steps != [] {
      StepConserves(c, s, steps[0]);
      DepthPeaks(c, Next(c, s, steps[0]), steps[1..]);
    }
  }

  /** The reported maximum is the peak of the run; the arrival that was turned away counts, too. */
  lemma MaximumIsPeak(c: Config, steps: seq<Step>)
    requires c.enabled && IsRun(c, Start(c), steps)
    ensures Final(c, Start(c), steps).stats.maxQueueDepth == Peak(c, Start(c), steps)
  {
    StartConserves(c);
    DepthPeaks(c, Start(c), steps);
  }

  // ----- the average wait

  function Recent(waits: seq<real>): seq<real> {
    if |waits| <= WAIT_WINDOW then waits else waits[|waits| - WAIT_WINDOW..]
  }

  ghost predicate AveragesRecent(s: System) {
    s.stats.waitTimes == Recent(s.waits) && s.stats.avgWaitMs == Average(Recent(s.waits))
  }

  lemma {:induction false} StepAveragesRecent(c: Config, s: System, step: Step)
    requires AveragesRecent(s)
    ensures AveragesRecent(Next(c, s, step))
  {
    if step.SettleDrop? {
      RecentOfMore(s.waits, step.waitMs);
    }
  }

  lemma RecentOfMore(waits: seq<real>, x: real)
    ensures Recent(waits + [x]) == Pushed(Recent(waits), x)
  {
    var n := |waits|;
    if n < WAIT_WINDOW {
      assert Recent(waits) == waits && Recent(waits + [x]) == waits + [x];
    } else {
      var recent := Recent(waits);
      assert recent == waits[n - WAIT_WINDOW..] && |recent| == WAIT_WINDOW;
      assert Recent(waits + [x]) == (waits + [x])[n + 1 - WAIT_WINDOW..] == (recent + [x])[1..];
    }
  }

  lemma {:induction false} RunAveragesRecent(c: Config, s: System, steps: seq<Step>)
    requires AveragesRecent(s)
    ensures AveragesRecent(Final(c, s, steps))
    decreases |steps|
  {
    if steps != [] {
      StepAveragesRecent(c, s, steps[0]);
      RunAveragesRecent(c, Next(c, s, steps[0]), steps[1..]);
    }
  }

  /** What is the average of the waits after the first `m`. */
  ghost predicate AveragesFrom(average: real, waits: seq<real>, m: nat)
    requires m <= |waits|
  {
    if m == |waits| then average == 0.0
    else average * ((|waits| - m) as real) == Sum(waits) - Sum(waits[..m])
  }

  /** In every run the reported average is that of the last hundred accounted waits. */
  lemma AverageIsRecent(c: Config, steps: seq<Step>)
    requires IsRun(c, Start(c), steps)
    ensures var end := Final(c, Start(c), steps);
            AveragesFrom(end.stats.avgWaitMs, end.waits, if |end.waits| < 100 then 0 else |end.waits| - 100)
  {
    RunAveragesRecent(c, Start(c), steps);
    var waits := Final(c, Start(c), steps).waits;
    var m := if |waits| < 100 then 0 else |waits| - 100;
    assert Recent(waits) == waits[m..];
    AverageOfTail(waits, m);
  }

  lemma AverageOfTail(waits: seq<real>, m: nat)
    requires m <= |waits|
    ensures AveragesFrom(Average(waits[m..]), waits, m)
  {
    var front, tail := waits[..m], waits[m..];
    TailSum(waits, front, tail);
    if tail != [] {
      AverageTimes(tail);
    }
  }

  lemma TailSum(waits: seq<real>, front: seq<real>, tail: seq<real>)
    requires waits == front + tail
    ensures Sum(tail) == Sum(waits) - Sum(front)
  {
    SumAppend(front, tail);
  }

  lemma AverageTimes(xs: seq<real>)
    requires xs != []
    ensures Average(xs) * (|xs| as real) == Sum(xs)
  {
    var sum, n := Sum(xs), |xs| as real;
    assert n != 0.0 && Average(xs) == sum / n;
    Quotient(sum, n);
  }

  lemma Quotient(a: real, b: real)
    requires b != 0.0
    ensures a / b * b == a
  {
  }

  lemma {:induction false} SumAppend(xs: seq<real>, ys: seq<real>)
    ensures Sum(xs + ys) == Sum(xs) + Sum(ys)
  {
    if ys == [] {
      assert xs + ys == xs;
    } else {
      var n := |ys| - 1;
      assert (xs + ys)[..|xs| + n] == xs + ys[..n];
      SumAppend(xs, ys[..n]);
    }
  }
}
