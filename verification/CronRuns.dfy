/** Every interleaving of ticks, finishing runs, merges, additions and removals. */
module CronRuns {
  import opened Collections
  import opened Cron

  datatype Phase = Active | Finished(outcome: RunResult) | Accounted(outcome: RunResult)

  datatype Task = Task(jobId: nat, tickTime: nat, phase: Phase)

  /** `tasks` holds every run ever dispatched, in order; `schedules` and `born` every job id ever used. */
  datatype System = System(
    jobs: seq<Job>, inFlight: set<nat>, tasks: seq<Task>, schedules: map<nat, Schedule>, born: map<nat, nat>,
    clock: nat)

  datatype Step =
    | Add(id: nat, schedule: Schedule, now: nat)
    | Tick(now: nat)
    | Finish(task: nat, outcome: RunResult)
    | Merge(task: nat)
    | Remove(id: nat)

  const START := System([], {}, [], map[], map[], 0)

  /** Job ids are fresh, the clock is monotone and below the end of u64 time. */
  predicate Enabled(s: System, step: Step) {
    match step
    case Add(id, _, now) => id !in s.schedules && s.clock <= now < U64_MAX
    case Tick(now) => s.clock <= now < U64_MAX
    case Finish(t, _) => t < |s.tasks| && s.tasks[t].phase == Active
    case Merge(t) => t < |s.tasks| && s.tasks[t].phase.Finished?
    case Remove(_) => true
  }

  function Dispatched(due: seq<nat>, now: nat): (tasks: seq<Task>)
    ensures |tasks| == |due|
    ensures forall i :: 0 <= i < |due| ==> tasks[i] == Task(due[i], now, Active)
  {
    if due == [] then [] else Dispatched(due[..|due| - 1], now) + [Task(due[|due| - 1], now, Active)]
  }

  function Next(s: System, step: Step): System
    requires Enabled(s, step)
  {
    match step
    case Add(id, schedule, now) =>
      s.(jobs := s.jobs + [Job(id, schedule, true, 0, NextAfter(schedule, now), 0, None, 0)],
         schedules := s.schedules[id := schedule], born := s.born[id := now], clock := now)
    case Tick(now) =>
      var (jobs, inFlight, due) := Snapshot(s.jobs, s.inFlight, now, |s.jobs|);
      s.(jobs := jobs, inFlight := inFlight, tasks := s.tasks + Dispatched(due, now), clock := now)
    case Finish(t, outcome) =>
      s.(inFlight := s.inFlight - {s.tasks[t].jobId}, tasks := s.tasks[t := s.tasks[t].(phase := Finished(outcome))])
    case Merge(t) =>
      s.(jobs := MergedJobs(s.jobs, s.tasks[t].jobId, s.tasks[t].tickTime, s.tasks[t].phase.outcome),
         tasks := s.tasks[t := s.tasks[t].(phase := Accounted(s.tasks[t].phase.outcome))])
    case Remove(id) => s.(jobs := JobsWithout(s.jobs, id), inFlight := s.inFlight - {id})
  }

  ghost predicate IsRun(s: System, steps: seq<Step>)
    decreases |steps|
  {
    steps == [] || (Enabled(s, steps[0]) && IsRun(Next(s, steps[0]), steps[1..]))
  }

  ghost function Final(s: System, steps: seq<Step>): System
    requires IsRun(s, steps)
    decreases |steps|
  {
    if steps == [] then s else Final(Next(s, steps[0]), steps[1..])
  }

  // ----- counting the runs of a job

  function Dispatches(tasks: seq<Task>, id: nat): nat {
    if tasks == [] then 0
    else Dispatches(tasks[..|tasks| - 1], id) + if tasks[|tasks| - 1].jobId == id then 1 else 0
  }

  function Unaccounted(tasks: seq<Task>, id: nat): nat {
    if tasks == [] then 0
    else
      var t := tasks[|tasks| - 1];
      Unaccounted(tasks[..|tasks| - 1], id) + if t.jobId == id && !t.phase.Accounted? then 1 else 0
  }

  lemma {:induction false} UpdateCounts(tasks: seq<Task>, t: nat, phase: Phase, id: nat)
    requires t < |tasks| && !tasks[t].phase.Accounted?
    ensures var tasks' := tasks[t := tasks[t].(phase := phase)];
            && Dispatches(tasks', id) == Dispatches(tasks, id)
            && Unaccounted(tasks', id) ==
               Unaccounted(tasks, id) - if tasks[t].jobId == id && phase.Accounted? then 1 else 0
  {
    var n := |tasks| - 1;
    var tasks' := tasks[t := tasks[t].(phase := phase)];
    if t < n {
      UpdateCounts(tasks[..n], t, phase, id);
      assert tasks'[..n] == tasks[..n][t := tasks[t].(phase := phase)];
    } else {
      assert tasks'[..n] == tasks[..n];
    }
  }

  lemma {:induction false} AppendCounts(tasks: seq<Task>, more: seq<Task>, id: nat)
    requires forall i :: 0 <= i < |more| ==> more[i].phase == Active
    ensures Dispatches(tasks + more, id) - Dispatches(tasks, id) ==
            Unaccounted(tasks + more, id) - Unaccounted(tasks, id)
  {
    if more == [] {
      assert tasks + more == tasks;
    } else {
      var n := |more| - 1;
      assert (tasks + more)[..|tasks| + n] == tasks + more[..n];
      AppendCounts(tasks, more[..n], id);
    }
  }

  // ----- the snapshot section with distinct job ids

  ghost predicate DistinctIds(jobs: seq<Job>) {
    forall i, j :: 0 <= i < j < |jobs| ==> jobs[i].id != jobs[j].id
  }

  predicate Fires(j: Job, inFlight: set<nat>, now: nat) {
    Due(j, now) && j.id !in inFlight
  }

  lemma {:induction false} SnapshotIs(jobs: seq<Job>, inFlight: set<nat>, now: nat, n: nat)
    requires DistinctIds(jobs) && n <= |jobs|
    ensures var (jobs', flight', due) := Snapshot(jobs, inFlight, now, n);
            && (forall k :: 0 <= k < n ==>
                  jobs'[k] == if Fires(jobs[k], inFlight, now)
                              then jobs[k].(nextRun := NextAfter(jobs[k].schedule, now)) else jobs[k])
            && flight' == inFlight + (set x | x in due)
            && Distinct(due)
            && forall x :: x in due <==> exists k :: 0 <= k < n && jobs[k].id == x && Fires(jobs[k], inFlight, now)
  {
    if n > 0 {
      SnapshotIs(jobs, inFlight, now, n - 1);
      var (_, flight, due) := Snapshot(jobs, inFlight, now, n - 1);
      assert jobs[n - 1].id !in due;
      var (_, _, due') := Snapshot(jobs, inFlight, now, n);
      if Fires(jobs[n - 1], inFlight, now) {
        assert due' == due + [jobs[n - 1].id];
      }
    }
  }

  // ----- the invariant

  ghost predicate Live(s: System, id: nat) {
    exists k :: 0 <= k < |s.jobs| && s.jobs[k].id == id
  }

  ghost predicate Known(s: System) {
    && (forall k :: 0 <= k < |s.jobs| ==>
          s.jobs[k].id in s.schedules && s.jobs[k].schedule == s.schedules[s.jobs[k].id])
    && (forall t :: 0 <= t < |s.tasks| ==> s.tasks[t].jobId in s.schedules && s.tasks[t].tickTime <= s.clock)
    && DistinctIds(s.jobs)
    && s.clock < U64_MAX
  }

  /** An active run of a live job is in flight, and no two active runs are of one job. */
  ghost predicate NoOverlap(s: System) {
    && (forall t :: 0 <= t < |s.tasks| && s.tasks[t].phase == Active && Live(s, s.tasks[t].jobId) ==>
          s.tasks[t].jobId in s.inFlight)
    && (forall t, u :: 0 <= t < u < |s.tasks| && s.tasks[t].phase == Active && s.tasks[u].phase == Active ==>
          s.tasks[t].jobId != s.tasks[u].jobId)
  }

  ghost predicate Balanced(s: System) {
    forall k :: 0 <= k < |s.jobs| ==>
      Dispatches(s.tasks, s.jobs[k].id) == s.jobs[k].runCount + Unaccounted(s.tasks, s.jobs[k].id)
  }

  /** A live job waits for its next time after each of its dispatches, and past dispatches did so. */
  ghost predicate Spaced(s: System)
    requires Known(s)
  {
    && (forall k, t ::
          0 <= k < |s.jobs| && 0 <= t < |s.tasks| && s.tasks[t].jobId == s.jobs[k].id ==>
            NextAfter(s.jobs[k].schedule, s.tasks[t].tickTime) <= s.jobs[k].nextRun)
    && (forall t, u :: 0 <= t < u < |s.tasks| && s.tasks[t].jobId == s.tasks[u].jobId ==>
          NextAfter(s.schedules[s.tasks[t].jobId], s.tasks[t].tickTime) <= s.tasks[u].tickTime)
  }

  ghost predicate Inv(s: System) {
    Known(s) && NoOverlap(s) && Balanced(s) && Spaced(s)
  }

  lemma {:induction false} NoDispatches(tasks: seq<Task>, id: nat)
    requires forall t :: 0 <= t < |tasks| ==> tasks[t].jobId != id
    ensures Dispatches(tasks, id) == 0 && Unaccounted(tasks, id) == 0
  {
    if tasks != [] {
      NoDispatches(tasks[..|tasks| - 1], id);
    }
  }

  lemma {:induction false} AddKeepsInv(s: System, step: Step)
    requires Inv(s) && Enabled(s, step) && step.Add?
    ensures Inv(Next(s, step))
  {
    NoDispatches(s.tasks, step.id);
    AddKeepsNoOverlap(s, step);
  }

  lemma AddKeepsNoOverlap(s: System, step: Step)
    requires Known(s) && NoOverlap(s) && Enabled(s, step) && step.Add?
    ensures NoOverlap(Next(s, step))
  {
    var s' := Next(s, step);
    forall t | 0 <= t < |s'.tasks| && s'.tasks[t].phase == Active && Live(s', s'.tasks[t].jobId)
      ensures s'.tasks[t].jobId in s'.inFlight
    {
      var k :| 0 <= k < |s'.jobs| && s'.jobs[k].id == s'.tasks[t].jobId;
      assert k < |s.jobs| && s.jobs[k] == s'.jobs[k];
      assert Live(s, s.tasks[t].jobId);
    }
  }

  lemma {:induction false} TickSteps(s: System, step: Step) returns (due: seq<nat>)
    requires Known(s) && Enabled(s, step) && step.Tick?
    ensures var s' := Next(s, step);
            && |s'.jobs| == |s.jobs|
            && s'.tasks == s.tasks + Dispatched(due, step.now) && s'.inFlight == s.inFlight + (set x | x in due)
            && Distinct(due)
            && (forall k :: 0 <= k < |s.jobs| ==>
                  s'.jobs[k] == if s.jobs[k].id in due
                                then s.jobs[k].(nextRun := NextAfter(s.jobs[k].schedule, step.now)) else s.jobs[k])
            && (forall x :: x in due ==> Live(s, x) && x !in s.inFlight)
            && (forall k :: 0 <= k < |s.jobs| && s.jobs[k].id in due ==> step.now >= s.jobs[k].nextRun)
  {
    SnapshotIs(s.jobs, s.inFlight, step.now, |s.jobs|);
    due := Snapshot(s.jobs, s.inFlight, step.now, |s.jobs|).2;
    forall k | 0 <= k < |s.jobs| ensures s.jobs[k].id in due <==> Fires(s.jobs[k], s.inFlight, step.now) {
      if s.jobs[k].id in due {
        var m :| 0 <= m < |s.jobs| && s.jobs[m].id == s.jobs[k].id && Fires(s.jobs[m], s.inFlight, step.now);
        assert m == k;
      }
    }
  }

  lemma {:induction false} TickKeepsKnown(s: System, step: Step)
    requires Known(s) && Enabled(s, step) && step.Tick?
    ensures Known(Next(s, step))
  {
    var due := TickSteps(s, step);
    var s' := Next(s, step);
    forall t | |s.tasks| <= t < |s'.tasks| ensures s'.tasks[t].jobId in s.schedules {
      assert s'.tasks[t].jobId == due[t - |s.tasks|];
      assert Live(s, due[t - |s.tasks|]);
    }
  }

  lemma {:induction false} TickKeepsNoOverlap(s: System, step: Step)
    requires Inv(s) && Enabled(s, step) && step.Tick?
    ensures NoOverlap(Next(s, step))
  {
    var due := TickSteps(s, step);
    var s' := Next(s, step);
    var old' := |s.tasks|;
    forall t | old' <= t < |s'.tasks| ensures s'.tasks[t].jobId == due[t - old'] && due[t - old'] in due {
    }
    forall t, u | 0 <= t < u < |s'.tasks| && s'.tasks[t].phase == Active && s'.tasks[u].phase == Active
      ensures s'.tasks[t].jobId != s'.tasks[u].jobId
    {
      if t < old' <= u {
        assert Live(s, s'.tasks[u].jobId) && s'.tasks[u].jobId !in s.inFlight;
      }
    }
    forall t | 0 <= t < |s'.tasks| && s'.tasks[t].phase == Active && Live(s', s'.tasks[t].jobId)
      ensures s'.tasks[t].jobId in s'.inFlight
    {
      if t < old' {
        var k :| 0 <= k < |s'.jobs| && s'.jobs[k].id == s'.tasks[t].jobId;
        assert s.jobs[k].id == s.tasks[t].jobId;
        assert Live(s, s.tasks[t].jobId);
      }
    }
  }

  lemma {:induction false} TickKeepsBalanced(s: System, step: Step)
    requires Inv(s) && Enabled(s, step) && step.Tick?
    ensures Balanced(Next(s, step))
  {
    var due := TickSteps(s, step);
    forall k | 0 <= k < |s.jobs| {
      AppendCounts(s.tasks, Dispatched(due, step.now), s.jobs[k].id);
    }
    var s' := Next(s, step);
    forall k | 0 <= k < |s'.jobs|
      ensures Dispatches(s'.tasks, s'.jobs[k].id) == s'.jobs[k].runCount + Unaccounted(s'.tasks, s'.jobs[k].id)
    {
      AppendCounts(s.tasks, Dispatched(due, step.now), s.jobs[k].id);
    }
  }

  lemma {:induction false} TickKeepsSpaced(s: System, step: Step)
    requires Inv(s) && Enabled(s, step) && step.Tick?
    ensures Known(Next(s, step)) && Spaced(Next(s, step))
  {
    TickKeepsKnown(s, step);
    var s' := Next(s, step);
    forall t, u | 0 <= t < u < |s'.tasks| && s'.tasks[t].jobId == s'.tasks[u].jobId
      ensures NextAfter(s'.schedules[s'.tasks[t].jobId], s'.tasks[t].tickTime) <= s'.tasks[u].tickTime
    {
      DueJobsHaveWaited(s, step, t, u);
    }
    forall k, t | 0 <= k < |s'.jobs| && 0 <= t < |s'.tasks| && s'.tasks[t].jobId == s'.jobs[k].id
      ensures NextAfter(s'.jobs[k].schedule, s'.tasks[t].tickTime) <= s'.jobs[k].nextRun
    {
      DueJobsWaitAgain(s, step, k, t);
    }
  }

  lemma {:induction false} DueJobsHaveWaited(s: System, step: Step, t: nat, u: nat)
    requires Inv(s) && Enabled(s, step) && step.Tick? && Known(Next(s, step))
    requires t < u < |Next(s, step).tasks| && Next(s, step).tasks[t].jobId == Next(s, step).tasks[u].jobId
    ensures var s' := Next(s, step);
            NextAfter(s'.schedules[s'.tasks[t].jobId], s'.tasks[t].tickTime) <= s'.tasks[u].tickTime
  {
    var due := TickSteps(s, step);
    var old' := |s.tasks|;
    if u >= old' {
      var id := due[u - old'];
      assert id in due && Live(s, id);
      if t < old' {
        var k :| 0 <= k < |s.jobs| && s.jobs[k].id == id;
        assert NextAfter(s.jobs[k].schedule, s.tasks[t].tickTime) <= s.jobs[k].nextRun;
      }
    }
  }

  lemma {:induction false} DueJobsWaitAgain(s: System, step: Step, k: nat, t: nat)
    requires Inv(s) && Enabled(s, step) && step.Tick?
    requires k < |Next(s, step).jobs| && t < |Next(s, step).tasks|
    requires Next(s, step).tasks[t].jobId == Next(s, step).jobs[k].id
    ensures var s' := Next(s, step);
            NextAfter(s'.jobs[k].schedule, s'.tasks[t].tickTime) <= s'.jobs[k].nextRun
  {
    var due := TickSteps(s, step);
    NextIsNotBefore(s.jobs[k].schedule, step.now);
    if t >= |s.tasks| {
      assert due[t - |s.tasks|] in due;
    } else {
      assert NextAfter(s.jobs[k].schedule, s.tasks[t].tickTime) <= s.jobs[k].nextRun;
    }
  }

  lemma NextIsNotBefore(schedule: Schedule, now: nat)
    requires now <= U64_MAX
    ensures now <= NextAfter(schedule, now)
  {
    if schedule.Daily? {
      DailyWithinADayIff(schedule, now);
    }
  }

  lemma {:induction false} FinishKeepsInv(s: System, step: Step)
    requires Inv(s) && Enabled(s, step) && step.Finish?
    ensures Inv(Next(s, step))
  {
    var s' := Next(s, step);
    forall k | 0 <= k < |s.jobs|
      ensures Dispatches(s'.tasks, s'.jobs[k].id) == s'.jobs[k].runCount + Unaccounted(s'.tasks, s'.jobs[k].id)
    {
      UpdateCounts(s.tasks, step.task, Finished(step.outcome), s.jobs[k].id);
    }
    forall t | 0 <= t < |s'.tasks| && s'.tasks[t].phase == Active && Live(s', s'.tasks[t].jobId)
      ensures s'.tasks[t].jobId in s'.inFlight
    {
      assert t != step.task && Live(s, s.tasks[t].jobId);
    }
  }

  /** A merge changes no id, schedule or next run, and counts one run of its own job. */
  lemma {:induction false} MergeEffect(s: System, step: Step)
    requires Known(s) && Enabled(s, step) && step.Merge?
    ensures var s', id := Next(s, step), s.tasks[step.task].jobId;
            && |s'.jobs| == |s.jobs|
            && forall k :: 0 <= k < |s.jobs| ==>
                 && s'.jobs[k].id == s.jobs[k].id && s'.jobs[k].schedule == s.jobs[k].schedule
                 && s'.jobs[k].nextRun == s.jobs[k].nextRun
                 && s'.jobs[k].runCount == s.jobs[k].runCount + if s.jobs[k].id == id then 1 else 0
  {
  }

  lemma {:induction false} MergeKeepsNoOverlap(s: System, step: Step)
    requires Inv(s) && Enabled(s, step) && step.Merge?
    ensures NoOverlap(Next(s, step))
  {
  }

  lemma {:induction false} MergeKeepsBalanced(s: System, step: Step)
    requires Inv(s) && Enabled(s, step) && step.Merge?
    ensures Balanced(Next(s, step))
  {
    var s' := Next(s, step);
    MergeEffect(s, step);
    forall k | 0 <= k < |s'.jobs|
      ensures Dispatches(s'.tasks, s'.jobs[k].id) == s'.jobs[k].runCount + Unaccounted(s'.tasks, s'.jobs[k].id)
    {
      UpdateCounts(s.tasks, step.task, Accounted(s.tasks[step.task].phase.outcome), s.jobs[k].id);
    }
  }

  lemma {:induction false} MergeKeepsSpaced(s: System, step: Step)
    requires Inv(s) && Enabled(s, step) && step.Merge?
    ensures Known(Next(s, step)) && Spaced(Next(s, step))
  {
    MergeEffect(s, step);
  }

  lemma {:induction false} KeepingDistinctIds(jobs: seq<Job>, keep: set<Job>)
    requires DistinctIds(jobs)
    ensures DistinctIds(Keeping(jobs, keep))
  {
    if jobs != [] {
      var n := |jobs| - 1;
      var front := Keeping(jobs[..n], keep);
      KeepingDistinctIds(jobs[..n], keep);
      forall i | 0 <= i < |front| ensures front[i].id != jobs[n].id {
        assert front[i] in front;
        assert front[i] in jobs[..n];
      }
    }
  }

  lemma {:induction false} RemoveKeepsInv(s: System, step: Step)
    requires Inv(s) && Enabled(s, step) && step.Remove?
    ensures Inv(Next(s, step))
  {
    var s' := Next(s, step);
    KeepingDistinctIds(s.jobs, set j | j in s.jobs && j.id != step.id);
    forall k | 0 <= k < |s'.jobs|
      ensures s'.jobs[k].id != step.id && exists m :: 0 <= m < |s.jobs| && s.jobs[m] == s'.jobs[k]
    {
      assert s'.jobs[k] in s'.jobs;
    }
    forall t | 0 <= t < |s'.tasks| && s'.tasks[t].phase == Active && Live(s', s'.tasks[t].jobId)
      ensures s'.tasks[t].jobId in s'.inFlight
    {
      var k :| 0 <= k < |s'.jobs| && s'.jobs[k].id == s'.tasks[t].jobId;
      var m :| 0 <= m < |s.jobs| && s.jobs[m] == s'.jobs[k];
      assert Live(s, s.tasks[t].jobId);
    }
  }

  lemma {:induction false} StepKeepsInv(s: System, step: Step)
    requires Inv(s) && Enabled(s, step)
    ensures Inv(Next(s, step))
  {
    match step
    case Add(_, _, _) => AddKeepsInv(s, step);
    case Tick(_) =>
      TickKeepsNoOverlap(s, step);
      TickKeepsBalanced(s, step);
      TickKeepsSpaced(s, step);
    case Finish(_, _) => FinishKeepsInv(s, step);
    case Merge(_) =>
      MergeKeepsNoOverlap(s, step);
      MergeKeepsBalanced(s, step);
      MergeKeepsSpaced(s, step);
    case Remove(_) => RemoveKeepsInv(s, step);
  }

  lemma {:induction false} RunKeepsInv(s: System, steps: seq<Step>)
    requires Inv(s) && IsRun(s, steps)
    ensures Inv(Final(s, steps))
    decreases |steps|
  {
    if steps != [] {
      StepKeepsInv(s, steps[0]);
      RunKeepsInv(Next(s, steps[0]), steps[1..]);
    }
  }

  /** In every interleaving no two active runs are of one job. */
  lemma {:induction false} JobsNeverOverlap(steps: seq<Step>, t: nat, u: nat)
    requires IsRun(START, steps) && t < u < |Final(START, steps).tasks|
    ensures var tasks := Final(START, steps).tasks;
            tasks[t].phase == Active && tasks[u].phase == Active ==> tasks[t].jobId != tasks[u].jobId
  {
    RunKeepsInv(START, steps);
  }

  /** Every dispatch of a live job is counted by it or still to be merged. */
  lemma {:induction false} DispatchesAreAccounted(steps: seq<Step>, k: nat)
    requires IsRun(START, steps) && k < |Final(START, steps).jobs|
    ensures var s := Final(START, steps);
            Dispatches(s.tasks, s.jobs[k].id) == s.jobs[k].runCount + Unaccounted(s.tasks, s.jobs[k].id)
  {
    RunKeepsInv(START, steps);
  }

  /**
   Of two dispatches of a job the later one comes no earlier than the schedule's next time after the earlier one:
   at least an interval apart, or on another occurrence of the time of day.
   */
  lemma {:induction false} DispatchesAreSpaced(steps: seq<Step>, t: nat, u: nat)
    requires IsRun(START, steps) && t < u < |Final(START, steps).tasks|
    requires var tasks := Final(START, steps).tasks;
             tasks[t].jobId == tasks[u].jobId
    ensures var s := Final(START, steps);
            && s.tasks[t].jobId in s.schedules
            && var schedule := s.schedules[s.tasks[t].jobId];
               && NextAfter(schedule, s.tasks[t].tickTime) <= s.tasks[u].tickTime
               && (!schedule.Daily? ==> s.tasks[t].tickTime + IntervalSecs(schedule) <= s.tasks[u].tickTime)
  {
    RunKeepsInv(START, steps);
  }
}
