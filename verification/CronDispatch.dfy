/** When jobs are dispatched, and what their counters say, in terms of the runs that were started and finished. */
module CronDispatch {
  import opened Collections
  import opened Cron
  import opened CronRuns

  /** The tick of the last run of a job, or the time at which it was added. */
  function LastStart(tasks: seq<Task>, id: nat, born: nat): nat {
    if tasks == [] then born
    else
      var last := tasks[|tasks| - 1];
      if last.jobId == id then last.tickTime else LastStart(tasks[..|tasks| - 1], id, born)
  }

  /** The accounted runs of a job, or those of them that failed. */
  function AccountedRuns(tasks: seq<Task>, id: nat, failed: bool): nat {
    if tasks == [] then 0
    else
      var t := tasks[|tasks| - 1];
      AccountedRuns(tasks[..|tasks| - 1], id, failed)
      + if t.jobId == id && t.phase.Accounted? && (failed ==> IsFailure(t.phase.outcome)) then 1 else 0
  }

  predicate IsFailure(r: RunResult) {
    r.Errored? || !r.success
  }

  /** A run of the job is under way. */
  ghost predicate IsRunning(s: System, id: nat) {
    exists t :: 0 <= t < |s.tasks| && s.tasks[t].jobId == id && s.tasks[t].phase == Active
  }

  ghost predicate JobOk(s: System, j: Job) {
    && j.enabled && j.id in s.born
    && j.nextRun == NextAfter(j.schedule, LastStart(s.tasks, j.id, s.born[j.id]))
    && j.runCount == AccountedRuns(s.tasks, j.id, false) && j.failureCount == AccountedRuns(s.tasks, j.id, true)
  }

  ghost predicate Kept(s: System) {
    && (forall x :: x in s.inFlight ==> IsRunning(s, x))
    && forall k :: 0 <= k < |s.jobs| ==> JobOk(s, s.jobs[k])
  }

  // ----- what an update of a task and what new tasks change

  lemma {:induction false} NeverStarted(tasks: seq<Task>, id: nat, born: nat)
    requires forall t :: 0 <= t < |tasks| ==> tasks[t].jobId != id
    ensures LastStart(tasks, id, born) == born
    ensures AccountedRuns(tasks, id, false) == AccountedRuns(tasks, id, true) == 0
  {
    if tasks != [] {
      NeverStarted(tasks[..|tasks| - 1], id, born);
    }
  }

  lemma {:induction false} TaskUpdated(tasks: seq<Task>, t: nat, phase: Phase, id: nat, born: nat)
    requires t < |tasks| && !tasks[t].phase.Accounted?
    ensures var tasks' := tasks[t := tasks[t].(phase := phase)];
            var counts := tasks[t].jobId == id && phase.Accounted?;
            && LastStart(tasks', id, born) == LastStart(tasks, id, born)
            && AccountedRuns(tasks', id, false) == AccountedRuns(tasks, id, false) + (if counts then 1 else 0)
            && AccountedRuns(tasks', id, true) ==
               AccountedRuns(tasks, id, true) + if counts && IsFailure(phase.outcome) then 1 else 0
  {
    var n := |tasks| - 1;
    var tasks' := tasks[t := tasks[t].(phase := phase)];
    if t < n {
      TaskUpdated(tasks[..n], t, phase, id, born);
      assert tasks'[..n] == tasks[..n][t := tasks[t].(phase := phase)];
    } else {
      assert tasks'[..n] == tasks[..n];
    }
  }

  lemma {:induction false} TasksAdded(tasks: seq<Task>, due: seq<nat>, now: nat, id: nat, born: nat)
    ensures var tasks' := tasks + Dispatched(due, now);
            && LastStart(tasks', id, born) == (if id in due then now else LastStart(tasks, id, born))
            && forall failed :: AccountedRuns(tasks', id, failed) == AccountedRuns(tasks, id, failed)
  {
    if due == [] {
      assert tasks + Dispatched(due, now) == tasks;
    } else {
      var n := |due| - 1;
      TasksAdded(tasks, due[..n], now, id, born);
      var tasks' := tasks + Dispatched(due, now);
      assert tasks'[..|tasks'| - 1] == tasks + Dispatched(due[..n], now);
      assert due == due[..n] + [due[n]];
    }
  }

  // ----- every step keeps it

  lemma {:induction false} AddKeeps(s: System, step: Step)
    requires Inv(s) && Kept(s) && Enabled(s, step) && step.Add?
    ensures Kept(Next(s, step))
  {
    var s' := Next(s, step);
    NeverStarted(s.tasks, step.id, step.now);
    forall x | x in s'.inFlight ensures IsRunning(s', x) {
      assert IsRunning(s, x);
    }
    forall k | 0 <= k < |s'.jobs| ensures JobOk(s', s'.jobs[k]) {
      if k < |s.jobs| {
        assert JobOk(s, s.jobs[k]) && s'.jobs[k] == s.jobs[k] && s.jobs[k].id != step.id;
      }
    }
  }

  lemma {:induction false} TickKeeps(s: System, step: Step)
    requires Inv(s) && Kept(s) && Enabled(s, step) && step.Tick?
    ensures Kept(Next(s, step))
  {
    var s' := Next(s, step);
    var due := TickSteps(s, step);
    forall x | x in s'.inFlight ensures IsRunning(s', x) {
      TickRuns(s, s', due, step.now, x);
    }
    forall k | 0 <= k < |s'.jobs| ensures JobOk(s', s'.jobs[k]) {
      assert JobOk(s, s.jobs[k]);
      TasksAdded(s.tasks, due, step.now, s.jobs[k].id, s.born[s.jobs[k].id]);
    }
  }

  lemma TickRuns(s: System, s': System, due: seq<nat>, now: nat, x: nat)
    requires s'.tasks == s.tasks + Dispatched(due, now) && (IsRunning(s, x) || x in due)
    ensures IsRunning(s', x)
  {
    if IsRunning(s, x) {
      var t :| 0 <= t < |s.tasks| && s.tasks[t].jobId == x && s.tasks[t].phase == Active;
      assert s'.tasks[t] == s.tasks[t];
    } else {
      var i :| 0 <= i < |due| && due[i] == x;
      assert s'.tasks[|s.tasks| + i].jobId == x;
    }
  }

  lemma {:induction false} FinishKeeps(s: System, step: Step)
    requires Inv(s) && Kept(s) && Enabled(s, step) && step.Finish?
    ensures Kept(Next(s, step))
  {
    var s' := Next(s, step);
    forall x | x in s'.inFlight ensures IsRunning(s', x) {
      assert IsRunning(s, x);
      var t :| 0 <= t < |s.tasks| && s.tasks[t].jobId == x && s.tasks[t].phase == Active;
      assert s'.tasks[t] == s.tasks[t];
    }
    forall k | 0 <= k < |s'.jobs| ensures JobOk(s', s'.jobs[k]) {
      assert JobOk(s, s.jobs[k]);
      TaskUpdated(s.tasks, step.task, Finished(step.outcome), s.jobs[k].id, s.born[s.jobs[k].id]);
    }
  }

  /** What a merge writes into the job it is about; the other jobs stay as they are. */
  lemma {:induction false} MergeRecords(s: System, step: Step, k: nat)
    requires Known(s) && Enabled(s, step) && step.Merge? && k < |s.jobs|
    ensures var task, j, s' := s.tasks[step.task], s.jobs[k], Next(s, step);
            && |s'.jobs| == |s.jobs|
            && s'.jobs[k] ==
               if j.id != task.jobId then j
               else j.(lastRun := task.tickTime, runCount := j.runCount + 1,
                       lastStatus := if task.phase.outcome.Answered? then Some(task.phase.outcome.status)
                                     else j.lastStatus,
                       failureCount := j.failureCount + if IsFailure(task.phase.outcome) then 1 else 0)
  {
  }

  lemma {:induction false} MergeKeeps(s: System, step: Step)
    requires Inv(s) && Kept(s) && Enabled(s, step) && step.Merge?
    ensures Kept(Next(s, step))
  {
    var s' := Next(s, step);
    forall x | x in s'.inFlight ensures IsRunning(s', x) {
      assert IsRunning(s, x);
      var t :| 0 <= t < |s.tasks| && s.tasks[t].jobId == x && s.tasks[t].phase == Active;
      assert s'.tasks[t] == s.tasks[t];
    }
    MergeEffect(s, step);
    forall k | 0 <= k < |s'.jobs| ensures JobOk(s', s'.jobs[k]) {
      assert JobOk(s, s.jobs[k]);
      MergeRecords(s, step, k);
      TaskUpdated(s.tasks, step.task, Accounted(s.tasks[step.task].phase.outcome), s.jobs[k].id,
                  s.born[s.jobs[k].id]);
    }
  }

  /** A removal takes out its job and no other, and the rest stays in order. */
  lemma {:induction false} RemoveTakesOut(jobs: seq<Job>, id: nat)
    requires DistinctIds(jobs)
    ensures var at := PlaceOf(jobs, id);
            JobsWithout(jobs, id) == if at == None then jobs else jobs[..at.value] + jobs[at.value + 1..]
  {
    var keep := set j | j in jobs && j.id != id;
    match PlaceOf(jobs, id)
    case None => KeepingAll(jobs, keep);
    case Some(k) =>
      assert jobs == jobs[..k] + [jobs[k]] + jobs[k + 1..];
      KeepingOneLess(jobs[..k], jobs[k], jobs[k + 1..], keep);
  }

  lemma KeepingOneLess(front: seq<Job>, x: Job, back: seq<Job>, keep: set<Job>)
    requires x !in keep && (forall y :: y in front ==> y in keep) && forall y :: y in back ==> y in keep
    ensures Keeping(front + [x] + back, keep) == front + back
  {
    KeepingAppend(front + [x], back, keep);
    KeepingSnoc(front, x, keep);
    KeepingAll(front, keep);
    KeepingAll(back, keep);
  }

  lemma {:induction false} KeepingAppend(a: seq<Job>, b: seq<Job>, keep: set<Job>)
    ensures Keeping(a + b, keep) == Keeping(a, keep) + Keeping(b, keep)
  {
    if b == [] {
      assert a + b == a;
    } else {
      var n := |b| - 1;
      assert (a + b)[..|a| + n] == a + b[..n];
      KeepingAppend(a, b[..n], keep);
    }
  }

  lemma {:induction false} RemoveKeeps(s: System, step: Step)
    requires Inv(s) && Kept(s) && Enabled(s, step) && step.Remove?
    ensures Kept(Next(s, step))
  {
    var s' := Next(s, step);
    forall x | x in s'.inFlight ensures IsRunning(s', x) {
      assert IsRunning(s, x);
    }
    forall k | 0 <= k < |s'.jobs| ensures JobOk(s', s'.jobs[k]) {
      assert s'.jobs[k] in s.jobs;
      var m :| 0 <= m < |s.jobs| && s.jobs[m] == s'.jobs[k];
      assert JobOk(s, s.jobs[m]);
    }
  }

  lemma {:induction false} RunKeeps(s: System, steps: seq<Step>)
    requires Inv(s) && Kept(s) && IsRun(s, steps)
    ensures Inv(Final(s, steps)) && Kept(Final(s, steps))
    decreases |steps|
  {
    if steps != [] {
      var step := steps[0];
      StepKeepsInv(s, step);
      match step {
        case Add(_, _, _) => AddKeeps(s, step);
        case Tick(_) => TickKeeps(s, step);
        case Finish(_, _) => FinishKeeps(s, step);
        case Merge(_) => MergeKeeps(s, step);
        case Remove(_) => RemoveKeeps(s, step);
      }
      RunKeeps(Next(s, step), steps[1..]);
    }
  }

  /**
   After any run, a tick dispatches a job if and only if no run of it is under way and the schedule's next time
   after its last start, or after it was added, has come.
   */
  lemma TickDispatchesIff(steps: seq<Step>, now: nat, k: nat)
    requires IsRun(START, steps) && Enabled(Final(START, steps), Tick(now)) && k < |Final(START, steps).jobs|
    ensures var s := Final(START, steps);
            var s', j := Next(s, Tick(now)), s.jobs[k];
            && j.id in s.born && s.tasks <= s'.tasks
            && ((exists t :: |s.tasks| <= t < |s'.tasks| && s'.tasks[t] == Task(j.id, now, Active)) <==>
                  !IsRunning(s, j.id) && NextAfter(j.schedule, LastStart(s.tasks, j.id, s.born[j.id])) <= now)
  {
    RunKeeps(START, steps);
    DispatchesIff(Final(START, steps), now, k);
  }

  lemma DispatchesIff(s: System, now: nat, k: nat)
    requires Inv(s) && Kept(s) && Enabled(s, Tick(now)) && k < |s.jobs|
    ensures var s', j := Next(s, Tick(now)), s.jobs[k];
            && j.id in s.born && s.tasks <= s'.tasks
            && ((exists t :: |s.tasks| <= t < |s'.tasks| && s'.tasks[t] == Task(j.id, now, Active)) <==>
                  !IsRunning(s, j.id) && NextAfter(j.schedule, LastStart(s.tasks, j.id, s.born[j.id])) <= now)
  {
    assert JobOk(s, s.jobs[k]);
    MarkedIffRunning(s, k);
    var id, due := s.jobs[k].id, Snapshot(s.jobs, s.inFlight, now, |s.jobs|).2;
    DueIff(s, now, k);
    var s' := Next(s, Tick(now));
    assert s'.tasks == s.tasks + Dispatched(due, now);
    if i :| 0 <= i < |due| && due[i] == id {
      assert s'.tasks[|s.tasks| + i] == Task(id, now, Active);
    }
    if t :| |s.tasks| <= t < |s'.tasks| && s'.tasks[t] == Task(id, now, Active) {
      assert due[t - |s.tasks|] == id;
    }
  }

  lemma DueIff(s: System, now: nat, k: nat)
    requires Inv(s) && k < |s.jobs|
    ensures s.jobs[k].id in Snapshot(s.jobs, s.inFlight, now, |s.jobs|).2 <==>
            s.jobs[k].enabled && s.jobs[k].nextRun <= now && s.jobs[k].id !in s.inFlight
  {
    SnapshotIs(s.jobs, s.inFlight, now, |s.jobs|);
    if m :| 0 <= m < |s.jobs| && s.jobs[m].id == s.jobs[k].id && Fires(s.jobs[m], s.inFlight, now) {
      assert m == k;
    }
  }

  lemma MarkedIffRunning(s: System, k: nat)
    requires Inv(s) && Kept(s) && k < |s.jobs|
    ensures s.jobs[k].id in s.inFlight <==> IsRunning(s, s.jobs[k].id)
  {
    if IsRunning(s, s.jobs[k].id) {
      assert Live(s, s.jobs[k].id);
    }
  }

  /** The counters of a job are those of its accounted runs. */
  lemma CountersAre(steps: seq<Step>, k: nat)
    requires IsRun(START, steps) && k < |Final(START, steps).jobs|
    ensures var s := Final(START, steps);
            && s.jobs[k].runCount == AccountedRuns(s.tasks, s.jobs[k].id, false)
            && s.jobs[k].failureCount == AccountedRuns(s.tasks, s.jobs[k].id, true)
  {
    RunKeeps(START, steps);
    assert JobOk(Final(START, steps), Final(START, steps).jobs[k]);
  }
}
