/** What a run of a workflow comes to, in terms of the steps' actions and the responses alone. */
module WorkflowOutcomes {
  import opened Collections
  import opened Workflows

  ghost predicate Is2xx(r: Response) {
    r.Http? && r.code / 100 == 2
  }

  /** Retry `k` is allowed: the first answer came over HTTP, and there are `max` retries, at least one. */
  ghost predicate MayRetry(step: WorkflowStep, up: Upstreams, i: nat, k: nat) {
    && up(i, 0).Http? && step.onFailure.Retry?
    && 1 <= k && (k <= step.onFailure.max || k == 1)
  }

  /** The first request fails and so does every retry, and the step may not be skipped. */
  ghost predicate Breaks(step: WorkflowStep, up: Upstreams, i: nat) {
    && !step.onFailure.Skip? && !Is2xx(up(i, 0))
    && forall k :: MayRetry(step, up, i, k) ==> !Is2xx(up(i, k))
  }

  lemma BreaksIff(step: WorkflowStep, up: Upstreams, i: nat)
    ensures Breaks(step, up, i) <==> OutcomeOf(step, up, i).Fatal?
    ensures step.onFailure.Skip? && !Is2xx(up(i, 0)) <==> OutcomeOf(step, up, i).Excused?
  {
    assert IsSuccess(up(i, 0)) <==> Is2xx(up(i, 0));
    if up(i, 0).Http? && step.onFailure.Retry? {
      RetriesIff(step, up, i);
    }
  }

  lemma RetriesIff(step: WorkflowStep, up: Upstreams, i: nat)
    requires up(i, 0).Http? && step.onFailure.Retry?
    ensures var n := Attempts(step.onFailure.max);
            FirstSuccess(up, i, 1, n) <= n <==> exists k :: MayRetry(step, up, i, k) && Is2xx(up(i, k))
  {
    var n := Attempts(step.onFailure.max);
    var r := FirstSuccess(up, i, 1, n);
    if r <= n {
      assert MayRetry(step, up, i, r) && Is2xx(up(i, r));
    }
    if k :| MayRetry(step, up, i, k) && Is2xx(up(i, k)) {
      assert IsSuccess(up(i, k));
    }
  }

  /**
   After `execute`, for every step: it was carried out if and only if no earlier step breaks the run; a step that was
   is failed if it breaks the run, skipped if and only if its action is `Skip` and its first answer is no 2xx, and a
   success otherwise.
   */
  lemma StepsEndAs(wf: Workflow, up: Upstreams, now: nat, j: nat)
    requires j < |wf.steps|
    ensures var end := Executed(wf, up, now);
            && |end.steps| == |wf.steps|
            && if exists i :: 0 <= i < j && Breaks(wf.steps[i], up, i) then end.steps[j] == wf.steps[j]
               else end.steps[j].status ==
                    if Breaks(wf.steps[j], up, j) then StepFailed
                    else if wf.steps[j].onFailure.Skip? && !Is2xx(up(j, 0)) then Skipped else StepStatus.Success
  {
    var k := FirstFatal(wf.steps, up, 0);
    BreaksIff(wf.steps[j], up, j);
    forall i | 0 <= i < |wf.steps| ensures Breaks(wf.steps[i], up, i) <==> OutcomeOf(wf.steps[i], up, i).Fatal? {
      BreaksIff(wf.steps[i], up, i);
    }
  }

  /** The step at which a run stops early is the first one that breaks it; a run without one visits all steps. */
  lemma StopsAt(wf: Workflow, up: Upstreams, now: nat, k: nat)
    requires k < |wf.steps|
    ensures var end := Executed(wf, up, now);
            (end.status == Failed && end.currentStep == k && end.steps[k].status == StepFailed) <==>
            Breaks(wf.steps[k], up, k) && forall i :: 0 <= i < k ==> !Breaks(wf.steps[i], up, i)
  {
    forall i | 0 <= i < |wf.steps| ensures Breaks(wf.steps[i], up, i) <==> OutcomeOf(wf.steps[i], up, i).Fatal? {
      BreaksIff(wf.steps[i], up, i);
    }
  }

  /** `current_step` is left at the last step carried out. */
  lemma EndsAtLastCarriedOut(wf: Workflow, up: Upstreams, now: nat, j: nat)
    requires j < |wf.steps| && forall i :: 0 <= i < j ==> !Breaks(wf.steps[i], up, i)
    requires j + 1 == |wf.steps| || Breaks(wf.steps[j], up, j)
    ensures Executed(wf, up, now).currentStep == j
  {
    forall i | 0 <= i <= j ensures Breaks(wf.steps[i], up, i) <==> OutcomeOf(wf.steps[i], up, i).Fatal? {
      BreaksIff(wf.steps[i], up, i);
    }
  }

  // ----- the requests of a step, and what is kept of their answers

  /** Retries are sent one by one, only after failures over HTTP, until one succeeds or they are used up. */
  lemma RequestsAre(step: WorkflowStep, up: Upstreams, i: nat)
    ensures var r := SendsOf(step, up, i);
            && 1 <= r
            && (forall k :: 1 <= k < r ==> MayRetry(step, up, i, k) && !Is2xx(up(i, k - 1)))
            && (MayRetry(step, up, i, r) ==> Is2xx(up(i, r - 1)))
  {
    assert IsSuccess(up(i, 0)) <==> Is2xx(up(i, 0));
    if up(i, 0).Http? && !Is2xx(up(i, 0)) && step.onFailure.Retry? {
      RetriesAre(step, up, i);
    }
  }

  lemma RetriesAre(step: WorkflowStep, up: Upstreams, i: nat)
    requires up(i, 0).Http? && !IsSuccess(up(i, 0)) && step.onFailure.Retry?
    ensures var r := SendsOf(step, up, i);
            && 1 <= r
            && (forall k :: 1 <= k < r ==> MayRetry(step, up, i, k) && !Is2xx(up(i, k - 1)))
            && (MayRetry(step, up, i, r) ==> Is2xx(up(i, r - 1)))
  {
    var n := Attempts(step.onFailure.max);
    var f := FirstSuccess(up, i, 1, n);
    forall k | 1 <= k < SendsOf(step, up, i) ensures MayRetry(step, up, i, k) && !Is2xx(up(i, k - 1)) {
      assert !IsSuccess(up(i, k - 1));
    }
    if f <= n {
      assert IsSuccess(up(i, f));
    }
  }

  /** The last answer over HTTP among the requests sent, if there is one. */
  ghost predicate LastAnswer(up: Upstreams, i: nat, r: nat, m: nat) {
    m < r && up(i, m).Http? && forall l :: m < l < r ==> up(i, l).Unreachable?
  }

  lemma {:induction false} LastCodeIs(up: Upstreams, i: nat, k: nat) returns (m: nat)
    requires up(i, 0).Http?
    ensures LastAnswer(up, i, k + 1, m) && LastCode(up, i, k) == up(i, m).code
  {
    m := k;
    if up(i, k).Unreachable? {
      m := LastCodeIs(up, i, k - 1);
    }
  }

  /** A carried-out step keeps the status of the last answer to its requests, or the one before if there is none. */
  lemma AnswerIsKept(step: WorkflowStep, up: Upstreams, i: nat)
    ensures var step', r := Applied(step, OutcomeOf(step, up, i)), SendsOf(step, up, i);
            && step'.name == step.name && step'.onFailure == step.onFailure
            && (step'.responseStatus == step.responseStatus ||
                exists m :: LastAnswer(up, i, r, m) && step'.responseStatus == Some(up(i, m).code))
            && forall m :: LastAnswer(up, i, r, m) ==> step'.responseStatus == Some(up(i, m).code)
  {
    var r := SendsOf(step, up, i);
    if up(i, 0).Http? {
      var last := LastCodeIs(up, i, r - 1);
      assert LastAnswer(up, i, r, last) && forall m :: LastAnswer(up, i, r, m) ==> m == last;
      assert OutcomeOf(step, up, i).Passed? ==> IsSuccess(up(i, r - 1)) && last == r - 1;
    }
  }

  // ----- the error

  /** What goes wrong with a step that is skipped or breaks the run. */
  ghost predicate IsTrouble(step: WorkflowStep, up: Upstreams, i: nat, problem: Problem) {
    if up(i, 0).Unreachable? then problem == NetworkError(step.name)
    else if !step.onFailure.Retry? then problem == HttpFailure(step.name, up(i, 0).code)
    else
      exists m ::
        && LastAnswer(up, i, 1 + (if step.onFailure.max == 0 then 1 else step.onFailure.max), m)
        && problem == RetriesExhausted(step.name, if step.onFailure.max == 0 then 1 else step.onFailure.max,
                                       up(i, m).code)
  }

  lemma ProblemIsTrouble(step: WorkflowStep, up: Upstreams, i: nat)
    requires !OutcomeOf(step, up, i).Passed?
    ensures IsTrouble(step, up, i, OutcomeOf(step, up, i).problem)
  {
    if up(i, 0).Http? && step.onFailure.Retry? {
      var last := LastCodeIs(up, i, Attempts(step.onFailure.max));
    }
  }

  /**
   The error after `execute` is the trouble of the first step that breaks the run; without one that of the first step
   skipped, and without that the error from before.
   */
  lemma ErrorIs(wf: Workflow, up: Upstreams, now: nat)
    ensures var end := Executed(wf, up, now);
            && end.id == wf.id
            && (forall k :: 0 <= k < |wf.steps| && Breaks(wf.steps[k], up, k)
                            && (forall i :: 0 <= i < k ==> !Breaks(wf.steps[i], up, i)) ==>
                              end.error.Some? && IsTrouble(wf.steps[k], up, k, end.error.value))
            && ((forall i :: 0 <= i < |wf.steps| ==> !Breaks(wf.steps[i], up, i)) ==>
                  if exists j :: 0 <= j < |wf.steps| && end.steps[j].status == Skipped
                  then
                    && end.error.Some?
                    && exists j :: 0 <= j < |wf.steps| && end.steps[j].status == Skipped
                                   && (forall i :: 0 <= i < j ==> end.steps[i].status != Skipped)
                                   && IsTrouble(wf.steps[j], up, j, end.error.value)
                  else end.error == wf.error)
  {
    var n := |wf.steps|;
    forall i | 0 <= i < n
      ensures Breaks(wf.steps[i], up, i) <==> OutcomeOf(wf.steps[i], up, i).Fatal?
      ensures !OutcomeOf(wf.steps[i], up, i).Passed? ==>
                IsTrouble(wf.steps[i], up, i, OutcomeOf(wf.steps[i], up, i).problem)
    {
      BreaksIff(wf.steps[i], up, i);
      if !OutcomeOf(wf.steps[i], up, i).Passed? {
        ProblemIsTrouble(wf.steps[i], up, i);
      }
    }
    if FirstFatal(wf.steps, up, 0) == n {
      ExcuseIff(wf.steps, up, n);
      if j :| 0 <= j < n && OutcomeOf(wf.steps[j], up, j).Excused? {
        var first := FirstExcused(wf.steps, up, j);
        ExcuseIsFirst(wf.steps, up, n, first);
        assert Executed(wf, up, now).steps[first].status == Skipped;
      }
    }
  }

  lemma {:induction false} FirstExcused(steps: seq<WorkflowStep>, up: Upstreams, j: nat) returns (first: nat)
    requires j < |steps| && OutcomeOf(steps[j], up, j).Excused?
    ensures first <= j && OutcomeOf(steps[first], up, first).Excused?
    ensures forall m :: 0 <= m < first ==> !OutcomeOf(steps[m], up, m).Excused?
  {
    first := j;
    if m :| 0 <= m < j && OutcomeOf(steps[m], up, m).Excused? {
      first := FirstExcused(steps, up, m);
    }
  }
}
