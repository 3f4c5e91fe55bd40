/** The workflow engine: a loop over steps with stop, skip and retry, against any responses of the upstreams. */
module Workflows {
  import opened Collections

  datatype FailureAction = Stop | Skip | Retry(max: nat)

  datatype StepStatus = StepPending | StepRunning | Success | StepFailed | Skipped

  datatype WorkflowStatus = Pending | Running | Completed | Failed | Cancelled

  /** The error texts, by what they report. */
  datatype Problem =
    | NotFound
    | HttpFailure(step: string, code: nat)
    | NetworkError(step: string)
    | RetriesExhausted(step: string, attempts: nat, lastCode: nat)

  datatype WorkflowStep = WorkflowStep(
    name: string, onFailure: FailureAction, status: StepStatus, responseStatus: Option<nat>)

  datatype Workflow = Workflow(
    id: string, steps: seq<WorkflowStep>, status: WorkflowStatus, currentStep: nat,
    finishedAt: Option<nat>, error: Option<Problem>)

  datatype Response = Http(code: nat) | Unreachable

  /** What the upstream of step `i` answers to its `k`-th request; request 0 is the first try. */
  type Upstreams = (nat, nat) -> Response

  predicate IsSuccess(r: Response) {
    r.Http? && 200 <= r.code < 300
  }

  function Attempts(max: nat): nat {
    if max < 1 then 1 else max
  }

  // ----- what one step comes to

  datatype Outcome =
    | Passed(code: nat)
    | Excused(lastCode: Option<nat>, problem: Problem)
    | Fatal(lastCode: Option<nat>, problem: Problem)

  /** The first retry from `k` on that succeeds, or one past the last. */
  function FirstSuccess(up: Upstreams, i: nat, k: nat, attempts: nat): (r: nat)
    requires k <= attempts + 1
    ensures k <= r <= attempts + 1
    ensures forall j :: k <= j < r ==> !IsSuccess(up(i, j))
    ensures r <= attempts ==> IsSuccess(up(i, r))
    decreases attempts + 1 - k
  {
    if k > attempts || IsSuccess(up(i, k)) then k else FirstSuccess(up, i, k + 1, attempts)
  }

  /** The last HTTP status among the requests 0 to `k`; an unreachable upstream leaves the status before. */
  function LastCode(up: Upstreams, i: nat, k: nat): nat
    requires up(i, 0).Http?
  {
    if up(i, k).Http? then up(i, k).code else LastCode(up, i, k - 1)
  }

  function OutcomeOf(step: WorkflowStep, up: Upstreams, i: nat): Outcome {
    match up(i, 0)
    case Unreachable =>
      if step.onFailure.Skip? then Excused(None, NetworkError(step.name)) else Fatal(None, NetworkError(step.name))
    case Http(code) =>
      if IsSuccess(up(i, 0)) then Passed(code)
      else match step.onFailure
        case Stop => Fatal(Some(code), HttpFailure(step.name, code))
        case Skip => Excused(Some(code), HttpFailure(step.name, code))
        case Retry(max) =>
          var n := Attempts(max);
          var k := FirstSuccess(up, i, 1, n);
          if k <= n then Passed(up(i, k).code)
          else Fatal(Some(LastCode(up, i, n)), RetriesExhausted(step.name, n, LastCode(up, i, n)))
  }

  /** The requests that the step sends. */
  function SendsOf(step: WorkflowStep, up: Upstreams, i: nat): nat {
    if up(i, 0).Http? && !IsSuccess(up(i, 0)) && step.onFailure.Retry? then
      var n := Attempts(step.onFailure.max);
      var k := FirstSuccess(up, i, 1, n);
      if k <= n then 1 + k else 1 + n
    else 1
  }

  function Applied(step: WorkflowStep, o: Outcome): WorkflowStep {
    match o
    case Passed(code) => step.(status := Success, responseStatus := Some(code))
    case Excused(code, _) =>
      step.(status := Skipped, responseStatus := if code.Some? then code else step.responseStatus)
    case Fatal(code, _) =>
      step.(status := StepFailed, responseStatus := if code.Some? then code else step.responseStatus)
  }

  // ----- what a whole run comes to

  /** The first step from `i` on that is fatal, or the number of steps. */
  function FirstFatal(steps: seq<WorkflowStep>, up: Upstreams, i: nat): (r: nat)
    requires i <= |steps|
    ensures i <= r <= |steps|
    ensures forall j :: i <= j < r ==> !OutcomeOf(steps[j], up, j).Fatal?
    ensures r < |steps| ==> OutcomeOf(steps[r], up, r).Fatal?
    decreases |steps| - i
  {
    if i == |steps| || OutcomeOf(steps[i], up, i).Fatal? then i else FirstFatal(steps, up, i + 1)
  }

  /** The problem of the first excused step among the first `n`. */
  function FirstExcuse(steps: seq<WorkflowStep>, up: Upstreams, n: nat): Option<Problem>
    requires n <= |steps|
  {
    if n == 0 then None
    else
      var earlier := FirstExcuse(steps, up, n - 1);
      if earlier.Some? then earlier
      else match OutcomeOf(steps[n - 1], up, n - 1)
        case Excused(_, problem) => Some(problem)
        case _ => None
  }

  /** The steps after the first `n` have been carried out. */
  function AppliedFirst(steps: seq<WorkflowStep>, up: Upstreams, n: nat): (r: seq<WorkflowStep>)
    requires n <= |steps|
    ensures |r| == |steps|
    ensures forall j :: n <= j < |steps| ==> r[j] == steps[j]
    ensures forall j :: 0 <= j < n ==> r[j] == Applied(steps[j], OutcomeOf(steps[j], up, j))
  {
    if n == 0 then steps
    else
      var i := n - 1;
      AppliedFirst(steps, up, i)[i := Applied(steps[i], OutcomeOf(steps[i], up, i))]
  }

  function SendsOfFirst(steps: seq<WorkflowStep>, up: Upstreams, n: nat): nat
    requires n <= |steps|
  {
    if n == 0 then 0 else SendsOfFirst(steps, up, n - 1) + SendsOf(steps[n - 1], up, n - 1)
  }

  /** The workflow once `execute` returns. */
  function Executed(wf: Workflow, up: Upstreams, now: nat): Workflow {
    var n := |wf.steps|;
    var k := FirstFatal(wf.steps, up, 0);
    if k < n then
      Workflow(wf.id, AppliedFirst(wf.steps, up, k + 1), Failed, k, Some(now),
               Some(OutcomeOf(wf.steps[k], up, k).problem))
    else
      var excuse := FirstExcuse(wf.steps, up, n);
      Workflow(wf.id, AppliedFirst(wf.steps, up, n), if excuse.Some? then Failed else Completed,
               if n > 0 then n - 1 else wf.currentStep, Some(now), if excuse.Some? then excuse else wf.error)
  }

  function IndexOf(workflows: seq<Workflow>, id: string): (r: Option<nat>)
    ensures r.Some? ==> r.value < |workflows| && workflows[r.value].id == id
    ensures r.Some? ==> forall j :: 0 <= j < r.value ==> workflows[j].id != id
    ensures r == None ==> forall j :: 0 <= j < |workflows| ==> workflows[j].id != id
  {
    if workflows == [] then None
    else if workflows[0].id == id then Some(0)
    else match IndexOf(workflows[1..], id)
      case None =>
        assert forall j :: 1 <= j < |workflows| ==> workflows[j] == workflows[1..][j - 1];
        None
      case Some(j) => Some(j + 1)
  }

  class WorkflowEngine {
    var workflows: seq<Workflow>

    constructor ()
      ensures workflows == []
    {
      workflows := [];
    }

    method Create(id: string, steps: seq<WorkflowStep>)
      modifies this
      ensures workflows == old(workflows) + [Workflow(id, steps, Pending, 0, None, None)]
    {
      workflows := workflows + [Workflow(id, steps, Pending, 0, None, None)];
    }

    method Execute(id: string, up: Upstreams, now: nat) returns (failure: Option<Problem>, sends: nat)
      modifies this
      ensures var at := IndexOf(old(workflows), id);
              if at == None then workflows == old(workflows) && failure == Some(NotFound) && sends == 0
              else
                var wf := old(workflows)[at.value];
                var k := FirstFatal(wf.steps, up, 0);
                && workflows == old(workflows)[at.value := Executed(wf, up, now)]
                && failure == (if k < |wf.steps| then Some(OutcomeOf(wf.steps[k], up, k).problem) else None)
                && sends == SendsOfFirst(wf.steps, up, if k < |wf.steps| then k + 1 else k)
    {
      sends := 0;
      var at := IndexOf(workflows, id);
      if at == None {
        return Some(NotFound), 0;
      }
      var wf;
      wf, failure, sends := RunSteps(workflows[at.value], up, now);
      workflows := workflows[at.value := wf];
    }

    /** The loop over the steps, and what it leaves of the workflow. */
    method RunSteps(start: Workflow, up: Upstreams, now: nat)
      returns (wf: Workflow, failure: Option<Problem>, sends: nat)
      ensures wf == Executed(start, up, now)
      ensures var k := FirstFatal(start.steps, up, 0);
              && failure == (if k < |start.steps| then Some(OutcomeOf(start.steps[k], up, k).problem) else None)
              && sends == SendsOfFirst(start.steps, up, if k < |start.steps| then k + 1 else k)
    {
      var steps := start.steps;
      ghost var k := FirstFatal(steps, up, 0);
      sends := 0;
      wf := start.(status := Running);
      var firstFailure: Option<Problem> := None;
      for i := 0 to |steps|
        invariant i <= k
        invariant wf == start.(steps := AppliedFirst(steps, up, i), status := Running,
                               currentStep := if i > 0 then i - 1 else start.currentStep)
        invariant firstFailure == FirstExcuse(steps, up, i)
        invariant sends == SendsOfFirst(steps, up, i)
      {
        wf := wf.(currentStep := i);
        var outcome, used := PerformStep(steps[i], up, i);
        sends := sends + used;
        wf := wf.(steps := wf.steps[i := Applied(wf.steps[i], outcome)]);
        match outcome {
          case Passed(_) =>
          case Excused(_, problem) =>
            if firstFailure == None {
              firstFailure := Some(problem);
            }
          case Fatal(_, problem) =>
            wf := wf.(status := Failed, error := Some(problem), finishedAt := Some(now));
            return wf, Some(problem), sends;
        }
      }
      if firstFailure.Some? {
        wf := wf.(status := Failed, error := firstFailure);
      } else {
        wf := wf.(status := Completed);
      }
      wf := wf.(finishedAt := Some(now));
      failure := None;
    }

    /** One step: the first request and, for a failed one under `Retry`, the retry loop. */
    method PerformStep(step: WorkflowStep, up: Upstreams, i: nat) returns (outcome: Outcome, sends: nat)
      ensures outcome == OutcomeOf(step, up, i) && sends == SendsOf(step, up, i)
    {
      var result := up(i, 0);
      sends := 1;
      match result {
        case Unreachable =>
          if step.onFailure.Skip? {
            return Excused(None, NetworkError(step.name)), sends;
          }
          return Fatal(None, NetworkError(step.name)), sends;
        case Http(code) =>
          if IsSuccess(result) {
            return Passed(code), sends;
          }
          match step.onFailure {
            case Stop => return Fatal(Some(code), HttpFailure(step.name, code)), sends;
            case Skip => return Excused(Some(code), HttpFailure(step.name, code)), sends;
            case Retry(max) =>
              var attempts := if max > 1 then max else 1;
              var lastStatus := code;
              var attempt := 1;
              while attempt <= attempts
                invariant 1 <= attempt <= attempts + 1
                invariant FirstSuccess(up, i, 1, attempts) == FirstSuccess(up, i, attempt, attempts)
                invariant lastStatus == LastCode(up, i, attempt - 1) && sends == attempt
              {
                var retry := up(i, attempt);
                sends := sends + 1;
                if retry.Http? {
                  lastStatus := retry.code;
                  if IsSuccess(retry) {
                    return Passed(lastStatus), sends;
                  }
                }
                attempt := attempt + 1;
              }
              return Fatal(Some(lastStatus), RetriesExhausted(step.name, attempts, lastStatus)), sends;
          }
      }
    }
  }

  // ----- the outcome refines the responses

  /** A run completes exactly if every step ends in success; otherwise it has failed. */
  lemma CompletedIffAllSucceed(wf: Workflow, up: Upstreams, now: nat)
    ensures var end := Executed(wf, up, now);
            && (end.status == Completed <==> forall j :: 0 <= j < |end.steps| ==> end.steps[j].status == Success)
            && (end.status != Completed ==> end.status == Failed && end.error.Some?)
            && end.finishedAt == Some(now)
  {
    var n := |wf.steps|;
    var k := FirstFatal(wf.steps, up, 0);
    var end := Executed(wf, up, now);
    ExcuseIff(wf.steps, up, k);
    if k < n {
      assert end.steps[k].status == StepFailed;
    } else if end.status == Failed {
      var j :| 0 <= j < n && OutcomeOf(wf.steps[j], up, j).Excused?;
      assert end.steps[j].status == Skipped;
    }
  }

  lemma {:induction false} ExcuseIff(steps: seq<WorkflowStep>, up: Upstreams, n: nat)
    requires n <= |steps|
    ensures FirstExcuse(steps, up, n).Some? <==> exists j :: 0 <= j < n && OutcomeOf(steps[j], up, j).Excused?
  {
    if n > 0 {
      ExcuseIff(steps, up, n - 1);
    }
  }

  /** The reported problem of a run to the end is that of its first skipped step. */
  lemma {:induction false} ExcuseIsFirst(steps: seq<WorkflowStep>, up: Upstreams, n: nat, j: nat)
    requires j < n <= |steps| && OutcomeOf(steps[j], up, j).Excused?
    requires forall m :: 0 <= m < j ==> !OutcomeOf(steps[m], up, m).Excused?
    ensures FirstExcuse(steps, up, n) == Some(OutcomeOf(steps[j], up, j).problem)
  {
    if n == j + 1 {
      ExcuseIff(steps, up, j);
    } else {
      ExcuseIsFirst(steps, up, n - 1, j);
    }
  }

  /**
   Where a run stops: a fatal step `k` leaves every later step as it was, every earlier one succeeded or
   skipped, and its own problem as the error; without one every step was carried out.
   */
  lemma StopsAtFirstFatal(wf: Workflow, up: Upstreams, now: nat, j: nat)
    requires j < |wf.steps|
    ensures var end := Executed(wf, up, now);
            var k := FirstFatal(wf.steps, up, 0);
            && (j > k ==> end.steps[j] == wf.steps[j])
            && (j == k ==> end.steps[j].status == StepFailed && end.currentStep == k && end.status == Failed)
            && (j < k ==> end.steps[j].status == Success || end.steps[j].status == Skipped)
            && (j < k && end.steps[j].status == Skipped ==> wf.steps[j].onFailure == Skip)
  {
  }

  /** A step passes exactly if its first request succeeds, or fails over HTTP and one of its retries succeeds. */
  lemma {:induction false} PassedIff(step: WorkflowStep, up: Upstreams, i: nat)
    ensures OutcomeOf(step, up, i).Passed? <==>
            IsSuccess(up(i, 0)) ||
            (up(i, 0).Http? && step.onFailure.Retry? &&
             exists k :: 1 <= k <= Attempts(step.onFailure.max) && IsSuccess(up(i, k)))
  {
  }

  function RetryBudget(steps: seq<WorkflowStep>): nat {
    if steps == [] then 0
    else
      var last := steps[|steps| - 1];
      RetryBudget(steps[..|steps| - 1]) + 1 + if last.onFailure.Retry? then Attempts(last.onFailure.max) else 0
  }

  /** No run sends more than one request a step plus its retries. */
  lemma {:induction false} SendsAreBounded(steps: seq<WorkflowStep>, up: Upstreams, n: nat)
    requires n <= |steps|
    ensures n <= SendsOfFirst(steps, up, n) <= RetryBudget(steps[..n])
  {
    if n > 0 {
      SendsAreBounded(steps, up, n - 1);
      assert steps[..n][..n - 1] == steps[..n - 1];
    }
  }

  /** The workflow after it was executed several times, each time against other responses. */
  function AfterRuns(wf: Workflow, runs: seq<Upstreams>, now: nat): Workflow {
    if runs == [] then wf else Executed(AfterRuns(wf, runs[..|runs| - 1], now), runs[|runs| - 1], now)
  }

  ghost predicate SomeFailed(wf: Workflow, runs: seq<Upstreams>, now: nat) {
    runs != [] && (SomeFailed(wf, runs[..|runs| - 1], now) || AfterRuns(wf, runs, now).status == Failed)
  }

  lemma ErrorAfterRun(wf: Workflow, up: Upstreams, now: nat)
    ensures Executed(wf, up, now).error.Some? <==> wf.error.Some? || Executed(wf, up, now).status == Failed
  {
    CompletedIffAllSucceed(wf, up, now);
  }

  /**
   The error of a workflow remembers every failure: after any number of executions there is one if and only if
   there was one before or some execution failed, even if the last one completed.
   */
  lemma {:induction false} ErrorRemembersFailures(wf: Workflow, runs: seq<Upstreams>, now: nat)
    ensures AfterRuns(wf, runs, now).error.Some? <==> wf.error.Some? || SomeFailed(wf, runs, now)
  {
    if runs != [] {
      var front := runs[..|runs| - 1];
      ErrorRemembersFailures(wf, front, now);
      ErrorAfterRun(AfterRuns(wf, front, now), runs[|runs| - 1], now);
    }
  }
}
