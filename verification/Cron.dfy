/** The cron scheduler: schedules, and the critical sections of a tick. */
module Cron {
  import opened Collections

  const DAY := 86400
  const U64_MAX := 0xFFFF_FFFF_FFFF_FFFF
  const U64 := U64_MAX + 1

  datatype Schedule =
    | EverySeconds(seconds: nat)
    | EveryMinutes(minutes: nat)
    | EveryHours(hours: nat)
    | Daily(hour: nat, minute: nat)
    | Custom(expression: string)

  function AtLeastOne(n: nat): nat {
    if n < 1 then 1 else n
  }

  /** The multiplication is on u64 and wraps in a release build. */
  function IntervalSecs(s: Schedule): nat {
    match s
    case EverySeconds(n) => AtLeastOne(n)
    case EveryMinutes(n) => AtLeastOne(n) * 60 % U64
    case EveryHours(n) => AtLeastOne(n) * 3600 % U64
    case Daily(_, _) => DAY
    case Custom(_) => 3600
  }

  function OffsetOf(s: Schedule): nat
    requires s.Daily?
  {
    s.hour * 3600 + s.minute * 60
  }

  function NextAfter(s: Schedule, now: nat): nat {
    match s
    case Daily(_, _) =>
      var dayStart := now - now % DAY;
      var targetToday := dayStart + OffsetOf(s);
      if targetToday > now then targetToday else targetToday + DAY
    case _ => if now + IntervalSecs(s) > U64_MAX then U64_MAX else now + IntervalSecs(s)
  }

  /** A daily schedule fires within a day exactly if its offset is at most a day past the time of day. */
  lemma {:induction false} DailyWithinADayIff(s: Schedule, now: nat)
    requires s.Daily?
    ensures now < NextAfter(s, now)
    ensures NextAfter(s, now) <= now + DAY <==> OffsetOf(s) <= now % DAY + DAY
    ensures NextAfter(s, now) % DAY == OffsetOf(s) % DAY
  {
    var day := now / DAY;
    assert now - now % DAY == day * DAY;
    ModOfSum(day, OffsetOf(s));
    ModOfSum(day + 1, OffsetOf(s));
  }

  lemma ModOfSum(days: nat, offset: nat)
    ensures (days * DAY + offset) % DAY == offset % DAY
  {
  }

  /** With a valid HH:MM it is the first such time of day after now. */
  lemma DailyIsNextOccurrence(s: Schedule, now: nat, t: nat)
    requires s.Daily? && s.hour < 24 && s.minute < 60
    ensures now < NextAfter(s, now) <= now + DAY && NextAfter(s, now) % DAY == OffsetOf(s)
    ensures now < t && t % DAY == OffsetOf(s) ==> NextAfter(s, now) <= t
  {
    DailyWithinADayIff(s, now);
    WholeDaysApart(t, NextAfter(s, now));
  }

  lemma WholeDaysApart(a: nat, b: nat)
    ensures a < b && a % DAY == b % DAY ==> a + DAY <= b
  {
    assert a == a / DAY * DAY + a % DAY && b == b / DAY * DAY + b % DAY;
  }

  /** Minutes mean what they say unless the multiplication wraps. */
  lemma MinutesAreExactIff(n: nat)
    ensures IntervalSecs(EveryMinutes(n)) == AtLeastOne(n) * 60 <==> AtLeastOne(n) * 60 <= U64_MAX
  {
  }

  /**
   The next time of a schedule in seconds, minutes or hours is one such interval on, taken to be at least one unit, if
   and only if that time is a u64; an unknown expression means an hour.
   */
  lemma NextIsOneIntervalOnIff(n: nat, expression: string, now: nat)
    requires now <= U64_MAX
    ensures var units := if n == 0 then 1 else n;
            && (NextAfter(EverySeconds(n), now) == now + units <==> now + units <= 0xFFFF_FFFF_FFFF_FFFF)
            && (NextAfter(EveryMinutes(n), now) == now + 60 * units <==> now + 60 * units <= 0xFFFF_FFFF_FFFF_FFFF)
            && (NextAfter(EveryHours(n), now) == now + 3600 * units <==> now + 3600 * units <= 0xFFFF_FFFF_FFFF_FFFF)
            && (NextAfter(Custom(expression), now) == now + 3600 <==> now + 3600 <= 0xFFFF_FFFF_FFFF_FFFF)
  {
    var units := if n == 0 then 1 else n;
    WrappedIff(units * 60, now);
    WrappedIff(units * 3600, now);
  }

  lemma WrappedIff(secs: nat, now: nat)
    requires now <= U64_MAX
    ensures (now + secs % U64 == now + secs && now + secs <= U64_MAX) <==> now + secs <= U64_MAX
    ensures now + secs > U64_MAX ==> now + secs % U64 < now + secs || now + secs % U64 > U64_MAX
  {
  }

  datatype Job = Job(
    id: nat, schedule: Schedule, enabled: bool, lastRun: nat, nextRun: nat, runCount: nat,
    lastStatus: Option<nat>, failureCount: nat)

  /** What a run of a job came to: an HTTP status with its success flag, or an error. */
  datatype RunResult = Answered(status: nat, success: bool) | Errored

  function Due(j: Job, now: nat): bool {
    j.enabled && now >= j.nextRun
  }

  /** The snapshot section of a tick on the first `n` jobs: the jobs, the ids in flight, the ids dispatched. */
  function Snapshot(jobs: seq<Job>, inFlight: set<nat>, now: nat, n: nat): (r: (seq<Job>, set<nat>, seq<nat>))
    requires n <= |jobs|
    ensures |r.0| == |jobs|
    ensures forall k :: n <= k < |jobs| ==> r.0[k] == jobs[k]
  {
    if n == 0 then (jobs, inFlight, [])
    else
      var (jobs', flight', due) := Snapshot(jobs, inFlight, now, n - 1);
      var j := jobs[n - 1];
      if !Due(j, now) || j.id in flight' then (jobs', flight', due)
      else (jobs'[n - 1 := j.(nextRun := NextAfter(j.schedule, now))], flight' + {j.id}, due + [j.id])
  }

  function Merged(j: Job, tickTime: nat, r: RunResult): Job {
    var counted := j.(lastRun := tickTime, runCount := j.runCount + 1);
    match r
    case Answered(status, success) =>
      counted.(lastStatus := Some(status), failureCount := if success then j.failureCount else j.failureCount + 1)
    case Errored => counted.(failureCount := j.failureCount + 1)
  }

  function PlaceOf(jobs: seq<Job>, id: nat): (r: Option<nat>)
    ensures r.Some? ==> r.value < |jobs| && jobs[r.value].id == id
    ensures r == None ==> forall k :: 0 <= k < |jobs| ==> jobs[k].id != id
  {
    if jobs == [] then None
    else if jobs[0].id == id then Some(0)
    else match PlaceOf(jobs[1..], id)
      case None =>
        assert forall k :: 1 <= k < |jobs| ==> jobs[k] == jobs[1..][k - 1];
        None
      case Some(k) => Some(k + 1)
  }

  function MergedJobs(jobs: seq<Job>, id: nat, tickTime: nat, r: RunResult): seq<Job> {
    var at := PlaceOf(jobs, id);
    if at == None then jobs else jobs[at.value := Merged(jobs[at.value], tickTime, r)]
  }

  function JobsWithout(jobs: seq<Job>, id: nat): seq<Job> {
    Keeping(jobs, set j | j in jobs && j.id != id)
  }

  class CronScheduler {
    var jobs: seq<Job>
    var inFlight: set<nat>

    constructor ()
      ensures jobs == [] && inFlight == {}
    {
      jobs, inFlight := [], {};
    }

    method AddJob(id: nat, schedule: Schedule, now: nat)
      modifies this
      ensures jobs == old(jobs) + [Job(id, schedule, true, 0, NextAfter(schedule, now), 0, None, 0)]
      ensures inFlight == old(inFlight)
    {
      jobs := jobs + [Job(id, schedule, true, 0, NextAfter(schedule, now), 0, None, 0)];
    }

    /** Section 1 of a tick, under the write lock. */
    method TakeDue(now: nat) returns (due: seq<nat>)
      modifies this
      ensures (jobs, inFlight, due) == Snapshot(old(jobs), old(inFlight), now, |old(jobs)|)
    {
      due := [];
      for i := 0 to |jobs|
        invariant |jobs| == |old(jobs)|
        invariant (jobs, inFlight, due) == Snapshot(old(jobs), old(inFlight), now, i)
      {
        var job := jobs[i];
        if !job.enabled || now < job.nextRun {
          continue;
        }
        if job.id in inFlight {
          continue;
        }
        inFlight := inFlight + {job.id};
        jobs := jobs[i := job.(nextRun := NextAfter(job.schedule, now))];
        due := due + [job.id];
      }
    }

    /** The end of a spawned run. */
    method Finish(id: nat)
      modifies this`inFlight
      ensures inFlight == old(inFlight) - {id}
    {
      inFlight := inFlight - {id};
    }

    /** Section 3 of a tick, for one result. */
    method Merge(id: nat, tickTime: nat, outcome: RunResult)
      modifies this`jobs
      ensures jobs == MergedJobs(old(jobs), id, tickTime, outcome)
    {
      var at := PlaceOf(jobs, id);
      if at.Some? {
        var job := jobs[at.value].(lastRun := tickTime, runCount := jobs[at.value].runCount + 1);
        match outcome {
          case Answered(status, success) =>
            job := job.(lastStatus := Some(status));
            if !success {
              job := job.(failureCount := job.failureCount + 1);
            }
          case Errored =>
            job := job.(failureCount := job.failureCount + 1);
        }
        jobs := jobs[at.value := job];
      }
    }

    method RemoveJob(id: nat) returns (removed: bool)
      modifies this
      ensures jobs == JobsWithout(old(jobs), id) && inFlight == old(inFlight) - {id}
      ensures removed <==> |jobs| < |old(jobs)|
    {
      var len := |jobs|;
      jobs := JobsWithout(jobs, id);
      inFlight := inFlight - {id};
      removed := |jobs| < len;
    }
  }
}
