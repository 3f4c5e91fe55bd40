/** The statistics and the semaphore of the request queue, one method per critical section. */
module RequestQueue {
  const WAIT_WINDOW := 100

  datatype Stats = Stats(
    queued: nat, processed: nat, rejected: nat, maxQueueDepth: nat, currentDepth: nat,
    avgWaitMs: real, waitTimes: seq<real>)

  function Zero(): Stats {
    Stats(0, 0, 0, 0, 0, 0.0, [])
  }

  function Sum(xs: seq<real>): real {
    if xs == [] then 0.0 else Sum(xs[..|xs| - 1]) + xs[|xs| - 1]
  }

  function Average(xs: seq<real>): real {
    if xs == [] then 0.0 else Sum(xs) / (|xs| as real)
  }

  /** One more wait at the back; past the window one goes from the front. */
  function Pushed(xs: seq<real>, x: real): seq<real> {
    var more := xs + [x];
    if |more| > WAIT_WINDOW then more[1..] else more
  }

  predicate Full(s: Stats, maxConcurrent: nat) {
    s.currentDepth + 1 > 2 * maxConcurrent
  }

  /** The arrival is counted first; a full queue then takes it back as rejected. */
  function Entered(s: Stats, maxConcurrent: nat): Stats {
    var depth := s.currentDepth + 1;
    var most := if depth > s.maxQueueDepth then depth else s.maxQueueDepth;
    var counted := s.(queued := s.queued + 1, maxQueueDepth := most);
    if Full(s, maxConcurrent) then counted.(rejected := s.rejected + 1) else counted.(currentDepth := depth)
  }

  function TimedOut(s: Stats): Stats
    requires s.currentDepth > 0
  {
    s.(rejected := s.rejected + 1, currentDepth := s.currentDepth - 1)
  }

  function Settled(s: Stats, waitMs: real): Stats {
    var times := Pushed(s.waitTimes, waitMs);
    s.(processed := s.processed + 1, currentDepth := if s.currentDepth > 0 then s.currentDepth - 1 else 0,
       waitTimes := times, avgWaitMs := Average(times))
  }

  class RequestQueue {
    const maxConcurrent: nat
    const enabled: bool
    var permits: nat
    var stats: Stats

    constructor (maxConcurrent: nat, enabled: bool)
      ensures this.maxConcurrent == maxConcurrent && this.enabled == enabled
      ensures permits == maxConcurrent && stats == Zero()
    {
      this.maxConcurrent, this.enabled := maxConcurrent, enabled;
      permits, stats := maxConcurrent, Zero();
    }

    /** The first critical section of an enabled `acquire`. */
    method Enter() returns (accepted: bool)
      modifies this`stats
      ensures stats == Entered(old(stats), maxConcurrent)
      ensures accepted == !Full(old(stats), maxConcurrent)
    {
      stats := stats.(queued := stats.queued + 1, currentDepth := stats.currentDepth + 1);
      if stats.currentDepth > stats.maxQueueDepth {
        stats := stats.(maxQueueDepth := stats.currentDepth);
      }
      accepted := true;
      if stats.currentDepth > maxConcurrent * 2 {
        stats := stats.(rejected := stats.rejected + 1, currentDepth := stats.currentDepth - 1);
        accepted := false;
      }
    }

    method TakePermit() returns (taken: bool)
      modifies this`permits
      ensures taken == (old(permits) > 0)
      ensures permits == if taken then old(permits) - 1 else old(permits)
    {
      taken := permits > 0;
      if taken {
        permits := permits - 1;
      }
    }

    /** The critical section after the 30 second timeout; the decrement is on a u64. */
    method SettleTimeout()
      requires stats.currentDepth > 0
      modifies this`stats
      ensures stats == TimedOut(old(stats))
    {
      stats := stats.(rejected := stats.rejected + 1);
      stats := stats.(currentDepth := stats.currentDepth - 1);
    }

    /** Dropping a permit: the slot is free at once, the account comes later. */
    method ReleasePermit()
      modifies this`permits
      ensures permits == old(permits) + 1
    {
      permits := permits + 1;
    }

    /** What `Drop` spawns: the account, at some later time. */
    method SettleDrop(waitMs: real)
      modifies this`stats
      ensures stats == Settled(old(stats), waitMs)
    {
      stats := stats.(processed := stats.processed + 1,
                      currentDepth := if stats.currentDepth > 0 then stats.currentDepth - 1 else 0);
      stats := stats.(waitTimes := stats.waitTimes + [waitMs]);
      if |stats.waitTimes| > WAIT_WINDOW {
        stats := stats.(waitTimes := stats.waitTimes[1..]);
      }
      stats := stats.(avgWaitMs := Average(stats.waitTimes));
    }
  }
}
