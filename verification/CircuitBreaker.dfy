/** The circuit breaker of each upstream service. */
module CircuitBreaker {
  import opened Collections

  const U32_MAX := 0xFFFF_FFFF

  datatype CircuitState = Closed | Open | HalfOpen

  datatype Entry = Entry(
    state: CircuitState, failureCount: nat, successCountHalfOpen: nat, inFlightProbes: nat,
    lastFailureTime: Option<nat>, lastStateChange: nat)

  /** Both limits are u32 values that the constructor raises to at least 1. */
  datatype Config = Config(failureThreshold: nat, resetTimeout: nat, halfOpenMax: nat)

  ghost predicate ConfigOk(c: Config) {
    1 <= c.failureThreshold <= U32_MAX && 1 <= c.halfOpenMax <= U32_MAX
  }

  function SaturatingInc(n: nat): nat {
    if n < U32_MAX then n + 1 else U32_MAX
  }

  function SaturatingDec(n: nat): nat {
    if n > 0 then n - 1 else 0
  }

  function Fresh(now: nat): Entry {
    Entry(Closed, 0, 0, 0, None, now)
  }

  predicate Admits(c: Config, e: Entry, now: nat) {
    match e.state
    case Closed => true
    case Open =>
      && e.lastFailureTime.Some? && now >= e.lastFailureTime.value
      && now - e.lastFailureTime.value >= c.resetTimeout
    case HalfOpen => e.inFlightProbes < c.halfOpenMax
  }

  function Allowed(c: Config, e: Entry, now: nat): Entry {
    if !Admits(c, e, now) then e
    else match e.state
      case Closed => e
      case Open => e.(state := HalfOpen, successCountHalfOpen := 0, inFlightProbes := 1, lastStateChange := now)
      case HalfOpen => e.(inFlightProbes := SaturatingInc(e.inFlightProbes))
  }

  function Succeeded(c: Config, e: Entry, now: nat): Entry {
    if e.state != HalfOpen then e
    else
      var successes := SaturatingInc(e.successCountHalfOpen);
      if successes >= c.halfOpenMax
      then Entry(Closed, 0, successes, 0, e.lastFailureTime, now)
      else e.(successCountHalfOpen := successes, inFlightProbes := SaturatingDec(e.inFlightProbes))
  }

  function Failed(c: Config, e: Entry, now: nat): Entry {
    var failures := SaturatingInc(e.failureCount);
    var counted := e.(failureCount := failures, lastFailureTime := Some(now));
    match e.state
    case Closed => if failures >= c.failureThreshold then counted.(state := Open, lastStateChange := now) else counted
    case HalfOpen => counted.(state := Open, inFlightProbes := 0, successCountHalfOpen := 0, lastStateChange := now)
    case Open => counted
  }

  class CircuitBreakerManager {
    var breakers: map<string, Entry>
    const config: Config

    /** The entry of a service, as `entry(..).or_insert(..)` would find it. */
    function EntryOf(id: string, now: nat): Entry
      reads this
    {
      if id in breakers then breakers[id] else Fresh(now)
    }

    constructor (failureThreshold: nat, resetTimeout: nat, halfOpenMax: nat)
      requires failureThreshold <= U32_MAX && halfOpenMax <= U32_MAX
      ensures breakers == map[] && ConfigOk(config) && config.resetTimeout == resetTimeout
      ensures failureThreshold > 0 ==> config.failureThreshold == failureThreshold
      ensures halfOpenMax > 0 ==> config.halfOpenMax == halfOpenMax
    {
      breakers := map[];
      config := Config(if failureThreshold > 0 then failureThreshold else 1, resetTimeout,
                       if halfOpenMax > 0 then halfOpenMax else 1);
    }

    method AllowRequest(id: string, now: nat) returns (refused: Option<CircuitState>)
      modifies this
      ensures breakers == old(breakers)[id := Allowed(config, old(EntryOf(id, now)), now)]
      ensures refused == if Admits(config, old(EntryOf(id, now)), now) then None
                         else Some(old(EntryOf(id, now)).state)
    {
      var entry := EntryOf(id, now);
      refused := None;
      match entry.state {
        case Closed =>
        case Open =>
          if entry.lastFailureTime.Some? && now >= entry.lastFailureTime.value
             && now - entry.lastFailureTime.value >= config.resetTimeout {
            entry := entry.(state := HalfOpen, successCountHalfOpen := 0, inFlightProbes := 1, lastStateChange := now);
          } else {
            refused := Some(Open);
          }
        case HalfOpen =>
          if entry.inFlightProbes < config.halfOpenMax {
            entry := entry.(inFlightProbes := SaturatingInc(entry.inFlightProbes));
          } else {
            refused := Some(HalfOpen);
          }
      }
      breakers := breakers[id := entry];
    }

    method RecordSuccess(id: string, now: nat)
      modifies this
      ensures breakers == if id in old(breakers) then old(breakers)[id := Succeeded(config, old(breakers)[id], now)]
                          else old(breakers)
    {
      if id in breakers {
        var entry := breakers[id];
        if entry.state == HalfOpen {
          entry := entry.(successCountHalfOpen := SaturatingInc(entry.successCountHalfOpen),
                          inFlightProbes := SaturatingDec(entry.inFlightProbes));
          if entry.successCountHalfOpen >= config.halfOpenMax {
            entry := entry.(state := Closed, failureCount := 0, inFlightProbes := 0, lastStateChange := now);
          }
        }
        breakers := breakers[id := entry];
      }
    }

    method RecordFailure(id: string, now: nat)
      modifies this
      ensures breakers == old(breakers)[id := Failed(config, old(EntryOf(id, now)), now)]
    {
      var entry := EntryOf(id, now);
      entry := entry.(failureCount := SaturatingInc(entry.failureCount), lastFailureTime := Some(now));
      match entry.state {
        case Closed =>
          if entry.failureCount >= config.failureThreshold {
            entry := entry.(state := Open, lastStateChange := now);
          }
        case HalfOpen =>
          entry := entry.(state := Open, inFlightProbes := 0, successCountHalfOpen := 0, lastStateChange := now);
        case Open =>
      }
      breakers := breakers[id := entry];
    }
  }
}
