/** The counting part of the per-client rate limiter and its evictor. */
module RateLimit {
  const U32 := 0x1_0000_0000

  datatype Entry = Entry(count: nat, windowStart: nat)

  /** Times and the window are in one unit, say nanoseconds. */
  datatype Config = Config(maxRequests: nat, window: nat)

  ghost predicate ConfigOk(c: Config) {
    1 <= c.maxRequests < U32 && 1 <= c.window
  }

  predicate StartsWindow(c: Config, limits: map<string, Entry>, client: string, now: nat) {
    client !in limits || now > limits[client].windowStart + c.window
  }

  /** The entry before it counts the request: a new one, or the old one, restarted if its window is over. */
  function Current(c: Config, limits: map<string, Entry>, client: string, now: nat): Entry {
    if StartsWindow(c, limits, client, now) then Entry(0, now) else limits[client]
  }

  /** `entry.count += 1` on a u32, which wraps in a release build. */
  function Counted(e: Entry): Entry {
    e.(count := (e.count + 1) % U32)
  }

  function Admits(c: Config, limits: map<string, Entry>, client: string, now: nat): bool {
    Counted(Current(c, limits, client, now)).count <= c.maxRequests
  }

  function Called(c: Config, limits: map<string, Entry>, client: string, now: nat): map<string, Entry> {
    limits[client := Counted(Current(c, limits, client, now))]
  }

  function Evicted(c: Config, limits: map<string, Entry>, now: nat): map<string, Entry> {
    map k | k in limits && now < limits[k].windowStart + 2 * c.window :: limits[k]
  }

  class RateLimiter {
    const config: Config
    var limits: map<string, Entry>

    constructor (maxRequests: nat, window: nat)
      requires maxRequests < U32
      ensures limits == map[] && ConfigOk(config)
      ensures maxRequests > 0 ==> config.maxRequests == maxRequests
      ensures window > 0 ==> config.window == window
    {
      config := Config(if maxRequests > 0 then maxRequests else 1, if window > 0 then window else 1);
      limits := map[];
    }

    method Call(client: string, now: nat) returns (admitted: bool, retryAfter: nat)
      modifies this
      ensures limits == Called(config, old(limits), client, now)
      ensures admitted == Admits(config, old(limits), client, now)
      ensures !admitted ==> now + retryAfter == limits[client].windowStart + config.window
                            || (retryAfter == 0 && now > limits[client].windowStart + config.window)
    {
      var entry := if client in limits then limits[client] else Entry(0, now);
      if now > entry.windowStart + config.window {
        entry := Entry(0, now);
      }
      entry := entry.(count := (entry.count + 1) % U32);
      limits := limits[client := entry];
      admitted := entry.count <= config.maxRequests;
      retryAfter := 0;
      if !admitted && now <= entry.windowStart + config.window {
        retryAfter := entry.windowStart + config.window - now;
      }
    }

    method Evict(now: nat)
      modifies this
      ensures limits == Evicted(config, old(limits), now)
    {
      limits := map k | k in limits && now < limits[k].windowStart + 2 * config.window :: limits[k];
    }
  }
}
