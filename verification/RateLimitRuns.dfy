/** What the limiter admits over whole runs of requests and evictor ticks. */
module RateLimitRuns {
  import opened RateLimit
  import opened Windows

  datatype Event = Request(now: nat, client: string) | Tick(now: nat)

  ghost predicate Timed(run: seq<Event>) {
    forall i, j :: 0 <= i < j < |run| ==> run[i].now <= run[j].now
  }

  function Step(c: Config, limits: map<string, Entry>, event: Event): map<string, Entry> {
    match event
    case Request(now, client) => Called(c, limits, client, now)
    case Tick(now) => Evicted(c, limits, now)
  }

  function After(c: Config, run: seq<Event>): map<string, Entry> {
    if run == [] then map[] else Step(c, After(c, run[..|run| - 1]), run[|run| - 1])
  }

  /** The decision on the last event of a run. */
  function LastAdmitted(c: Config, run: seq<Event>): bool
    requires run != [] && run[|run| - 1].Request?
  {
    var n := |run| - 1;
    Admits(c, After(c, run[..n]), run[n].client, run[n].now)
  }

  // ----- eviction is invisible

  function WithoutTicks(run: seq<Event>): seq<Event> {
    if run == [] then []
    else WithoutTicks(run[..|run| - 1]) + if run[|run| - 1].Tick? then [] else [run[|run| - 1]]
  }

  /** The evicting map lacks only entries whose window is over by now. */
  ghost predicate Trimmed(c: Config, evicting: map<string, Entry>, full: map<string, Entry>, now: nat) {
    && (forall k :: k in evicting ==> k in full && evicting[k] == full[k])
    && (forall k :: k in full && k !in evicting ==> now >= full[k].windowStart + 2 * c.window)
  }

  lemma {:induction false} EvictionTrims(c: Config, run: seq<Event>, now: nat)
    requires ConfigOk(c) && Timed(run) && forall i :: 0 <= i < |run| ==> run[i].now <= now
    ensures Trimmed(c, After(c, run), After(c, WithoutTicks(run)), now)
  {
    if run != [] {
      var n := |run| - 1;
      EvictionTrims(c, run[..n], run[n].now);
      if run[n].Request? {
        var rest := WithoutTicks(run[..n]);
        assert (rest + [run[n]])[..|rest|] == rest;
        assert After(c, WithoutTicks(run)) == Called(c, After(c, rest), run[n].client, run[n].now);
      } else {
        assert WithoutTicks(run) == WithoutTicks(run[..n]);
      }
    }
  }

  /** A limiter that evicts at arbitrary moments decides like one that never does. */
  lemma {:induction false} EvictionIsInvisible(c: Config, run: seq<Event>)
    requires ConfigOk(c) && Timed(run) && run != [] && run[|run| - 1].Request?
    ensures WithoutTicks(run) == WithoutTicks(run[..|run| - 1]) + [run[|run| - 1]]
    ensures LastAdmitted(c, run) == LastAdmitted(c, WithoutTicks(run))
    ensures LastStarts(c, run) == LastStarts(c, WithoutTicks(run))
  {
    var n := |run| - 1;
    EvictionTrims(c, run[..n], run[n].now);
    var rest := WithoutTicks(run[..n]);
    assert WithoutTicks(run)[..|rest|] == rest;
    DecidesAlike(c, After(c, run[..n]), After(c, rest), run[n].client, run[n].now);
  }

  lemma DecidesAlike(c: Config, evicting: map<string, Entry>, full: map<string, Entry>, client: string, now: nat)
    requires ConfigOk(c) && Trimmed(c, evicting, full, now)
    ensures StartsWindow(c, evicting, client, now) == StartsWindow(c, full, client, now)
    ensures Current(c, evicting, client, now) == Current(c, full, client, now)
  {
  }

  /** Request `i` of the run began a window of the client, and two windows' time from then on is not over at `now`. */
  ghost predicate BeganLately(c: Config, run: seq<Event>, client: string, i: nat, now: nat) {
    i < |run| && Asks(run[i], client) && LastStarts(c, run[..i + 1]) && now < run[i].now + 2 * c.window
  }

  lemma {:induction false} EntryIsLastStart(c: Config, run: seq<Event>, client: string) returns (i: nat)
    requires ConfigOk(c) && Timed(run) && client in After(c, run)
    ensures i < |run| && Asks(run[i], client) && LastStarts(c, run[..i + 1])
    ensures After(c, run)[client].windowStart == run[i].now
  {
    var n := |run| - 1;
    assert run[..n + 1] == run;
    if Asks(run[n], client) && LastStarts(c, run) {
      i := n;
    } else {
      i := EntryIsLastStart(c, run[..n], client);
      assert run[..n][..i + 1] == run[..i + 1];
    }
  }

  lemma {:induction false} StartedEntryStays(c: Config, run: seq<Event>, client: string, i: nat, now: nat)
    requires ConfigOk(c) && Timed(run) && BeganLately(c, run, client, i, now)
    requires forall k :: 0 <= k < |run| ==> run[k].now <= now
    ensures client in After(c, run) && run[i].now <= After(c, run)[client].windowStart
  {
    var n := |run| - 1;
    assert run[..n + 1] == run;
    if i < n {
      assert run[..n][..i + 1] == run[..i + 1];
      StartedEntryStays(c, run[..n], client, i, now);
    }
  }

  /** A tick keeps exactly the clients that began a window less than two windows' time ago: idle ones take no room. */
  lemma TickKeepsRecent(c: Config, run: seq<Event>, now: nat, client: string)
    requires ConfigOk(c) && Timed(run) && forall k :: 0 <= k < |run| ==> run[k].now <= now
    ensures client in After(c, run + [Tick(now)]) <==> exists i :: BeganLately(c, run, client, i, now)
  {
    assert (run + [Tick(now)])[..|run|] == run;
    if client in After(c, run + [Tick(now)]) {
      var i := EntryIsLastStart(c, run, client);
      assert BeganLately(c, run, client, i, now);
    }
    if i :| BeganLately(c, run, client, i, now) {
      StartedEntryStays(c, run, client, i, now);
    }
  }

  // ----- counting calls and admissions of one client

  predicate Asks(event: Event, client: string) {
    event.Request? && event.client == client
  }

  /** Whether the last event of a run begins a new window of its client. */
  function LastStarts(c: Config, run: seq<Event>): bool
    requires run != [] && run[|run| - 1].Request?
  {
    var n := |run| - 1;
    StartsWindow(c, After(c, run[..n]), run[n].client, run[n].now)
  }

  /** When the requests of a client were let through. */
  function AdmittedTimes(c: Config, run: seq<Event>, client: string): seq<nat> {
    if run == [] then []
    else
      var n := |run| - 1;
      AdmittedTimes(c, run[..n], client)
      + if Asks(run[n], client) && LastAdmitted(c, run) then [run[n].now] else []
  }

  /** Requests of a client in its current window. */
  function CallsInWindow(c: Config, run: seq<Event>, client: string): nat {
    if run == [] then 0
    else
      var n := |run| - 1;
      if !Asks(run[n], client) then CallsInWindow(c, run[..n], client)
      else (if LastStarts(c, run) then 0 else CallsInWindow(c, run[..n], client)) + 1
  }

  /** Requests of a client let through in its current window. */
  function AdmittedInWindow(c: Config, run: seq<Event>, client: string): nat {
    if run == [] then 0
    else
      var n := |run| - 1;
      if !Asks(run[n], client) then AdmittedInWindow(c, run[..n], client)
      else (if LastStarts(c, run) then 0 else AdmittedInWindow(c, run[..n], client))
           + if LastAdmitted(c, run) then 1 else 0
  }

  lemma {:induction false} CountsIgnoreTicks(c: Config, run: seq<Event>, client: string)
    requires ConfigOk(c) && Timed(run)
    ensures AdmittedTimes(c, run, client) == AdmittedTimes(c, WithoutTicks(run), client)
    ensures CallsInWindow(c, run, client) == CallsInWindow(c, WithoutTicks(run), client)
    ensures AdmittedInWindow(c, run, client) == AdmittedInWindow(c, WithoutTicks(run), client)
  {
    if run != [] {
      var n := |run| - 1;
      CountsIgnoreTicks(c, run[..n], client);
      if run[n].Request? {
        EvictionIsInvisible(c, run);
        var all := WithoutTicks(run);
        AdmittedTimesStep(c, all, client);
        assert all[..|all| - 1] == WithoutTicks(run[..n]) && all[|all| - 1] == run[n];
      } else {
        assert AdmittedTimes(c, run, client) == AdmittedTimes(c, run[..n], client);
        assert WithoutTicks(run) == WithoutTicks(run[..n]);
      }
    }
  }

  lemma AdmittedTimesStep(c: Config, run: seq<Event>, client: string)
    requires run != [] && run[|run| - 1].Request?
    ensures var n := |run| - 1;
            AdmittedTimes(c, run, client) ==
            AdmittedTimes(c, run[..n], client)
            + if Asks(run[n], client) && LastAdmitted(c, run) then [run[n].now] else []
  {
  }

  // ----- the bound per window, and the u32 counter

  ghost predicate TickFree(run: seq<Event>) {
    forall i :: 0 <= i < |run| ==> run[i].Request?
  }

  ghost predicate WindowInv(c: Config, run: seq<Event>, client: string) {
    var limits := After(c, run);
    var calls, admitted := CallsInWindow(c, run, client), AdmittedInWindow(c, run, client);
    && (client in limits <==> calls > 0)
    && (client in limits ==> limits[client].count == calls % U32)
    && (calls < U32 ==> admitted == if calls <= c.maxRequests then calls else c.maxRequests)
    && (calls >= U32 ==> admitted > c.maxRequests)
  }

  lemma {:induction false} OtherCallKeepsWindow(c: Config, run: seq<Event>, client: string)
    requires ConfigOk(c) && run != [] && run[|run| - 1].Request? && run[|run| - 1].client != client
    requires WindowInv(c, run[..|run| - 1], client)
    ensures WindowInv(c, run, client)
  {
  }

  lemma {:induction false} NewWindowInv(c: Config, run: seq<Event>, client: string)
    requires ConfigOk(c) && run != [] && Asks(run[|run| - 1], client) && LastStarts(c, run)
    ensures WindowInv(c, run, client)
  {
    StartedNow(c, run, client);
  }

  /** One more call in a window, up to the wrap of the counter and beyond. */
  lemma {:induction false} SameWindowInv(c: Config, run: seq<Event>, client: string)
    requires ConfigOk(c) && run != [] && Asks(run[|run| - 1], client) && !LastStarts(c, run)
    requires WindowInv(c, run[..|run| - 1], client)
    ensures WindowInv(c, run, client)
  {
    NextCount(CallsInWindow(c, run[..|run| - 1], client));
  }

  lemma NextCount(calls: nat)
    ensures (calls % U32 + 1) % U32 == (calls + 1) % U32
  {
  }

  lemma {:induction false} WindowAlwaysInv(c: Config, run: seq<Event>, client: string)
    requires ConfigOk(c) && TickFree(run)
    ensures WindowInv(c, run, client)
  {
    if run != [] {
      var n := |run| - 1;
      WindowAlwaysInv(c, run[..n], client);
      if !Asks(run[n], client) {
        OtherCallKeepsWindow(c, run, client);
      } else if LastStarts(c, run) {
        NewWindowInv(c, run, client);
      } else {
        SameWindowInv(c, run, client);
      }
    }
  }

  /**
   Per window: the limit holds if and only if the window saw fewer requests than a u32 can count. The
   request that wraps the counter is let through although the limit is used up.
   */
  lemma WindowBoundIffNoWrap(c: Config, run: seq<Event>, client: string)
    requires ConfigOk(c) && Timed(run)
    ensures AdmittedInWindow(c, run, client) <= c.maxRequests <==> CallsInWindow(c, run, client) < U32
  {
    CountsIgnoreTicks(c, run, client);
    WithoutTicksIsTickFree(run);
    WindowAlwaysInv(c, WithoutTicks(run), client);
  }

  lemma {:induction false} WithoutTicksIsTickFree(run: seq<Event>)
    ensures TickFree(WithoutTicks(run))
    ensures forall i :: 0 <= i < |WithoutTicks(run)| ==> WithoutTicks(run)[i] in run
    ensures Timed(run) ==> Timed(WithoutTicks(run))
  {
    if run != [] {
      var n := |run| - 1;
      WithoutTicksIsTickFree(run[..n]);
      var rest := WithoutTicks(run[..n]);
      forall i | 0 <= i < |rest| ensures rest[i] in run && (Timed(run) ==> rest[i].now <= run[n].now) {
        assert rest[i] in run[..n];
      }
    }
  }

  // ----- the sliding bound

  /** At no point of the run had the client made more than `n` calls in its window. */
  ghost predicate CallsAtMost(c: Config, run: seq<Event>, client: string, n: nat) {
    CallsInWindow(c, run, client) <= n && (run != [] ==> CallsAtMost(c, run[..|run| - 1], client, n))
  }

  ghost predicate Blocks(c: Config, run: seq<Event>, client: string, first: nat, previous: nat) {
    var times, limits := AdmittedTimes(c, run, client), After(c, run);
    && Blocked(times, c.maxRequests, c.window, first, previous, EndOf(run))
    && (client !in limits ==> times == [])
    && (client in limits ==>
          times != [] && times[first] == limits[client].windowStart
          && |times| - first == AdmittedInWindow(c, run, client))
  }

  lemma {:induction false} BlocksAlways(c: Config, run: seq<Event>, client: string) returns (first: nat, previous: nat)
    requires ConfigOk(c) && TickFree(run) && Timed(run) && CallsAtMost(c, run, client, U32 - 1)
    ensures Blocks(c, run, client, first, previous)
  {
    if run == [] {
      first, previous := 0, 0;
    } else {
      first, previous := BlocksAlways(c, run[..|run| - 1], client);
      first, previous := NextBlocks(c, run, client, first, previous);
    }
  }

  lemma {:induction false} NextBlocks(c: Config, run: seq<Event>, client: string, first: nat, previous: nat)
    returns (first': nat, previous': nat)
    requires ConfigOk(c) && TickFree(run) && Timed(run) && CallsAtMost(c, run, client, U32 - 1) && run != []
    requires Blocks(c, run[..|run| - 1], client, first, previous)
    ensures Blocks(c, run, client, first', previous')
  {
    var n := |run| - 1;
    var front := run[..n];
    WithinLimit(c, run, client);
    assert front != [] ==> front[n - 1].now <= run[n].now;
    first', previous' := first, previous;
    if Asks(run[n], client) && LastStarts(c, run) {
      AdmittedTimesStep(c, run, client);
      StartedNow(c, run, client);
      var times := AdmittedTimes(c, front, client);
      AppendNewBlock(times, c.maxRequests, c.window, first, previous, EndOf(front), run[n].now);
      first', previous' := |times|, first;
    } else if Asks(run[n], client) && LastAdmitted(c, run) {
      GrowBlock(c, run, client, first, previous);
    } else {
      KeepBlocks(c, run, client, first, previous);
    }
  }

  lemma WithinLimit(c: Config, run: seq<Event>, client: string)
    requires ConfigOk(c) && TickFree(run) && CallsInWindow(c, run, client) < U32
    ensures AdmittedInWindow(c, run, client) <= c.maxRequests
  {
    WindowAlwaysInv(c, run, client);
  }

  function EndOf(run: seq<Event>): nat {
    if run == [] then 0 else run[|run| - 1].now
  }

  /** The request that begins a window is let through, and is the first one of the window. */
  lemma StartedNow(c: Config, run: seq<Event>, client: string)
    requires ConfigOk(c) && run != [] && Asks(run[|run| - 1], client) && LastStarts(c, run)
    ensures LastAdmitted(c, run) && AdmittedInWindow(c, run, client) == 1
    ensures client in After(c, run) && After(c, run)[client].windowStart == run[|run| - 1].now
    ensures var before := After(c, run[..|run| - 1]);
            client in before ==> before[client].windowStart + c.window < run[|run| - 1].now
  {
  }

  lemma GrowBlock(c: Config, run: seq<Event>, client: string, first: nat, previous: nat)
    requires ConfigOk(c) && run != [] && Asks(run[|run| - 1], client) && !LastStarts(c, run) && LastAdmitted(c, run)
    requires Blocks(c, run[..|run| - 1], client, first, previous) && EndOf(run[..|run| - 1]) <= EndOf(run)
    requires AdmittedInWindow(c, run, client) <= c.maxRequests
    ensures Blocks(c, run, client, first, previous)
  {
    var n := |run| - 1;
    AdmittedTimesStep(c, run, client);
    var times := AdmittedTimes(c, run[..n], client);
    AppendToBlock(times, c.maxRequests, c.window, first, previous, EndOf(run[..n]), run[n].now);
  }

  lemma {:induction false} KeepBlocks(c: Config, run: seq<Event>, client: string, first: nat, previous: nat)
    requires run != [] && run[|run| - 1].Request?
    requires !Asks(run[|run| - 1], client) || (!LastStarts(c, run) && !LastAdmitted(c, run))
    requires Blocks(c, run[..|run| - 1], client, first, previous) && EndOf(run[..|run| - 1]) <= EndOf(run)
    ensures Blocks(c, run, client, first, previous)
  {
    var n := |run| - 1;
    AdmittedTimesStep(c, run, client);
    assert AdmittedTimes(c, run, client) == AdmittedTimes(c, run[..n], client);
    assert client in After(c, run) <==> client in After(c, run[..n]);
    if client in After(c, run) {
      assert After(c, run)[client].windowStart == After(c, run[..n])[client].windowStart;
      assert AdmittedInWindow(c, run, client) == AdmittedInWindow(c, run[..n], client);
    }
    var times := AdmittedTimes(c, run[..n], client);
    BlockedLater(times, c.maxRequests, c.window, first, previous, EndOf(run[..n]), EndOf(run));
  }

  /** The admissions of a client, by number, that fall into the closed span from `from` to `to`. */
  ghost function AdmissionsIn(c: Config, run: seq<Event>, client: string, from: nat, to: nat): set<nat> {
    Within(AdmittedTimes(c, run, client), from, to)
  }

  /** A closed span of one window's length from `from` on holds at most 2 * max - 1 admissions of the client. */
  ghost predicate SpanIsBounded(c: Config, run: seq<Event>, client: string, from: nat) {
    |AdmissionsIn(c, run, client, from, from + c.window)| <= 2 * c.maxRequests - 1
  }

  /** The sliding bound, over every run of requests of all clients and evictor ticks. */
  lemma SlidingBound(c: Config, run: seq<Event>, client: string, from: nat)
    requires ConfigOk(c) && Timed(run) && CallsAtMost(c, run, client, U32 - 1)
    ensures SpanIsBounded(c, run, client, from)
  {
    CountsIgnoreTicks(c, run, client);
    WithoutTicksIsTickFree(run);
    CallsAtMostWithoutTicks(c, run, client, U32 - 1);
    AdmissionsSpread(c, WithoutTicks(run), client);
    SpanSize(AdmittedTimes(c, run, client), c.maxRequests, c.window, from);
  }

  lemma AdmissionsSpread(c: Config, run: seq<Event>, client: string)
    requires ConfigOk(c) && TickFree(run) && Timed(run) && CallsAtMost(c, run, client, U32 - 1)
    ensures Spread(AdmittedTimes(c, run, client), c.maxRequests, c.window)
  {
    var first, previous := BlocksAlways(c, run, client);
  }

  lemma {:induction false} CallsAtMostWithoutTicks(c: Config, run: seq<Event>, client: string, n: nat)
    requires ConfigOk(c) && Timed(run) && CallsAtMost(c, run, client, n)
    ensures CallsAtMost(c, WithoutTicks(run), client, n)
  {
    if run != [] {
      var front := run[..|run| - 1];
      CallsAtMostWithoutTicks(c, front, client, n);
      CountsIgnoreTicks(c, run, client);
      if run[|run| - 1].Request? {
        assert WithoutTicks(run)[..|WithoutTicks(run)| - 1] == WithoutTicks(front);
      } else {
        assert WithoutTicks(run) == WithoutTicks(front);
      }
    }
  }

  // ----- where the bound is reached, and where it begins to fail

  /** The run ends with a request of the client that is admitted as often as its window's count went up. */
  ghost predicate Continues(c: Config, front: seq<Event>, run: seq<Event>, client: string, now: nat) {
    var times, times' := AdmittedTimes(c, front, client), AdmittedTimes(c, run, client);
    && TickFree(run) && Timed(run) && EndOf(run) == now
    && client in After(c, front) && client in After(c, run)
    && After(c, run)[client].windowStart == After(c, front)[client].windowStart
    && times <= times'
    && |times'| - |times| == AdmittedInWindow(c, run, client) - AdmittedInWindow(c, front, client)
    && forall k :: |times| <= k < |times'| ==> times'[k] == now
  }

  lemma Append(run: seq<Event>, now: nat, client: string) returns (longer: seq<Event>)
    requires TickFree(run) && Timed(run) && EndOf(run) <= now
    ensures longer == run + [Request(now, client)] && longer[..|longer| - 1] == run
    ensures TickFree(longer) && Timed(longer) && EndOf(longer) == now
  {
    longer := run + [Request(now, client)];
  }

  /** One more call inside the client's current window. */
  lemma CallAgain(c: Config, front: seq<Event>, client: string, now: nat) returns (run: seq<Event>)
    requires ConfigOk(c) && TickFree(front) && Timed(front) && EndOf(front) <= now
    requires client in After(c, front) && now <= After(c, front)[client].windowStart + c.window
    ensures run != [] && run[..|run| - 1] == front && Continues(c, front, run, client, now)
    ensures CallsInWindow(c, run, client) == CallsInWindow(c, front, client) + 1
  {
    run := Append(front, now, client);
    AdmittedTimesStep(c, run, client);
  }

  /** `n` more calls at one moment, inside the client's current window. */
  lemma {:induction false} CallOften(c: Config, front: seq<Event>, client: string, now: nat, n: nat, limit: nat)
    returns (run: seq<Event>)
    requires ConfigOk(c) && TickFree(front) && Timed(front) && EndOf(front) <= now && (n == 0 ==> EndOf(front) == now)
    requires client in After(c, front) && now <= After(c, front)[client].windowStart + c.window
    requires CallsAtMost(c, front, client, limit) && CallsInWindow(c, front, client) + n <= limit
    ensures Continues(c, front, run, client, now) && CallsAtMost(c, run, client, limit)
    ensures CallsInWindow(c, run, client) == CallsInWindow(c, front, client) + n
  {
    if n == 0 {
      run := front;
    } else if n == 1 {
      run := CallAgain(c, front, client, now);
    } else {
      var shorter := CallOften(c, front, client, now, n - 1, limit);
      run := CallAgain(c, shorter, client, now);
    }
  }

  /** A call that begins a window. */
  lemma CallFirst(c: Config, front: seq<Event>, client: string, now: nat, limit: nat) returns (run: seq<Event>)
    requires ConfigOk(c) && TickFree(front) && Timed(front) && EndOf(front) <= now
    requires StartsWindow(c, After(c, front), client, now) && CallsAtMost(c, front, client, limit) && 1 <= limit
    ensures TickFree(run) && Timed(run) && EndOf(run) == now && CallsAtMost(c, run, client, limit)
    ensures client in After(c, run) && After(c, run)[client].windowStart == now
    ensures CallsInWindow(c, run, client) == AdmittedInWindow(c, run, client) == 1
    ensures AdmittedTimes(c, run, client) == AdmittedTimes(c, front, client) + [now]
  {
    run := Append(front, now, client);
    StartedNow(c, run, client);
    AdmittedTimesStep(c, run, client);
  }

  /** A first window of `max` calls, all but one at its very end. */
  lemma LateWindow(c: Config, client: string) returns (run: seq<Event>)
    requires ConfigOk(c)
    ensures TickFree(run) && Timed(run) && EndOf(run) <= c.window && CallsAtMost(c, run, client, c.maxRequests)
    ensures client in After(c, run) && After(c, run)[client].windowStart == 0
    ensures var times := AdmittedTimes(c, run, client);
            |times| == c.maxRequests && forall k :: 1 <= k < |times| ==> times[k] == c.window
  {
    run := CallFirst(c, [], client, 0, c.maxRequests);
    if c.maxRequests > 1 {
      var first := run;
      run := CallOften(c, first, client, c.window, c.maxRequests - 1, c.maxRequests);
      WindowAlwaysInv(c, run, client);
    }
  }

  /** Right behind that window one with `n` calls at once. */
  lemma TwoWindows(c: Config, client: string, n: nat) returns (run: seq<Event>, admitted: nat)
    requires ConfigOk(c) && c.maxRequests <= n
    ensures Timed(run) && CallsAtMost(c, run, client, n)
    ensures admitted >= c.maxRequests && (n >= U32 ==> admitted > c.maxRequests)
    ensures |AdmissionsIn(c, run, client, c.window, 2 * c.window)| >= c.maxRequests - 1 + admitted
  {
    var early := LateWindow(c, client);
    MoreAllowed(c, early, client, c.maxRequests, n);
    var first := CallFirst(c, early, client, c.window + 1, n);
    run := CallOften(c, first, client, c.window + 1, n - 1, n);
    admitted := AdmittedInWindow(c, run, client);
    WindowAlwaysInv(c, run, client);
    BehindTheFirst(c, AdmittedTimes(c, early, client), AdmittedTimes(c, first, client), AdmittedTimes(c, run, client));
  }

  lemma BehindTheFirst(c: Config, early: seq<nat>, first: seq<nat>, times: seq<nat>)
    requires 1 <= |early| && 1 <= c.window && (forall k :: 1 <= k < |early| ==> early[k] == c.window)
    requires first == early + [c.window + 1] && first <= times
    requires forall k :: |first| <= k < |times| ==> times[k] == c.window + 1
    ensures |Within(times, c.window, 2 * c.window)| >= |times| - 1
  {
    forall k | 1 <= k < |times| ensures c.window <= times[k] <= 2 * c.window {
      assert k < |first| ==> times[k] == first[k];
    }
    AllWithin(times, 1, |times| - 1, c.window, 2 * c.window);
  }

  lemma {:induction false} MoreAllowed(c: Config, run: seq<Event>, client: string, n: nat, more: nat)
    requires CallsAtMost(c, run, client, n) && n <= more
    ensures CallsAtMost(c, run, client, more)
  {
    if run != [] {
      MoreAllowed(c, run[..|run| - 1], client, n, more);
    }
  }

  /** No smaller bound holds: `max` calls late in one window and as many early in the next are all admitted. */
  lemma SlidingBoundIsTight(c: Config, client: string) returns (run: seq<Event>, from: nat)
    requires ConfigOk(c)
    ensures Timed(run) && CallsAtMost(c, run, client, c.maxRequests)
    ensures |AdmissionsIn(c, run, client, from, from + c.window)| == 2 * c.maxRequests - 1
  {
    var admitted: nat;
    run, admitted := TwoWindows(c, client, c.maxRequests);
    from := c.window;
    MoreAllowed(c, run, client, c.maxRequests, U32 - 1);
    SlidingBound(c, run, client, from);
  }

  /** The request that wraps the counter breaks the bound. */
  lemma WrapBreaksBound(c: Config, client: string) returns (run: seq<Event>, from: nat)
    requires ConfigOk(c)
    ensures Timed(run) && CallsAtMost(c, run, client, U32)
    ensures |AdmissionsIn(c, run, client, from, from + c.window)| >= 2 * c.maxRequests
  {
    var admitted: nat;
    run, admitted := TwoWindows(c, client, U32);
    from := c.window;
  }

  /**
   The exact condition: if a client may make up to `n` calls in a window, the bound holds on every span of every
   run if and only if the u32 counter can count them.
   */
  lemma SlidingBoundIff(c: Config, client: string, n: nat)
    requires ConfigOk(c)
    ensures (forall run, from :: Timed(run) && CallsAtMost(c, run, client, n) ==> SpanIsBounded(c, run, client, from))
            <==> n < U32
  {
    if n < U32 {
      forall run, from | Timed(run) && CallsAtMost(c, run, client, n) ensures SpanIsBounded(c, run, client, from) {
        MoreAllowed(c, run, client, n, U32 - 1);
        SlidingBound(c, run, client, from);
      }
    } else {
      var run, from := WrapBreaksBound(c, client);
      MoreAllowed(c, run, client, U32, n);
      assert !SpanIsBounded(c, run, client, from);
    }
  }
}
