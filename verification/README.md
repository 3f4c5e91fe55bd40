# xiraNET gateway: verified model of its stateful components

This Dafny project models the stateful core of the xiraNET API gateway and proves what its components
promise over whole runs. `dafny verify dfyconfig.toml` checks all of it.

Every stateful component has the same three layers:

1. a value datatype for its state and one specification function per operation;
2. a class with the fields of the original object, whose methods follow the original statement by statement
   (loops, early returns, counters) and are proved equal to the specification functions;
3. lemmas about arbitrary runs of those functions: sequences of calls, interleavings of steps, or networks of
   nodes, with invariants proved step by step.

Clocks, random ids, hash functions, regular expressions, upstream responses and text functions are parameters.

## What is proved

**WAF rule replication** (`Bus`, `Waf`, `WafCluster`, `WafConvergence`, `WafRemoval`, `WafAgreement`, `Dispatcher`). Any
number of nodes add and remove rules; a call changes its node at once and spawns a publication; publications reach one
totally ordered channel in any order; each node handles the channel, its own echoes included, at its own pace. In every
run, once everything is delivered, all nodes hold the same rule ids, and every rule whose id was minted once is on all
nodes or on none. The exact condition for agreement about an id: it was issued with one content or, if each node's
publications keep their spawn order, removed somewhere; without that order a removed id ends alike in every run if and
only if its contents were one. The failing runs are constructed for any boot rules and any contents: two nodes that mint
the same id and differ for ever, with or without a removal. A removal holds if and only if the last published event
about the id is a removal, which spawn order and fresh ids guarantee; a run is constructed in which a removal overtakes
its add and is undone.

**Sessions** (`Sessions`, `SessionRuns`, `SessionRestart`, `SessionRowOrder`, `SessionLives`, `SessionBus`). The token
table, the per-user index, the cap with its eviction loop, the write-through rows and the reload. In every run with
fresh tokens and a monotone clock, restarts included: the index lists exactly what it should, no user has more live
sessions than the cap, rows and memory agree, a dead token never comes back, and a creation ends exactly the excess
sessions, the oldest ones. From its creation on a token validates exactly until its time is over and only while nobody
presents it from another address. A simulation relation between a reloaded process and the one that never stopped is
kept by every operation, so both answer every later validation alike, if and only if the reload query returned each
user's rows in list order; it has no ORDER BY, and any other order is shown up by new sessions. Three more limits of the
code are stated exactly: the 30 second throttle writes out the last use after a pause of 30 seconds, so the row of a
session in steady use lags behind without bound, against the comment at `sessions.rs:319`; a reload refuses a token in
the second of its expiry, which the running process still accepts (`sessions.rs:158` against `sessions.rs:340`), so the
simulation starts one second later; and `invalidate_all` publishes only if the local node dropped an active session,
while the repository's `README.md:645` documents the event for every call. On the bus, with any delay, reordering,
duplication or loss, an invalidation is final at every node from its local return or its delivery onward; the apply
steps are idempotent and commute.

**Windowed limiters** (`RateLimit`, `RateLimitRuns`, `Lockout`, `LockoutRuns`, `LockoutEviction`, `LoginOutcomes`, with
the shared span argument in `Windows`). A limiter whose evictor fires at arbitrary moments decides like one that never
evicts. Per window the limit holds if and only if the window saw fewer calls than the u32 counter can count. A closed
span of one window's length admits at most 2 * max - 1 requests of a client, a bound that is reached, in all runs with
up to n calls of the client in a window if and only if n is below 2^32: the very request that wraps the counter breaks
it. While fewer than 10,000 emails are in its table, the lockout allows at most 19 failed password checks of an email in
any span of 900 seconds, again reached, and a locked email stays locked until 900 seconds after its first failure. At
10,000 entries the oldest one is evicted, locked or not: a locked email stays locked if and only if it is never the
evicted one, one failure of another email can open it, and no bound on its failed checks is left. A login gets in
exactly with a password that verifies for an enabled user whose email is not locked, and an account counts exactly those
logins. The table itself never exceeds 10,000 entries.

**Circuit breaker** (`CircuitBreaker`, `BreakerRuns`). With arbitrary stale outcomes a half-open epoch admits at most 2
* half_open_max_requests - 1 requests, and a run that meets the bound is constructed for every configuration. Requests
admitted while not closed wait out the reset timeout after every earlier failure; a closed breaker opens exactly on the
threshold-th failure, a half-open one closes exactly on the success that completes its limit. With exactly one report
per admitted request the half-open state cannot wedge. Without reports (the cache hit at `src/gateway/mod.rs:291-303`
returns without one) it admits exactly as many requests as slots were free; a run into the wedge is constructed for
every configuration, and so is what any later outcome does.

**Request queue** (`RequestQueue`, `QueueProtocol`). Every interleaving of arrivals, grants, timeouts, drops and the
later accounts of drops: conservation, the depth as a count of requests by phase, the bound on the depth, and no
underflow. Pass-through mode breaks the balance from the first account on. Cancelled waiters keep their place in the
depth for ever: some later run lets a new request in if and only if fewer than twice the concurrency were cancelled.

**Log aggregator** (`LogAggregator`, `LogSearch`). After any sequence of ingests the inverted index agrees with the
retained log in both directions, across evictions, and a message is found under exactly those of its words that come
before 32 others.

**Cron and workflows** (`Cron`, `CronRuns`, `CronDispatch`, `Workflows`, `WorkflowOutcomes`). No overlap of a job's
runs, an exact account of dispatches, their spacing for every schedule, the next daily occurrence; and the workflow
executor with stop, skip and retry as a fold over arbitrary responses. A tick dispatches a job exactly if no run of it
is under way and its next time has come; what a workflow ends as, sends and reports is stated in terms of the steps'
actions and the responses alone.

**Codecs and string algorithms** (`Bitwise`, `Base32`, `Base32Numerals`, `Cidr`, `ClientIp`, `PathNormalizer`,
`Rfc3986`, `Registry`, `Routing`). The base32 loops with their truncating 64- and 32-bit accumulators against section 6
of RFC 4648 as a regrouping of bits; the CIDR masks against division by powers of two; the walk over X-Forwarded-For;
the path normaliser and its exact relation to section 5.2.4 of RFC 3986 on every absolute path; longest-prefix routing
over a table iterated in any order, a path going to the prefix whose segments are its first ones.

## Model

| member | source | states |
|---|---|---|
| Waf.Waf.constructor | src/middleware/waf.rs:181-217 | a store starts without rules and counts ids from 1 |
| Waf.Waf.ApplyAddPatternWithId | src/middleware/waf.rs:261-295 | the new store; fails exactly for a pattern that does not compile, and a known id is a success without effect |
| Waf.Waf.AddCustomPattern | src/middleware/waf.rs:229-247 | the counter moves even on failure; on success the id used was the counter and exactly that id is announced |
| Waf.Waf.ApplyRemovePattern | src/middleware/waf.rs:312-320 | removes every rule with the id and reports whether there was one, though the code only compares lengths |
| Waf.Waf.RemoveCustomPattern | src/middleware/waf.rs:298-309 | announces a removal exactly if the id was present |
| Waf.Waf.Handle | src/middleware/waf.rs:558-577 | a delivered event applies the same change as the local call and announces nothing |
| Waf.RemoveTakesExactly | src/middleware/waf.rs:312-320 | a removal takes out all rules with the id and nothing else |
| Waf.AddPutsExactly | src/middleware/waf.rs:261-295 | an add of a new id puts exactly one rule in, of a known id none |
| Waf.StoreStaysWellFormed | src/middleware/waf.rs:229-320 | every operation and event keeps ids unique and below the counter, which never goes back |
| WafCluster.StepKeepsInv | src/middleware/waf.rs:229-320 | each add, removal, publication and delivery keeps: unless something about an id is pending or undelivered to a node, the channel's last word on the id decides whether the node has it |
| WafCluster.RunKeepsInv | src/middleware/waf.rs:229-320 | that invariant over every run |
| WafCluster.IdsConverge | src/middleware/waf.rs:558-577 | once all is delivered, each node has an id exactly if the last event about it adds it, however publications were ordered |
| WafConvergence.RuleConverges | src/middleware/waf.rs:229-320 | a rule whose id was issued with one content is on every node in the end if and only if the last event about its id is an add, whatever happened to other ids |
| WafConvergence.TablesConverge | src/middleware/waf.rs:229-320 | with no id minted twice, every node ends with the same table: the issued rules whose last event is their add |
| WafConvergence.IssuedOnceAgrees | src/middleware/waf.rs:229-320 | one content, or no presence, is enough for the nodes to agree on an id, removed or not, in any order of publications |
| WafConvergence.AgreeIffIssuedOnce | src/middleware/waf.rs:229-247 | in any order of publications, the nodes agree on an id that nobody removed if and only if it was issued with one content |
| WafAgreement.AgreeIffIssuedOnceOrRemoved | src/middleware/waf.rs:229-320 | with each node's publications in spawn order, the nodes agree on any id in the end if and only if it was issued with one content or removed somewhere |
| WafAgreement.RemovedAgrees | src/middleware/waf.rs:298-320 | with that order, a removal anywhere makes the channel alone decide what every node holds under the id |
| WafAgreement.RemovedDivergesOutOfOrder | src/middleware/waf.rs:239-245 | without that order, for any boot rules and any two contents, a run in which a removed id ends with one of them on each of two nodes |
| WafAgreement.AgreeInEveryOrderIff | src/middleware/waf.rs:229-265 | without that order the nodes agree on a removed id after every run that issued one or both of two contents if and only if the two are the same |
| WafConvergence.FreshRunIsCoherent | src/middleware/waf.rs:229-247 | runs that only mint unused ids never issue an id with two contents |
| WafConvergence.SingleWriterConverges | src/middleware/waf.rs:229-320 | if all adds go through one node, all nodes converge on one table |
| WafConvergence.ConcurrentAddsDiverge | src/middleware/waf.rs:229-247 | for any boot rules and any two contents, a run of two nodes that add concurrently and end, fully delivered, with their own contents under one id |
| WafRemoval.RemovalIsFinal | src/middleware/waf.rs:298-320 | with publications in spawn order and fresh ids, a successful removal anywhere means no node has the rule in the end |
| WafRemoval.RemovalHoldsIff | src/middleware/waf.rs:298-320 | in any order of publications, a successful removal holds at a node in the end if and only if the last published event about the id is a removal |
| WafRemoval.OvertakenRemovalIsUndone | src/middleware/waf.rs:239-245 | for any boot rules and any rule, a run in which the removal is published before its add and the removed rule comes back |
| Dispatcher.EventDispatcher.Dispatch | src/bus/mod.rs:116-120 | the loop over any list of handlers, repeated ones included, makes each handler apply the event to its own state once |
| Dispatcher.ApplyingTwice | src/middleware/waf.rs:558-577 | a repeated event, such as a node's own echo, does nothing to the rule store |
| Dispatcher.EventsConcernOneHandler | src/bus/mod.rs:116-120 | every event changes at most one of the two handlers |
| Sessions.SessionManager.constructor | src/identity/sessions.rs:116-183 | the reload loop: sessions and lists are exactly the active rows that expire after now, in query order |
| Sessions.SessionManager.Create | src/identity/sessions.rs:222-304 | push, prune, evict from the front down to the cap, deactivate the evicted in memory and rows, insert and persist |
| Sessions.SessionManager.Evict | src/identity/sessions.rs:276-284 | marks exactly the given tokens inactive in both tables |
| Sessions.SessionManager.ValidateWithRequest | src/identity/sessions.rs:321-407 | accepts exactly the live tokens whose IP binding fits; a mismatch drops the session; rows lag behind by the 30 second throttle |
| Sessions.SessionManager.ApplyInvalidateToken | src/identity/sessions.rs:428-446 | drops the token from table, list and rows and reports whether it was there |
| Sessions.SessionManager.Invalidate | src/identity/sessions.rs:411-424 | announces the hashed token exactly if it was there |
| Sessions.SessionManager.ApplyInvalidateUser | src/identity/sessions.rs:463-484 | drops all listed tokens of the user and counts the active ones among them |
| Sessions.SessionManager.InvalidateAll | src/identity/sessions.rs:449-460 | announces the user exactly if an active session was dropped here |
| Sessions.SessionManager.CleanupExpired | src/identity/sessions.rs:500-519 | removes exactly the inactive and expired sessions from all three tables and counts them |
| Sessions.SessionManager.Handle | src/identity/sessions.rs:549-570 | a delivered event is the apply step without an announcement |
| SessionRuns.StepKeepsInv | src/identity/sessions.rs:222-519 | every operation, restart included, keeps: live sessions are listed, listed tokens are distinct active sessions of their user, lists are within the cap |
| SessionRuns.StepKeepsRows | src/identity/sessions.rs:185-217 | every operation keeps rows and memory equal but for last_activity, and extra rows unloadable |
| SessionRuns.RunKeepsInv | src/identity/sessions.rs:222-519 | both invariants over every run |
| SessionRuns.CapHolds | src/identity/sessions.rs:248-274 | from an empty manager, through every run and restart, a user never has more live sessions than the cap |
| SessionRuns.GoneForever | src/identity/sessions.rs:321-484 | a token that is gone or dead never validates again, whatever follows, restarts included |
| SessionLives.ValidationIs | src/identity/sessions.rs:321-407 | one validation: accepted if and only if the session is active, not past its expiry and not shown from another known address, which is the only case in which it ends |
| SessionLives.LivesIff | src/identity/sessions.rs:350-375 | over any run that does not end it otherwise, restarts included, a session lives unchanged if and only if its token was never presented from another address |
| SessionLives.CreatedValidatesIff | src/identity/sessions.rs:222-407 | from its creation on, after such a run, a token validates if and only if its time is not over, the address shown is not foreign and none shown before was |
| SessionLives.ReplayEndsForever | src/identity/sessions.rs:350-372 | a presentation from another address ends the session for good, whatever follows |
| SessionLives.RowShowsLastPause | src/identity/sessions.rs:392-401 | through any uses the row shows the last one that came after a pause of 30 seconds, and memory the last one |
| SessionLives.SteadyUseIsNotWritten | src/identity/sessions.rs:392-401 | so the row of a session in steady use can lag behind without bound |
| SessionLives.CleanupTakesExactly | src/identity/sessions.rs:500-519 | a cleanup takes exactly the inactive and expired sessions out of memory, rows and lists |
| SessionRuns.UserDropEndsAll | src/identity/sessions.rs:463-484 | a force logout ends every session of the user, listed or not, and touches nobody else's |
| SessionRuns.CreateEndsOnlyExcess | src/identity/sessions.rs:248-284 | a creation ends exactly as many live sessions of the user as the cap demands and no other session |
| SessionRuns.CreateEndsOldest | src/identity/sessions.rs:266-272 | with lists in creation order, every session ended is at most as young as every one kept |
| SessionRuns.RunKeepsAge | src/identity/sessions.rs:248-274 | without a restart the lists stay in creation order in every run |
| SessionRuns.RestartAgeIffRowOrder | src/identity/sessions.rs:143-175 | after a reload the lists are in creation order if and only if the query returned each user's rows in it |
| SessionRestart.RestartAcceptsTheSame | src/identity/sessions.rs:140-183 | the reloaded process accepts exactly the tokens the old one accepts and that expire after the reload |
| SessionRestart.StepKeepsSimilar | src/identity/sessions.rs:222-519 | every operation keeps two managers with the same live sessions and live lists similar, and validation answers equal |
| SessionRestart.SimilarRunsAnswerAlike | src/identity/sessions.rs:222-519 | similar managers give the same answers through every run |
| SessionRowOrder.OtherOrderShows | src/identity/sessions.rs:143-175 | if the rows come in another order than a user's list, new sessions of that user and one validation tell the two processes apart |
| SessionRowOrder.RestartIsInvisibleIff | src/identity/sessions.rs:116-183 | the reloaded process answers every continuation like the one that never stopped if and only if the query kept each user's live list order |
| SessionBus.RunKeepsNetInv | src/identity/sessions.rs:549-570 | the manager invariants hold at all nodes in every network run with delay, reordering and duplication |
| SessionBus.InvalidationIsFinal | src/identity/sessions.rs:411-484 | from the local return or the delivery onward the node never validates the token, or any session of the user it had, again |
| SessionBus.AnnouncedIffDropped | src/identity/sessions.rs:411-460 | an invalidation is announced if and only if it changed the session table here, and the announcement does at any other node what the call would have done there |
| SessionBus.ForceLogoutAnnouncedIff | src/identity/sessions.rs:449-460 | a force logout is announced if and only if the user's list here is not empty |
| SessionBus.ForceLogoutElsewhereIsSilent | src/identity/sessions.rs:449-460 | a network in which a force logout publishes nothing and another node goes on accepting the user |
| SessionBus.AppliesAreIdempotent | src/identity/sessions.rs:428-484 | delivering an event twice is delivering it once |
| SessionBus.AppliesCommute | src/identity/sessions.rs:428-484 | any two events can be delivered in either order |
| RateLimit.RateLimiter.constructor | src/middleware/rate_limit.rs:119-142 | an empty limiter with both limits at least 1 |
| RateLimit.RateLimiter.Call | src/middleware/rate_limit.rs:326-362 | window restart, u32 count with its wrap, decision, and the time left in the window |
| RateLimit.RateLimiter.Evict | src/middleware/rate_limit.rs:180-197 | keeps exactly the entries younger than two windows |
| RateLimitRuns.EvictionIsInvisible | src/middleware/rate_limit.rs:180-197 | a run with evictor ticks at arbitrary moments decides every request like the run without them |
| RateLimitRuns.CountsIgnoreTicks | src/middleware/rate_limit.rs:180-197 | hence admissions and window counts are those of the run without ticks |
| RateLimitRuns.TickKeepsRecent | src/middleware/rate_limit.rs:180-197 | after any run a tick keeps exactly the clients that began a window less than two windows' time ago |
| RateLimitRuns.WindowBoundIffNoWrap | src/middleware/rate_limit.rs:339-346 | per window the limit holds if and only if the window saw fewer than 2^32 calls |
| RateLimitRuns.SlidingBoundIff | src/middleware/rate_limit.rs:329-368 | if a client makes up to n calls in a window, every closed span of one window's length holds at most 2 * max - 1 of its admissions, in every run, if and only if n is below 2^32 |
| RateLimitRuns.SlidingBoundIsTight | src/middleware/rate_limit.rs:329-368 | for every configuration and client, a run without more than max calls in a window that reaches 2 * max - 1 |
| RateLimitRuns.WrapBreaksBound | src/middleware/rate_limit.rs:344-346 | a run with 2^32 calls in one window, the first count that wraps, in which a span holds at least 2 * max admissions |
| Windows.SpanSize | src/middleware/rate_limit.rs:339-346 | events in blocks of at most max that start more than a window apart: a span of one window holds at most 2 * max - 1 |
| Lockout.UserManager.LockoutCheck | src/identity/users.rs:416-432 | the remaining lockout, and the forgetting of a full count whose window is over |
| Lockout.UserManager.RecordFailure | src/identity/users.rs:434-469 | the prune at the cap, one oldest entry evicted if that is not enough, and the count of the failure |
| Lockout.UserManager.Authenticate | src/identity/users.rs:350-414 | the outcome in the order lockout, unknown user, disabled, password, MFA, and the state each outcome leaves |
| Lockout.UserManager.CheckPassword | src/identity/users.rs:357-413 | the same without the lockout |
| LoginOutcomes.LetInIff | src/identity/users.rs:350-414 | after every run a login succeeds, or asks for the second factor, if and only if the email is not locked, its user exists and is enabled and the password verifies against the stored hash; MFA decides which of the two |
| LoginOutcomes.RefusedIff | src/identity/users.rs:350-395 | and it is refused as locked, disabled or invalid exactly for the remaining cases, in that order |
| LoginOutcomes.AccountCountsLogins | src/identity/users.rs:397-402 | over any logins an account counts exactly those that got in and keeps the time of the last, and nothing else of it changes |
| LoginOutcomes.WrongPasswordsLeaveNoTrace | src/identity/users.rs:386-402 | logins of which none presents a password that verifies for a user leave its account alone |
| LoginOutcomes.AttemptsAfterLogin | src/identity/users.rs:384-469 | what one login does to the failed attempts of every email: cleared by a verified password, counted for a failure, dropped at 10,000 entries if older than 900 seconds or evicted |
| LoginOutcomes.VictimIsOldest | src/identity/users.rs:437-460 | at the cap, and only there, an oldest of the recent entries makes room |
| LockoutRuns.LoginTracks | src/identity/users.rs:350-469 | every login keeps the failures of an email in blocks of at most ten that begin a lockout window apart |
| LockoutRuns.LockoutBound | src/identity/users.rs:350-469 | any span of 900 seconds holds at most 19 of an email's failed checks since it last succeeded or lost its entry at the cap, through every sequence of logins and user changes |
| LockoutRuns.AttemptsStayBounded | src/identity/users.rs:434-469 | the table of failed attempts never exceeds 10,000 entries |
| LockoutEviction.LockKeptIff | src/identity/users.rs:434-469 | one login leaves a locked email's entry as it is if and only if it does not evict it |
| LockoutEviction.CanLoseLockIff | src/identity/users.rs:437-460 | a login can unlock a locked email before its time if and only if it fails, the table is full of recent entries and the locked one is an oldest |
| LockoutEviction.StaysLockedIff | src/identity/users.rs:350-469 | over every run until 900 seconds after its first failure, a locked email stays locked if and only if it is never the evicted entry |
| LockoutEviction.LockedUntilWindowEnds | src/identity/users.rs:416-432 | while fewer than 10,000 emails are in the table, a locked email is refused with every password after every such run, and told exactly the time left |
| LockoutEviction.BoundWithRoom | src/identity/users.rs:350-469 | while fewer than 10,000 emails are in the table, any span of 900 seconds holds at most 19 failed checks of an email without a success |
| LockoutEviction.LockoutBoundIsTight | src/identity/users.rs:350-469 | a run with a single email in the table in which one span of 900 seconds holds exactly 19 failed checks |
| LockoutEviction.EvictionUnlocks | src/identity/users.rs:446-460 | a run from the empty table in which one more failing email opens a locked one 899 seconds early |
| LockoutEviction.CapBreaksEveryBound | src/identity/users.rs:446-469 | for every number there is a run with that many failed checks of one email in one second, at the cap |
| CircuitBreaker.CircuitBreakerManager.constructor | src/gateway/circuit_breaker.rs:52-65 | limits are raised to at least 1 |
| CircuitBreaker.CircuitBreakerManager.AllowRequest | src/gateway/circuit_breaker.rs:93-145 | who is admitted in which state, and the probe account |
| CircuitBreaker.CircuitBreakerManager.RecordSuccess | src/gateway/circuit_breaker.rs:148-174 | the saturating counters and the close on the last needed success |
| CircuitBreaker.CircuitBreakerManager.RecordFailure | src/gateway/circuit_breaker.rs:177-218 | the opening by threshold or by a failed probe |
| BreakerRuns.HalfOpenAlwaysInv | src/gateway/circuit_breaker.rs:117-174 | admitted <= probes in flight + successes in every half-open epoch, despite saturating subtraction and stale outcomes |
| BreakerRuns.HalfOpenAdmitsAtMost | src/gateway/circuit_breaker.rs:117-174 | an epoch admits at most 2 * half_open_max - 1 requests |
| BreakerRuns.HalfOpenBoundIsTight | src/gateway/circuit_breaker.rs:117-174 | for every configuration a run admits exactly that many |
| BreakerRuns.ProbesWaitForReset | src/gateway/circuit_breaker.rs:104-135 | a request admitted while not closed comes a reset timeout after every earlier failure |
| BreakerRuns.ClosedCountsFailures | src/gateway/circuit_breaker.rs:177-200 | while closed the counter is the failures since the last close, below the threshold |
| BreakerRuns.OpensOnThreshold | src/gateway/circuit_breaker.rs:177-200 | a closed breaker opens on the threshold-th failure since it last closed and on nothing else |
| BreakerRuns.ClosesOnEnoughSuccesses | src/gateway/circuit_breaker.rs:148-174 | a half-open breaker closes exactly on the success that completes its limit, counted over the run since it became half-open, and opens on any failure |
| BreakerRuns.ProbesAfterReset | src/gateway/circuit_breaker.rs:104-128 | an open breaker becomes half-open exactly on a request that comes a reset timeout after every failure of the run |
| BreakerRuns.AdmitsIff | src/gateway/circuit_breaker.rs:93-145 | after any run a request is let through if and only if the breaker is closed, or open and every failure a reset timeout ago, or half-open with a free slot |
| BreakerRuns.ChangesAreStamped | src/gateway/circuit_breaker.rs:110-200 | the entry carries the time of its last change of state |
| BreakerRuns.ProbesAreOutstanding | src/gateway/circuit_breaker.rs:93-218 | probe slots in use never exceed the admitted requests that still owe a report |
| BreakerRuns.HalfOpenNeverWedges | src/gateway/circuit_breaker.rs:117-145 | with one report per admission, half-open with none outstanding admits the next request |
| BreakerRuns.AsksFillSlots | src/gateway/circuit_breaker.rs:135-143 | a half-open breaker that only gets asks admits exactly as many as slots were free and then stays as it is |
| BreakerRuns.SilentProbesWedge | src/gateway/mod.rs:291-303 | after any number of asks without a report it admits another, at any time, if and only if the asks have not used up the free slots |
| BreakerRuns.WedgeIsReached | src/gateway/mod.rs:291-303 | every configuration has a run into a half-open state that admits nothing at any time, by admitted requests that never report |
| BreakerRuns.OutcomeFreesWedge | src/gateway/circuit_breaker.rs:148-218 | from there a success admits the next request at once and a failure exactly from a reset timeout later on |
| RequestQueue.RequestQueue.Enter | src/gateway/request_queue.rs:87-106 | counts the arrival and takes it back as rejected exactly if twice the concurrency is pending |
| RequestQueue.RequestQueue.TakePermit | src/gateway/request_queue.rs:72-84 | a permit is taken exactly if there is one |
| RequestQueue.RequestQueue.SettleTimeout | src/gateway/request_queue.rs:119-123 | the rejection after a timeout, whose decrement needs a positive depth |
| RequestQueue.RequestQueue.ReleasePermit | src/gateway/request_queue.rs:36-51 | a drop frees the slot at once |
| RequestQueue.RequestQueue.SettleDrop | src/gateway/request_queue.rs:40-49 | the later account: processed, saturating depth, window of 100 waits and their average |
| QueueProtocol.StepConserves | src/gateway/request_queue.rs:36-128 | every step keeps conservation, the permit account and the depth as a count of phases; an enabled queue's decrement never underflows |
| QueueProtocol.QueueConserves | src/gateway/request_queue.rs:36-128 | in every interleaving queued = processed + rejected + depth, depth = pending requests <= 2 * max, holders <= max |
| QueueProtocol.BalanceIffEnabledOrUnused | src/gateway/request_queue.rs:70-84 | the balance holds if and only if the queue is enabled or has accounted nothing yet |
| QueueProtocol.RejectedIffPendingFull | src/gateway/request_queue.rs:96-106 | an arrival is turned away if and only if exactly twice the concurrency is pending |
| QueueProtocol.MaximumIsPeak | src/gateway/request_queue.rs:87-106 | in every run the reported maximum is the largest number of pending requests at an arrival, that one included even if it is turned away |
| QueueProtocol.AcceptsAgainIff | src/gateway/request_queue.rs:87-127 | after any run, some later run lets a new request in if and only if fewer than twice the concurrency of waiters were cancelled |
| QueueProtocol.WedgeIsReached | src/gateway/request_queue.rs:108-127 | every queue has a run that fills the depth with cancelled waiters |
| QueueProtocol.AverageIsRecent | src/gateway/request_queue.rs:43-48 | in every run the average, times their number, is the sum of the last 100 accounted waits |
| LogAggregator.LogAggregator.constructor | src/observability/log_aggregator.rs:74-84 | an empty aggregator that keeps at least one entry |
| LogAggregator.LogAggregator.Ingest | src/observability/log_aggregator.rs:86-164 | the new log, index, counters and watermark after an ingest with its eviction |
| LogAggregator.LogAggregator.IndexWords | src/observability/log_aggregator.rs:100-115 | the loop indexes exactly the first 32 distinct lowercased qualifying words |
| LogAggregator.LogAggregator.EvictOldHalf | src/observability/log_aggregator.rs:129-153 | drops the older half and everything below its watermark from the index |
| LogAggregator.LogAggregator.PruneIndex | src/observability/log_aggregator.rs:137-152 | keeps the postings from the cutoff on and drops the words left without any |
| LogAggregator.DistinctWordsAre | src/observability/log_aggregator.rs:100-115 | a word is indexable exactly if it is the lowercase of a qualifying word of the message |
| LogAggregator.IngestKeepsInv | src/observability/log_aggregator.rs:96-153 | an ingest keeps the agreement of index and log, the numbering and the cap |
| LogAggregator.IndexAgrees | src/observability/log_aggregator.rs:96-153 | after any ingests an id is posted under a word if and only if a retained entry has both; postings ascend and none is empty; ids are consecutive and the watermark is the first |
| LogSearch.KeywordIff | src/observability/log_aggregator.rs:100-115 | a message is indexed under a word if and only if it has it, as 3 to 64 bytes, at a place with fewer than 32 different such words before |
| LogSearch.FoundIff | src/observability/log_aggregator.rs:96-153 | after any ingests a message is found under a word if and only if it is retained and has the word at such a place |
| LogAggregator.NewestSurvives | src/observability/log_aggregator.rs:129-153 | the newest entry survives, the retained ones are a suffix, and an eviction drops exactly the older half |
| Cron.CronScheduler.AddJob | src/automation/cron.rs:186-217 | a new job is enabled, has not run and waits for its next time |
| Cron.CronScheduler.TakeDue | src/automation/cron.rs:230-248 | the snapshot loop: due jobs that are not in flight are taken, marked and advanced |
| Cron.CronScheduler.Finish | src/automation/cron.rs:291-291 | the end of a run clears its mark |
| Cron.CronScheduler.Merge | src/automation/cron.rs:297-325 | one result is counted on its job, if that still exists |
| Cron.CronScheduler.RemoveJob | src/automation/cron.rs:344-356 | removes the job and its mark and reports whether there was one |
| Cron.DailyWithinADayIff | src/automation/cron.rs:64-79 | a daily schedule fires later than now, at its offset modulo a day, and within a day if and only if the offset is at most a day past the time of day |
| Cron.DailyIsNextOccurrence | src/automation/cron.rs:64-79 | with a valid HH:MM it is the first such moment after now, at most a day away |
| Cron.MinutesAreExactIff | src/automation/cron.rs:52-60 | a schedule in minutes means that many unless the u64 product wraps |
| Cron.NextIsOneIntervalOnIff | src/automation/cron.rs:52-79 | the next time of a schedule in seconds, minutes or hours, at least one unit, or of an unknown expression is exactly one interval on if and only if that is a u64 |
| CronRuns.SnapshotIs | src/automation/cron.rs:230-248 | with distinct ids the snapshot takes exactly the due jobs not in flight, each once |
| CronRuns.StepKeepsInv | src/automation/cron.rs:226-356 | additions, ticks, ends, merges and removals keep the overlap guard, the account and the spacing |
| CronRuns.JobsNeverOverlap | src/automation/cron.rs:236-239 | in every interleaving no two active runs are of one job |
| CronRuns.DispatchesAreAccounted | src/automation/cron.rs:297-304 | for a live job dispatches = run_count + runs not merged yet |
| CronRuns.DispatchesAreSpaced | src/automation/cron.rs:230-248 | for every schedule, daily ones included, a later dispatch of a job comes no earlier than the schedule's next time after the earlier one; for the others that is at least the interval |
| CronDispatch.TickDispatchesIff | src/automation/cron.rs:226-248 | after any run, a tick dispatches a job if and only if no run of it is under way and the schedule's next time after its last start, or after it was added, has come |
| CronDispatch.CountersAre | src/automation/cron.rs:297-320 | in every run run_count and failure_count are the numbers of a job's accounted runs and of the failed ones among them |
| CronDispatch.MergeRecords | src/automation/cron.rs:297-325 | a merge records tick, status and counts in its own job and leaves the others alone |
| CronDispatch.RemoveTakesOut | src/automation/cron.rs:344-356 | a removal takes out its job and keeps the others in order |
| Workflows.WorkflowEngine.Create | src/automation/workflows.rs:78-93 | a new workflow is pending at its first step |
| Workflows.WorkflowEngine.Execute | src/automation/workflows.rs:99-277 | the final workflow, the error returned and the number of requests, for any responses |
| Workflows.WorkflowEngine.RunSteps | src/automation/workflows.rs:120-276 | the loop over the steps with its early returns computes the specified workflow, error and number of requests |
| Workflows.WorkflowEngine.PerformStep | src/automation/workflows.rs:130-262 | the outcome of one step with its retry loop, and the requests it sends |
| Workflows.CompletedIffAllSucceed | src/automation/workflows.rs:264-276 | a run completes if and only if every step ends in success, and otherwise fails with an error |
| WorkflowOutcomes.StepsEndAs | src/automation/workflows.rs:130-262 | in terms of actions and answers: a step is carried out if and only if none before it breaks the run; then it is failed if it does, skipped if and only if its action is Skip and its first answer no 2xx, and else a success |
| WorkflowOutcomes.StopsAt | src/automation/workflows.rs:157-262 | a run stops at a step if and only if it is the first whose action is not Skip and whose first request and allowed retries all fail |
| WorkflowOutcomes.EndsAtLastCarriedOut | src/automation/workflows.rs:150-151 | current_step is left at the last step carried out |
| WorkflowOutcomes.RequestsAre | src/automation/workflows.rs:120-214 | a step sends retries one by one, only under Retry and after failures over HTTP, until one succeeds or they are used up |
| WorkflowOutcomes.AnswerIsKept | src/automation/workflows.rs:153-217 | a carried-out step keeps the status of the last answer to its requests, or the one from before if there is none |
| WorkflowOutcomes.ErrorIs | src/automation/workflows.rs:157-276 | the error is the trouble of the step that breaks the run, else of the first one skipped, else the one from before |
| Workflows.StopsAtFirstFatal | src/automation/workflows.rs:130-262 | a fatal step leaves later steps untouched and earlier ones succeeded or, under skip, skipped |
| Workflows.ExcuseIsFirst | src/automation/workflows.rs:264-273 | a run to the end reports the problem of its first skipped step |
| Workflows.PassedIff | src/automation/workflows.rs:157-243 | a step passes if and only if its first request succeeds, or fails over HTTP under retry and one of its retries succeeds |
| Workflows.SendsAreBounded | src/automation/workflows.rs:176-214 | a run sends at least one request a step carried out and at most one plus its retries |
| Workflows.ErrorRemembersFailures | src/automation/workflows.rs:264-276 | after any number of executions a workflow shows an error if and only if it had one before or some execution failed, even if the last one completed |
| Base32.EncodeBytes | src/identity/mfa.rs:75-97 | the encoder with its 64-bit accumulator regroups the bits exactly, padding the last group with zeros |
| Base32.EmitGroups | src/identity/mfa.rs:82-88 | the inner loop moves complete groups of five bits out without losing one |
| Base32.AbsorbByte | src/identity/mfa.rs:80-88 | shifting a byte into the truncating 64-bit accumulator keeps all bits not yet emitted |
| Base32.EmitLast | src/identity/mfa.rs:91-94 | the incomplete last group is filled up with zeros and completes the encoding |
| Base32.DecodeText | src/identity/mfa.rs:100-120 | the decoder with its 32-bit accumulator regroups the bits of the symbols exactly and drops an incomplete octet |
| Base32.AbsorbSymbol | src/identity/mfa.rs:112-117 | one accumulator step keeps all bits although the shift drops the top ones |
| Base32.RoundTrip | src/identity/mfa.rs:75-120 | decoding undoes encoding for every byte sequence, and the length is ceil(8n / 5) |
| Base32Numerals.EncodeSpells | src/identity/mfa.rs:75-97 | the text read as a numeral to base 32 is the bytes read as one to base 256, times the power of two that fills up the last letter |
| Base32Numerals.DecodeSpells | src/identity/mfa.rs:100-120 | decoding letters of either case gives the bytes of the number they spell, without the bits of an incomplete octet |
| Base32Numerals.FillersChangeNothing | src/identity/mfa.rs:104-104 | padding and white space anywhere in the text change nothing |
| Base32.DecodeFailsIff | src/identity/mfa.rs:104-111 | decoding fails if and only if some character is neither skipped nor in the alphabet of either case |
| Base32.ReencodeIffCanonical | src/identity/mfa.rs:75-120 | encoding undoes decoding if and only if the text is upper case, unpadded, of a possible length and with zero padding bits |
| Cidr.ContainsIffSamePrefix | src/middleware/rate_limit.rs:81-103 | for both widths and every prefix, 0 included, the mask test is equality of the addresses divided by 2^(width - prefix) |
| Cidr.MatchersAgreeIff | src/middleware/ip_filter.rs:54-66 | for prefixes 0 to 32 the IP filter's matcher and the limiter's agree on an address if and only if the prefix is positive or the address is the network's |
| Cidr.FullMaskIsEquality | src/middleware/ip_filter.rs:58-62 | prefix 0, by the wrapped shift, and every prefix from 32 on mean the network's own address in the filter |
| ClientIp.ClientIp | src/middleware/rate_limit.rs:210-289 | the right-to-left loop with its early returns computes the specified client |
| ClientIp.RightmostUntrustedHop | src/middleware/rate_limit.rs:241-262 | behind a trusted peer the client is the rightmost non-empty untrusted hop, or the peer if that hop is no address |
| ClientIp.AllHopsTrusted | src/middleware/rate_limit.rs:263-271 | if every hop is trusted or empty the client is the leftmost hop, or the peer if that is empty |
| ClientIp.LeftPartIsIrrelevant | src/middleware/rate_limit.rs:236-262 | what stands left of the deciding hop never changes the client |
| ClientIp.UntrustedPeerIsClient | src/middleware/rate_limit.rs:221-229 | an untrusted peer is the client whatever it sends |
| ClientIp.TrustsIff | src/middleware/rate_limit.rs:220-229 | an address is trusted if and only if some entry has its family and its leading bits |
| ClientIp.WithoutProxies | src/middleware/rate_limit.rs:273-289 | without proxies the first header entry is the client if and only if it is not blank and trust_xff is set; else the peer, or unknown |
| ClientIp.HeaderMattersOnlyIfTrusted | src/middleware/rate_limit.rs:210-289 | the header can change the client only behind a trusted peer or, without proxies, under trust_xff |
| PathNormalizer.NormalizePath | src/middleware/jwt.rs:288-310 | the stack loop computes the specified normal form |
| PathNormalizer.NormalizeIsIdempotent | src/middleware/jwt.rs:288-310 | normalising twice is normalising once |
| PathNormalizer.NoDotSegmentsRemain | src/middleware/jwt.rs:288-310 | no segment of the result is "." or "..", and only the outermost can be empty |
| PathNormalizer.NormalizeNeverLengthens | src/middleware/jwt.rs:288-310 | the result is never longer than the path |
| Rfc3986.RemovalIsStandard | src/middleware/jwt.rs:288-310 | the character loop of section 5.2.4 of RFC 3986 is a fold over the segments of any absolute path, empty ones included |
| Rfc3986.CollapsedIsSameIff | src/middleware/jwt.rs:292-299 | cutting runs of slashes down to one leaves a path alone if and only if it has no two adjacent slashes |
| Rfc3986.NormalizeAgainstStandard | src/middleware/jwt.rs:288-310 | on every absolute path the normaliser gives the standard's result for the path with its runs of slashes cut down if and only if the last segment is no dot segment or the dot segments leave no name; else they differ by a final slash |
| Rfc3986.EmptySegmentsDiffer | src/middleware/jwt.rs:292-299 | "//" shows that the standard itself keeps empty segments, which the normaliser drops |
| Registry.NormalisersAgreeIff | src/registry/models.rs:57-63 | the stored and the sought normal form of a prefix agree if and only if it is not empty |
| Registry.ServiceRegistry.FindByPrefix | src/registry/mod.rs:235-246 | finds an entry with the normalised prefix if there is one, in any iteration order |
| Registry.ServiceRegistry.Register | src/registry/mod.rs:101-143 | replaces the entry found under the prefix and adds the normalised one |
| Registry.ServiceRegistry.LoadOne | src/registry/mod.rs:62-98 | adds a configured service exactly if its prefix is not taken |
| Registry.ServiceRegistry.Unregister | src/registry/mod.rs:187-206 | removes the entry and returns it |
| Registry.ServiceRegistry.Lookup | src/registry/mod.rs:209-224 | a longest non-empty prefix that matches at a segment boundary, and None if and only if none matches |
| Registry.RunKeepsInv | src/registry/mod.rs:62-206 | in every run stored prefixes are normalised and, unless empty, unique |
| Registry.LookupIsDetermined | src/registry/mod.rs:209-224 | after any run the answer does not depend on the iteration order |
| Routing.MatchesIffSegments | src/registry/mod.rs:215-215 | a path matches a prefix if and only if the segments of the prefix are the first ones of the path |
| Routing.LookupIs | src/registry/mod.rs:209-224 | a lookup returns a longest of the entries whose segments come first in the path, and nothing if and only if there is none |
| Routing.AddedAnswers | src/registry/mod.rs:62-143 | after any run a service just registered, or configured under a free prefix, answers a path if and only if the path is under its prefix and under no longer one |
| Routing.EntryStaysIff | src/registry/mod.rs:62-206 | through any run a service stays, unchanged, if and only if it is neither unregistered nor another one registered under its prefix |
| Registry.RegisteredIsFound | src/registry/mod.rs:101-143 | after any run, a service just registered is what its prefix routes to if and only if the prefix is not the root, which routes to nothing |
| Registry.EmptyPrefixIsNotReplaced | src/registry/mod.rs:235-246 | an empty prefix is never found again, so registering it twice keeps both entries |

## Left out

- SessionRowOrder.RestartIsInvisibleIff: compares answers from one second after the reload on; `RestartAcceptsTheSame`
  says what happens in that second.
- LockoutRuns.LockoutBound: forgets an email's failures when its entry is evicted; `BoundWithRoom` and
  `CapBreaksEveryBound` count them all. A disabled account's checks leave no mark in the code and are no failures here.
- SessionLives.LivesIff: creations for the same user are not among the operations that leave a session alone, since they
  can evict it; `CreateEndsOnlyExcess` and `CreateEndsOldest` say when.
- LoginOutcomes.AccountCountsLogins: for the logins between two changes of users.
- Routing.EntryStaysIff: for prefixes other than the root, under which several entries can be stored.
- WafRemoval.RemovalIsFinal: assumes publications in spawn order and fresh ids; `RemovalHoldsIff` needs neither.
- WafConvergence.AgreeIffIssuedOnce: for ids that nobody removed; `AgreeIffIssuedOnceOrRemoved` and
  `AgreeInEveryOrderIff` are about removed ones.
- WafAgreement.AgreeInEveryOrderIff: for two contents of the first id that the nodes mint, not for more of them.
- WafConvergence.TablesConverge: speaks of tables, not of the order of rules, which can differ between nodes.
- BreakerRuns.HalfOpenAdmitsAtMost: runs start with the fresh entry of a service, and the configuration is fixed.
- Cidr.MatchersAgreeIff: takes the shift by 32 as a release build does; a debug build panics on prefix 0.
- Lockout.UserManager.Authenticate: one clock reading a call, where the code reads the clock in each helper; tokens,
  password hashing and the dummy verification are parameters or left out. The code's `now - first` on a clock that
  went back is modelled as zero elapsed.
- Sessions.SessionManager.Create: one atomic step with one clock reading; the code releases the list before it inserts,
  and a second creation in between would prune the first token.
- Sessions.SessionManager.ValidateWithRequest: the user-agent comparison only writes to the log and is left out.
- ClientIp.ClientIp: takes the header already split at commas and trimmed; address syntax is a parameter.
- Workflows.WorkflowEngine.Execute: the branches for a workflow that disappears are left out (nothing removes one), and
  so are durations, the states visible between awaits, and the HTTP method and body.
- Registry.ServiceRegistry.Register: `register_advanced` differs only in fields that routing does not read; entries
  carry name, prefix and upstream only.
- RateLimit.RateLimiter.Call: the answer's Retry-After in whole seconds is left out.
- LogAggregator.LogAggregator.Ingest: levels, timestamps and the sources' last-received time are left out; sanitising,
  splitting and lowercasing are parameters. Search and statistics endpoints are not part of this model.
- QueueProtocol.QueueConserves: a vanished (cancelled) waiter counts as pending, as it does in the code; waits are real
  numbers where the code has floats.
- Machine integers: only the u32 rate counter, the breaker's saturating u32 counters, the u64 products and the
  saturating sum of cron schedules, and the base32 accumulators are bounded; other counters and times are unbounded,
  and times do not go back.
- Storage: SQLite is a map of rows whose writes succeed; encoding of rows is left out.
- Tokens are hashed by an unspecified function; runs assume that a freshly generated token's hash is not in use.
- Configuration changes during a run, such as new limits or `load_custom_patterns_from_strings`, are left out.
- Persistence of cron jobs and services, URL pinning, job panics and saturation of run counters are left out.
- `Waf::inspect`, regular expressions, cryptography, proxying, TLS, Redis, dashboards, metrics and float scoring are
  not part of this model.
