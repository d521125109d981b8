# A verified model of the rust-utils control loops

The crate `rust-utils` is a set of small control loops over asynchronous primitives. This project
models those loops in Dafny and proves what they guarantee over every run.

What belongs to other crates or to the outside world is an adversary: a clock that never runs
backwards (`Machine.Instant`, nanoseconds), the instant at which a cancellation token fires
(`Machine.Token`), the results of user closures, the answers of a server, the entropy behind jitter,
and the order in which concurrent parties take their steps. A theorem quantifies over all of it.
Durations are nanoseconds up to the real `Duration::MAX`; 32-bit and 64-bit widths, saturation and
the cast of a length to 32 bits are written out.

| file | what it models |
|---|---|
| `backoff.dfy` | machine types and the clock; delay arithmetic, jitter, the cancel-aware sleep |
| `supervisor.dfy` | the restart loop, proved against a reference that keeps no state |
| `supervisor_guarantees.dfy` | sliding-window budget, termination, cancellation, backoff curve |
| `supervisor_meaning.dfy` | what a run of that loop reports, told from the script alone |
| `supervisor_cap.dfy` | the largest restart cap, and the fastest run a policy allows |
| `validation.dfy` | the one-pass JSON structure scan, proved against a two-stage reference |
| `json.dfy` | JSON texts of RFC 8259 (sections 2 to 7) as trees, and the scan of all of them |
| `throttle.dfy` | the throttle, its spacing, and the optimality of greedy admission |
| `retry.dfy` | the generic retry combinator |
| `http_retry.dfy` | retrying HTTP clients stacked around each other |
| `http_meaning.dfy` | what one such client does around whatever it wraps, told attempt by attempt |
| `http_cancellation.dfy` | what such a stack still sends after its token has fired |
| `worker_pool.dfy`, `worker_pool_object.dfy` | the pool as a step system, and the object taking its steps |
| `shutdown.dfy`, `shutdown_object.dfy` | the shutdown protocol as a step system, and the controller taking its steps |
| `rate_limit.dfy` | the rate-limit shorthand and the quota built from it |

How the pieces fit. Code that loops or mutates is a method or a class; each is tied by its
postcondition to functions of the adversary's script, and the theorems are about those functions.
`Supervision.Run` keeps a lazily pruned deque and a counter; its reference filters the full history
and looks for the latest healthy run. What a run returns is told once more, from the script alone and
down to the nanosecond, by a description that fits one report only (`SupervisionMeaning.RunMeaning`,
`GenericRetry.RunMeaning`, `HttpMeaning.SendMeaning`). `Validation.ValidateJsonStructure` is an automaton; its
reference blanks out string literals and then looks at prefix depths. The concurrent components are
step systems whose runs are all interleavings.

## Where the code and its documentation differ

The model follows the code. Each difference has an exact condition, or an example, proved:

- The delay is `base * 2^(attempt-1)` only up to attempt 32 (`Backoff.DelayMatchesFormulaIff`).
- Jitter never draws the upper end of `[0, computed]` (`Backoff.JitterRange`).
- A restart cap of 2^32 - 1 never fires, because of the cast to 32 bits
  (`MaximalCap.MaximalCapNeverFires`). Whether the budget is kept all the same depends on how fast the
  backoffs let the loop turn (`MaximalCap.BudgetKeptIff`, `MaximalCap.MaximalCapByHand`).
- The budget error of the supervisor carries no report of the supervised future
  (`SupervisionGuarantees.ErrorsCarryNoReport`, for every policy and script).
- A zero backoff does not look at the token, so a cancelled retry loop may go on
  (`GenericRetry.HonoursCancelIff`).
- Brackets are matched by count and not by kind (`Validation.KindsAreNotCompared`; which accepted texts
  have matching kinds: `Validation.KindsAgreeIff`).
- Closing the tracker does not keep tasks out: one spawned after the wait is satisfied is left behind,
  and only such a one (`Shutdown.OkMeansNobodyLeft`, `Shutdown.OkWithATaskLeft`).
- The timeout report is counted after the timeout, so it may count other tasks than those in flight at
  the timeout, or none (`Shutdown.ReportMeaning`, `Shutdown.TimeoutWithNobodyLeft`,
  `Shutdown.TimeoutBehindReopening`).
- The rate-limit shorthand, which returns an option, panics on a string whose last character is not
  ASCII (`RateLimit.PanicsIff`, `RateLimit.FiveMicroPanics`).
- A retrying client is documented to abort the moment its token fires. That holds for every backoff that
  has a length (`HttpCancellation.TraceFollowsToken`). A server that answers `Retry-After: 0` makes it go
  on all the same (`HttpCancellation.FiredTokenWholeBudget`; exactly which stacks stop, with and without
  such servers: `HttpCancellation.HonoursCancelIff`).
- `active()` "slightly overestimates the number of running tasks", without a number
  (src/concurrency/worker_pool.rs:113-118). When at most `t` tasks leave at once unseen, the least bound is
  the cap plus one plus `t` (`WorkerPools.ActiveBoundIff`); without such a `t` there is none
  (`WorkerPools.ActiveUnboundedOtherwise`).

## Model

| member | source | states |
|---|---|---|
| Backoff.DelayExact | src/backoff.rs:26-37 | in exact nanoseconds and despite two saturations, the un-jittered delay is base * 2^(attempt-1) capped for attempts 0 (read as 1) to 32, and base * (2^32 - 1) capped beyond |
| Backoff.DelayMatchesFormulaIff | src/backoff.rs:13-37 | the documented formula holds at an attempt if and only if the attempt is at most 32, or the base is zero, or the cap is at most base * (2^32 - 1) |
| Backoff.FormulaFailsAtAttempt33 | src/backoff.rs:31-33 | a concrete attempt at which the documented formula fails |
| Backoff.DelayMonotone | src/backoff.rs:26-37 | the un-jittered delay never decreases from attempt to attempt, also across the 32/33 boundary, and never exceeds the cap |
| Backoff.ZeroDelayIff | src/backoff.rs:26-37 | without jitter a backoff is skipped exactly when base or cap is zero |
| Backoff.JitterStrictlyBelow | src/backoff.rs:46-56 | a jittered delay is strictly below a non-zero capped delay, also one beyond 64-bit nanoseconds |
| Backoff.JitterRange | src/backoff.rs:39-56 | the delays that some entropy draws are exactly those below the capped delay that fit 64 bits |
| Backoff.DelayBounds | src/backoff.rs:26-56 | with or without jitter a delay is at most the cap and at most base * 2^(attempt-1) for every attempt |
| Backoff.JitterUniform | src/backoff.rs:39-56 | among the first n entropies every delay that can be drawn is drawn floor(n / m) or one more times, m being the capped delay in 64-bit nanoseconds; for all 2^64 of them too |
| Backoff.DelayIff | src/backoff.rs:26-56 | for every entropy the delay is exactly the one described: the doubled base under the cap, or with jitter what remains of the entropy when multiples of that are taken away |
| Supervision.Prune | src/concurrency/supervisor.rs:281-289 | the popping loop leaves exactly what filtering the deque by age keeps |
| Supervision.RecentTwice | src/concurrency/supervisor.rs:277-289 | filtering what an earlier filter kept equals filtering the full history, so lazy pruning loses nothing |
| Supervision.PushKeepsWindow | src/concurrency/supervisor.rs:277-289 | pushing onto the pruned deque of the previous round and filtering gives the filter of all restarts ever recorded |
| Supervision.Turn | src/concurrency/supervisor.rs:205-327 | one turn: its verdict, whether the factory is called, the backoff it requests, and the deque and counter it leaves |
| Supervision.TakeTurn | src/concurrency/supervisor.rs:205-327 | a turn carries the loop's variables from the values the stateless reference gives at its head to those at the next head, or to the reference's result |
| Supervision.Run | src/concurrency/supervisor.rs:190-328 | for every script the loop returns the outcome, number of factory calls and backoffs that a reference without deque and counter reads off the script |
| SupervisionMeaning.RunMeaning | src/concurrency/supervisor.rs:190-328 | outcome, factory calls and backoffs are exactly those told from the script alone: the run ends at the first round with one of six causes, read off instants, exit and the restart cap places earlier, and each backoff is in nanoseconds that of its place behind the latest long run |
| SupervisionMeaning.UncappedNeverExhausted | src/concurrency/supervisor.rs:291-303 | without a cap no run ends with RetryExhausted |
| SupervisionMeaning.UncappedGoesOn | src/concurrency/supervisor.rs:235-326 | without a cap and uncancelled a round that is reached is followed by a restart exactly for a failure, a clean return under restart_on_ok and a panic under restart_on_panic |
| SupervisionGuarantees.WindowContents | src/concurrency/supervisor.rs:277-292 | at every budget check the deque is, in order, all recorded restarts of age at most the window; it is sorted and not empty |
| SupervisionGuarantees.DequeBounded | src/concurrency/supervisor.rs:291-303 | with a cap below 2^32 - 1 the deque holds at most cap + 1 entries, and at most cap for a restart that is performed |
| SupervisionGuarantees.SlidingWindowBudget | src/concurrency/supervisor.rs:107-127 | in every run, every closed interval as long as the window contains at most cap performed restarts |
| SupervisionGuarantees.SpanBudget | src/concurrency/supervisor.rs:107-127 | a span T contains at most cap * (floor(T / window) + 1) performed restarts |
| MaximalCap.BudgetKeptIff | src/concurrency/supervisor.rs:107-127 | over all runs in which sleeps last at least their delay, the budget is kept if and only if the cap is below 2^32 - 1, or there is a window and even the fastest run needs longer than it for one restart more than the cap |
| MaximalCap.MaximalCapNeverFires | src/concurrency/supervisor.rs:291-293 | with the cap 2^32 - 1 no run at all ends with RetryExhausted |
| MaximalCap.FarApart | src/concurrency/supervisor.rs:225-326 | between any performed restart and the n-th after it at least the least span of n restarts passes, however runs and backoffs fall |
| MaximalCap.FastestRun | src/concurrency/supervisor.rs:225-326 | some run performs n further restarts within the least span |
| MaximalCap.MaximalCapByHand | src/concurrency/supervisor.rs:291-326 | for the cap 2^32 - 1: overrun without a window, or when no backoff need take time, or when the delays of a streak never reset fit in the window; kept when 2^32 - 1 times the smaller of base and backoff cap exceeds it |
| SupervisionGuarantees.ExhaustedIff | src/concurrency/supervisor.rs:277-303 | RetryExhausted is returned at a round exactly when the window holds cap + 1 restarts, that is, when the restart recorded cap places earlier is still inside it |
| SupervisionGuarantees.TotalBudget | src/concurrency/supervisor.rs:205-303 | without a window the loop ends within cap + 1 turns: at most cap + 1 factory calls and cap restarts |
| SupervisionGuarantees.CrashLoopExhausts | src/concurrency/supervisor.rs:184-187 | with the token quiet up to the last join and every exit restartable it is exactly cap + 1 calls and then RetryExhausted, without the report of the last failure |
| SupervisionGuarantees.ErrorsCarryNoReport | src/concurrency/supervisor.rs:235-303 | under every policy and in every run an error carries no report of the supervised future as its cause |
| SupervisionGuarantees.CancelStopsRestarts | src/concurrency/supervisor.rs:205-223 | after the token has fired at most one further factory call starts, whatever the backoffs, and the loop ends no later than the next turn's head |
| SupervisionGuarantees.CancelSeenIsOk | src/concurrency/supervisor.rs:205-326 | a cancellation visible at the head, after the join, or in a non-zero backoff gives Ok there |
| SupervisionGuarantees.ErrorOnlyBeforeCancel | src/concurrency/supervisor.rs:217-303 | an error is returned only if the token had not fired by that turn's post-run check |
| SupervisionGuarantees.ExitDecides | src/concurrency/supervisor.rs:235-275 | in a whole run: which exits end it with Concurrency or with Ok, and that an error report alone never does |
| SupervisionGuarantees.StreakMeaning | src/concurrency/supervisor.rs:225-233 | the counter of the reference is the number of restarts since the latest run that lasted at least max_backoff, that run's own included |
| SupervisionGuarantees.BackoffWithinStreak | src/concurrency/supervisor.rs:305-311 | between long runs un-jittered backoffs never shrink, and all stay under the cap |
| SupervisionGuarantees.BackoffBounds | src/concurrency/supervisor.rs:305-311 | every backoff is bounded by the cap and by the doubling of its place in the streak; after a run of at least max_backoff it is at most the base |
| SupervisionGuarantees.RequestedBackoff | src/concurrency/supervisor.rs:305-326 | the i-th sleep that Run reports is the backoff of the i-th restart |
| Validation.FeedConcat | src/network/validation.rs:34-77 | scanning is compositional: a prefix leaves nothing behind but the state |
| Validation.DepthIsBalance | src/network/validation.rs:56-75 | a prefix depth is the number of `{` and `[` less the number of `}` and `]`, and no other byte counts |
| Validation.LiteralEndsIff | src/network/validation.rs:43-55 | a string literal ends at the first quote with an even number of backslashes right before it inside the literal, and at no other byte |
| Validation.MaskedFromQuote | src/network/validation.rs:43-58 | up to the next quote nothing is masked, and what is masked there is exactly its literal |
| Validation.MaskedSkips | src/network/validation.rs:43-58 | where no quote follows nothing is masked at all |
| Validation.ScanLiteral | src/network/validation.rs:43-55 | from inside a literal the scan comes out behind the first quote preceded by an even run of backslashes, or ends inside |
| Validation.ScanRefinesReference | src/network/validation.rs:34-95 | on arbitrary bytes the verdict describes the text: Ok iff no string is open at the end, all prefix depths of the masked text lie in [0, max] and the last is 0; otherwise the error at the least violating position, an open string before unmatched openers |
| Validation.VerdictUnique | src/network/validation.rs:34-95 | no other verdict describes the text |
| Validation.RejectionIsFinal | src/network/validation.rs:28-31 | a rejected prefix decides: the same error is returned whatever follows |
| Validation.AcceptedUnderIff | src/network/validation.rs:59-66 | a text accepted under one limit is accepted under another exactly when that one is at least as deep as every prefix |
| Validation.AcceptedOpenersMatch | src/network/validation.rs:25-26 | in an accepted text every opening bracket has a closing one at which the depth first returns |
| Validation.KindsAreNotCompared | src/network/validation.rs:34-77 | texts that differ only in which opener, or which closer, stands at a place are scanned alike from every state and under every limit |
| Validation.MixedPairAccepted | src/network/validation.rs:59-74 | so `[}` is accepted like `[]` |
| Validation.MatcherMeaning | src/network/validation.rs:25-26 | a matcher that compares kinds gets past a prefix exactly when no depth is negative and all brackets matched in it are of one kind |
| Validation.KindsAgreeIff | src/network/validation.rs:25-26 | an accepted text has matching brackets of one kind throughout exactly when a matcher that compares kinds accepts it too |
| Validation.ValidateJsonStructure | src/network/validation.rs:34-95 | the loop computes the automaton's verdict, and that verdict describes the text |
| Json.ValueScans | src/network/validation.rs:34-77 | by induction over JSON trees: scanned at any depth, a printed value needs exactly the levels it nests |
| Json.StringScans | src/network/validation.rs:43-58 | every legal string literal is passed over, whatever brackets, quotes and backslashes it escapes or contains |
| Json.JsonAcceptedIff | src/network/validation.rs:25-33 | a JSON text, however printed, is accepted exactly when it nests at most max deep, and otherwise rejected for depth |
| Json.ValidateBeforeParsing | src/network/validation.rs:110-125 | the size gate comes first; the bytes reach the parser exactly when they fit and the structure is accepted; for JSON texts exactly when they fit and nest at most max deep |
| Throttling.Throttle.TryRun | src/concurrency/throttle.rs:71-93 | one critical section: whether the call is admitted and the stamp it leaves |
| Throttling.Throttle.Reset | src/concurrency/throttle.rs:98-103 | a reset forgets the stamp |
| Throttling.Replay | src/concurrency/throttle.rs:71-103 | for every order of critical sections the object admits exactly the calls that the history says |
| Throttling.StampMeaning | src/concurrency/throttle.rs:84-90 | the stamp is the latest admission since the latest reset |
| Throttling.AdmissionsSpaced | src/concurrency/throttle.rs:63-91 | admissions not separated by a reset are at least the interval apart |
| Throttling.RefusedIff | src/concurrency/throttle.rs:84-89 | a call is refused if and only if an admission since the last reset is closer than the interval |
| Throttling.ResetStartsAfresh | src/concurrency/throttle.rs:95-103 | behind a reset the throttle behaves as a new one would on the events since then |
| Throttling.GreedyStaysAhead | src/concurrency/throttle.rs:84-90 | with or without resets, against any selection of the calls so far that keeps the interval between resets greedy has admitted as many, and when exactly as many, it would admit at once or its latest is no later |
| Throttling.GreedyIsOptimal | src/concurrency/throttle.rs:71-93 | on every prefix of every history, resets included, the admitted count is the largest size of a selection that keeps the interval between resets |
| GenericRetry.TryOnce | src/concurrency/retry.rs:200-219 | one attempt of the loop: what it settles on and what it adds to the log of calls, consultations and backoffs |
| GenericRetry.TryLast | src/concurrency/retry.rs:224-237 | the unrolled last attempt follows the same rule, with no backoff |
| GenericRetry.RunIf | src/concurrency/retry.rs:180-238 | the loop with its unrolled last attempt equals the plain recursion: op sees 1, 2, .., k, the predicate every failure once, and a fired token means no call at all |
| GenericRetry.Run | src/concurrency/retry.rs:160-166 | run is run_if with every error retryable, and never returns a report unchanged |
| GenericRetry.RunMeaning | src/concurrency/retry.rs:180-238 | result, attempts, consultations and backoffs are exactly those told from the script alone, the i-th backoff in nanoseconds |
| GenericRetry.UndisturbedLast | src/concurrency/retry.rs:200-238 | when no backoff finds the token fired the last attempt is the first that succeeds, fails for good or uses up the budget |
| GenericRetry.OutcomeIff | src/concurrency/retry.rs:154-238 | for each kind of result the exact condition in terms of replies, delays and the instant the token fires, including when RetryExhausted is added and which report is kept below it |
| GenericRetry.TotalBackoff | src/concurrency/retry.rs:200-224 | d backoffs add up to at most d * max and to at most base * (2^d - 1), for every d |
| GenericRetry.DefaultWaitsAtMost600ms | src/concurrency/retry.rs:68-95 | with the default policy all backoffs of a run add up to at most 600ms |
| GenericRetry.DefaultBackoff | src/concurrency/retry.rs:84-95 | the two default backoffs are drawn below 200ms and below 400ms |
| GenericRetry.OnlyZeroBackoffsOutliveCancel | src/concurrency/retry.rs:208-216 | an attempt followed by another although the token fired before its backoff ended had a zero backoff |
| GenericRetry.HonoursCancelIff | src/concurrency/retry.rs:126-134 | at most one further op starts after a cancel, in every run, if and only if there is one attempt or jitter is off and base and cap are non-zero |
| HttpRetry.Execute | src/network/retry.rs:222-247 | the loop of one layer around another equals the recursive specification of the stack |
| HttpMeaning.SendMeaning | src/network/retry.rs:215-287 | around any inner executor the outermost client does exactly what is told attempt by attempt: which answers it retries for which methods, each backoff in nanoseconds, where a fired token ends it, and which answer it hands out |
| HttpRetry.StackBounds | src/network/retry.rs:215-302 | between one request and the product of the budgets reach the server, a layer that may not replay counting once, and the result is the answer to the last request sent |
| HttpRetry.StackWorstCase | src/network/retry.rs:222-268 | the product is reached when all results are retryable by all layers, the body clones and no sleep is cut short, because no token has fired or because the server asks for no wait |
| HttpRetry.OneRequestOnly | src/network/retry.rs:229-268 | exactly one request, whatever the budgets, when the body does not clone or no layer may or wants to retry its answer |
| HttpRetry.DefaultStack | src/network/retry.rs:73-106 | n default layers send a replayable GET, HEAD, PUT, DELETE, OPTIONS or TRACE 3^n times to a server that is down or answers 429 or 503 for ever, a POST, PATCH or CONNECT once, and any other answer ends the request at once |
| HttpRetry.DefaultBackoff | src/network/retry.rs:73-106 | the default backoffs are drawn below 200ms and below 400ms, and a Retry-After is waited out up to 30s |
| HttpRetry.OuterLayer | src/network/retry.rs:222-247 | a layer makes at most the attempts it may, tries again only after replies that call for it, and hands out the last reply |
| HttpRetry.OuterLayerSends | src/network/retry.rs:222-247 | each of these attempts sends between one request and as many as the layers inside can |
| HttpRetry.RetryableAnswerMeansBudgetSpent | src/network/retry.rs:215-247 | if what a send hands back is still retryable for the outermost layer and no backoff found its token fired, that layer has made exactly its budget of attempts |
| HttpCancellation.TraceCounts | src/network/retry.rs:222-247 | the trace of requests and backoffs of a send holds exactly the requests that reach the server and the backoffs requested, in order |
| HttpCancellation.TraceOrderly | src/network/retry.rs:229-243 | every request but the first comes right after a backoff that ran to its end, and every such backoff is followed by a request |
| HttpCancellation.TraceFollowsToken | src/network/retry.rs:238-254 | in every layer and for every policy and answer a backoff runs to its end exactly when it has no length, no token is attached, or the token is not found fired |
| HttpCancellation.HonoursCancelIff | src/network/retry.rs:183-188 | for a token that does not un-fire: at most one request is sent after it fires, whenever it fires, if and only if no layer that retries at all lacks a token, draws jitter, has a zero base or cap, or, where servers may answer `Retry-After: 0`, retries a status; without such servers a plain layer honours its token on statuses too |
| HttpCancellation.FiredTokenWholeBudget | src/network/retry.rs:183-188 | a server that answers a retryable status with `Retry-After: 0` gets the whole product of the budgets after the token has fired |
| HttpRetry.DelayUnderCap | src/network/retry.rs:270-287 | every backoff is at most the cap; Retry-After is waited out exactly when it fits under the cap and is the cap otherwise, without jitter |
| WorkerPools.StepKeepsInv | src/concurrency/worker_pool.rs:68-121 | every step of caller and tasks keeps permits, handings, jobs and the bound on tracked tasks |
| WorkerPools.PermitConservation | src/concurrency/worker_pool.rs:77-106 | in every reachable state free permits, permits of unfinished tasks and the submitter's add up to the cap, so at most cap handlers run, and a suspended submitter is blocked exactly when unfinished tasks hold all permits |
| WorkerPools.HandedExactlyOnce | src/concurrency/worker_pool.rs:85-106 | each accepted job goes to the handler exactly once, when its task starts |
| WorkerPools.AcceptedAreSubmitted | src/concurrency/worker_pool.rs:85-106 | the accepted jobs of a run are those of the submit calls that returned, in order |
| WorkerPools.HandedAreStarted | src/concurrency/worker_pool.rs:102-106 | the handler is called for exactly the tasks that start, in that order |
| WorkerPools.SubmitsBalance | src/concurrency/worker_pool.rs:85-106 | every submit call that begins returns, is dropped, or is in progress |
| WorkerPools.JoinWaitsForAll | src/concurrency/worker_pool.rs:108-111 | when join has returned every job was handed over once, every task is reaped and all permits are back |
| WorkerPools.ActiveCounts | src/concurrency/worker_pool.rs:113-121 | over every run active() changes by the tasks spawned less the tasks reaped, finished or not making no difference |
| WorkerPools.ActiveStaysBounded | src/concurrency/worker_pool.rs:113-121 | active() is at most cap + 1 plus the tasks leaving unseen at the last drain, so at most cap + 1 + t if never more than t are leaving at once; cap + 1 when release and finish are one step |
| WorkerPools.ActiveBoundReached | src/concurrency/worker_pool.rs:83-121 | for every cap and every t some run with never more than t tasks leaving at once tracks cap + 1 + t tasks |
| WorkerPools.ActiveBoundIff | src/concurrency/worker_pool.rs:113-121 | with at most t leaving at once a number bounds active() in every run if and only if it is at least cap + 1 + t; cap + 1 does exactly when t is zero |
| WorkerPools.ActiveUnboundedOtherwise | src/concurrency/worker_pool.rs:113-121 | without such a bound any number of tasks can be tracked, whatever the cap |
| WorkerPools.JoinNeverStuck | src/concurrency/worker_pool.rs:108-111 | a joining pool always has an enabled step |
| WorkerPools.JoinTerminates | src/concurrency/worker_pool.rs:108-111 | and every run of it is bounded in length |
| WorkerPools.SubmitNeverStuck | src/concurrency/worker_pool.rs:83-106 | a suspended submitter without a free permit always has a task that can move, and tasks can move only boundedly often |
| WorkerPoolObject.WorkerPool.TryJoinNext | src/concurrency/worker_pool.rs:86-89 | reaps some finished task, or finds none |
| WorkerPoolObject.WorkerPool.Active | src/concurrency/worker_pool.rs:119-121 | counts every task spawned and not yet reaped |
| WorkerPoolObject.WorkerPool.Submit | src/concurrency/worker_pool.rs:85-106 | drain, await a permit, spawn: whatever the runtime does meanwhile it amounts to a run of the step system that accepts the job, or leaves the submitter suspended without a permit |
| WorkerPoolObject.WorkerPool.Join | src/concurrency/worker_pool.rs:108-111 | returns only with nothing tracked; suspended only while something is |
| Shutdown.CancelledIff | src/concurrency/shutdown.rs:129-214 | the token is cancelled exactly when a trigger, a shutdown call or the reaction to a critical failure has happened; it never un-cancels and isolated failures never cancel it |
| Shutdown.CriticalFailurePropagates | src/concurrency/shutdown.rs:137-201 | a critical wrapper that has left by itself has seen Ok, or the token is cancelled |
| Shutdown.KilledCriticalCancelsNothing | src/concurrency/shutdown.rs:161-170 | the exception: a wrapper aborted through its join handle |
| Shutdown.SatisfiedIff | src/concurrency/shutdown.rs:237-255 | over all interleavings a shutdown call's wait is satisfied exactly when at some moment of it, after cancel and close, no tracked task remained |
| Shutdown.ShutdownMeaning | src/concurrency/shutdown.rs:229-255 | shutdown returns Ok only after such a moment and gives up only without one |
| Shutdown.LiveBetween | src/concurrency/shutdown.rs:129-201 | between any two moments of a run the number of tracked tasks changes by the spawns less the departures |
| Shutdown.OkMeansNobodyLeft | src/concurrency/shutdown.rs:216-231 | once the wait of a shutdown call is satisfied no tracked task is left, then and ever after, if and only if none is spawned from that moment on; what is spawned before, also after the close, is waited for |
| Shutdown.TasksLeftAfterOk | src/concurrency/shutdown.rs:229-231 | the tasks left when Ok has been returned are those spawned since the moment of emptiness less those departed |
| Shutdown.OkWithATaskLeft | src/concurrency/shutdown.rs:219-222 | a run in which a task spawned after the close is alive when Ok is returned |
| Shutdown.TimeoutFindsSomeone | src/concurrency/shutdown.rs:243-249 | when the time is up some task is tracked, or the tracker is open; without a reopening some task is tracked |
| Shutdown.ReportMeaning | src/concurrency/shutdown.rs:232-253 | the number reported is the number tracked at the timeout plus the spawns less the departures up to the count: the documented number exactly when these are equally many, zero exactly when all have departed |
| Shutdown.TimeoutWithNobodyLeft | src/concurrency/shutdown.rs:232-253 | a run whose timeout report counts no task: the last one departs between timeout and count |
| Shutdown.TimeoutBehindReopening | src/concurrency/shutdown.rs:243-249 | a run that times out with no task tracked, the tracker having been reopened |
| ShutdownObject.ShutdownController.IsShutdown | src/concurrency/shutdown.rs:203-207 | true exactly when some step of the history cancelled |
| ShutdownObject.ShutdownController.WrapperReacts | src/concurrency/shutdown.rs:173-199 | the token is cancelled afterwards exactly if it was before or the result is not Ok |
| ShutdownObject.ShutdownController.Trigger | src/concurrency/shutdown.rs:209-214 | cancels the token and changes nothing else |
| ShutdownObject.ShutdownController.Track | src/concurrency/shutdown.rs:129-172 | a spawn tracks one new running task or wrapper and changes nothing else, also on a closed tracker |
| ShutdownObject.ShutdownController.ShutDown | src/concurrency/shutdown.rs:237-255 | whatever happens meanwhile, Ok means that the closed tracker was empty at some moment of the wait, and that no task is left if none is spawned between notification and poll; an error means that there was no such moment, and counts the tasks left, at least one if nothing happens after the timeout and nobody reopens |
| RateLimit.RoundTrip | src/network/rate_limit.rs:31-64 | the printed form of every count and unit is read back as its window, without overflow of the 64-bit seconds |
| RateLimit.UnitsMean | src/network/rate_limit.rs:31-64 | spelled out: n per second, n per minute, one per n hours, one per n days; a plus sign makes no difference |
| RateLimit.AcceptedIff | src/network/rate_limit.rs:35-64 | exactly the spellings of a count in 1 .. 2^32 - 1 with one of the four units are accepted, each with its meaning |
| RateLimit.PanicsIff | src/network/rate_limit.rs:35-40 | over all strings, in UTF-8: the parser panics exactly when the last character is not ASCII |
| RateLimit.FiveMicroPanics | src/network/rate_limit.rs:40 | a string on which it panics |
| RateLimit.ShorthandMakesQuota | src/network/rate_limit.rs:78-95 | every window the shorthand yields makes a quota that keeps it and any burst asked for, by default its own count or one cell of a custom period, and only the custom window of length zero never does |

## Left out

- `governor`, and with it `RateLimiter`, `KeyedRateLimiter` and `RateLimitedClient`: the algorithm is not in this repository; a quota is a window and a burst.
- NATS client and configuration, `Client` and `reqwest` dispatch: network I/O and option builders; the bottom executor is a script of answers.
- `serde_json::from_slice`: the model ends where the bytes are handed over.
- `Secret` and its comparison: easy members only.
- Fluent setters, `tracing` events, attachments and message texts: of a report its kind and the cause kept below it remain.
- OS signals (`trigger_on_signal`): the listener is one more task that may trigger.
- Extraction of the `Retry-After` header: an optional number of seconds.
- Fairness and uniformity: schedulers and entropy are arbitrary; progress is stated as an enabled step and a bound on the steps.
- `Supervision.Run`: a script of finite length stands for an unfinished run of any length, and a supervised future that never returns ends the script; the loop body is `Turn` and `TakeTurn`.
- `WorkerPoolObject.WorkerPool.Submit`: task steps fall into its suspension only; the step system has them anywhere. Dropping a pool without `join` is not modelled.
- `ShutdownObject.ShutdownController.ShutDown`: the steps between its actions are those of tasks, tokens and tracker; several overlapping calls are in the step system.
- `HttpRetry.Execute`: layers are a list with the outermost last; the token of a layer is an answer per backoff, which may also un-fire, so it covers more than real tokens; `HttpCancellation` is about tokens that do not.
- `Throttling.Throttle.TryRun`: the poisoning of the mutex by a panicking holder, which its short critical section cannot cause.
- Raw bytes in `Json` strings: any byte from 0x20 on but quote and backslash, which includes every UTF-8 encoding and more.
