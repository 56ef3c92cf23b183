# Verified model of the workflow engine's cores

The repository is a workflow engine: small state machines and algorithms wrapped around
SQLite, `fetch`, git and the file system. This project models those cores in Dafny and
proves what they promise, for every input, every run and every interleaving.

| files | what they model |
|---|---|
| `LedgerLog`, `LedgerRuns`, `LedgerElapsed`, `Ledger` | the append-only budget ledger: reserve, settle, release, reconcile; caps over nested scopes |
| `UsageReport`, `Attempts`, `StoreWrite` | usage per route, closing the attempts a crash left open, the store's one write transaction |
| `Lock`, `LockAcquire` | the coordinator lockfile as interleaved steps of any number of processes; the loop of one acquisition |
| `Breaker`, `Retry`, `HttpTransport` | the circuit breaker among overlapping calls; the two nested retry loops on a clock |
| `Selection`, `Routing`, `Fallback` | model choice against an arbitrary Jev, pins, routes, dwell, pause and resume |
| `PathText`, `Paths`, `ExecutionPolicy` | path normalisation, containment, and where a worker may write |
| `Regex`, `Glob`, `GlobCorrect`, `GlobLaws` | globs compiled to regular-expression text, that text read back, and what each piece of a glob matches |
| `CanonicalPath`, `DenyList`, `ArtifactLogs` | the deny list's canonical paths, trailing sub-paths and verdicts; a log file in the artifacts |
| `Utf8`, `Outbound` | truncation to bytes, and capping a whole outbound request |
| `Checkpoint` | checkpoints of a working tree, restore and undo |
| `AskAll`, `AskPool`, `Decimal` | batching questions by state and the worker pool over them |
| `Wilson`, `Migrations` | the Wilson score interval; schema migrations with crash and resume |

Methods follow the code's loops and fields and are proved against functions on values; the
lemmas prove what the repository promises about those functions and about runs of them.

## Where the code and its comments differ

- `src/telemetry/ledger.ts:106` says a cumulative refusal is permanent. It is exactly when
  the settled and abandoned rows alone leave no room (`RefusalIsPermanentIffClosedRowsRefuse`);
  a release of an open reservation can clear it otherwise. Of the five caps only elapsed time
  has permanent refusals only (`OnlyElapsedRefusalsArePermanent`).
- `src/telemetry/ledger.ts:584` checks elapsed time with nothing requested, so it may pass
  its cap. It keeps it exactly when every settlement still had time left
  (`SettlementKeepsElapsedCapExactly`, `ElapsedKeptExactly`), and otherwise passes it by at most
  one settlement per reservation open at the breach (`OneSettlementPerOpenReservation`), a bound
  that is reached (`ElapsedBoundIsReached`).
- `withReservation` leaves the reservation open when the reported usage is not acceptable:
  settling throws and nothing releases it. Reconciliation closes it later.
- `src/jev/resilience.ts:402` says a call never outlasts `deadlineMs`. The backoff sleep is
  not cut at the deadline (`OnTimeExactlyWithoutSleeping`); the bound is one longest delay later.
- `src/jev/http.ts:98-102` says a 429 without a retry hint reads as an account cap. Every 429
  is `jev.rate_limited` (`ReplyDecides`), so the wrapper retries it.
- A half-open breaker may run more probes than `halfOpenMaxCalls`: cancelling a call admitted
  before the breaker opened frees a slot it never took. That can happen with every
  configuration that allows a probe at all (`MaximumKeptExactlyWithoutSlots`); the exact number
  of probes is `ProbesAreSlotsAndDebt`.
- `src/security/outbound.ts:506` says an oversized state is cut rather than sent oversized.
  Cutting it never brings the request under the cap, because the text around it is added
  again (`CutStateStaysOver`).
- `withinRoots` with the root directory `/` contains only `/` itself (`OnlySlashIsTooNarrow`).
- A pause is resumable from its reset estimate on, and not before, exactly when every route it
  watches is capped (`ResumableExactlyAtReset`). One because policy refused every available
  model can be resumed at once (`RefusedSelectionIsResumableAtOnce`).
- The lockfile is safe against interleaving at three gaps only if each is closed: between the
  create and the write, between the liveness probe and the delete, and between the heartbeat's
  truncation and its write, when the file of a live holder reads as stale. Any one of them
  breaks mutual exclusion (`SafeExactlyWhenAllThreeAreOneStep`).
- `src/security/execution-policy.ts:337` exempts the artifact directory from the store's
  deny entry only. The verdict names the first entry that matches, so entries listed after
  the store's are excused there too, as `**/*.log` is (`ALogIsPermitted`). Exactly when is
  `OnlyTheStoreEntryIsExcused`.
- A nested `Store.write` whose failure is caught keeps what it wrote (`CaughtFailureIsNotUndone`);
  it is atomic exactly when its body never throws or writes nothing before it does
  (`NestedIsAtomicExactly`).

## Model

| member | source | states |
|---|---|---|
| `LedgerLog.CommittedAfterOpening` | src/storage/repos/index.ts:351-360 | a new reservation adds its estimate to exactly the scopes it is charged to |
| `LedgerLog.OpeningAddsItsEstimate` | src/storage/repos/index.ts:351-400 | the five totals of a scope after a reservation: its spend, both token counts and requests, one slot, no time |
| `LedgerLog.CommittedAfterClosing` | src/storage/repos/index.ts:351-360 | closing replaces the estimate by the settled or abandoned amount, and a release gives it back |
| `LedgerLog.ClosingReplacesTheEstimate` | src/storage/repos/index.ts:351-400 | the five totals of a scope after closing: each estimate replaced by what the terminal row reports, one slot less |
| `LedgerLog.RunningCounterAgrees` | src/storage/repos/index.ts:351-372 | totals recomputed from the log equal a counter updated row by row, on every well-formed log |
| `LedgerLog.ConcurrencyCountsOpenRows` | src/storage/repos/index.ts:363-372 | the concurrency total is the number of open reservations of the scope |
| `LedgerRuns.ReservationsCloseOnce` | src/telemetry/ledger.ts:589-601 | in every reachable log each reservation has one reservation row and at most one terminal row, which follows it |
| `LedgerRuns.ChargedScopes` | src/telemetry/ledger.ts:317-337 | what a row is charged to: its workflow, phase and task, and the Jev scope on the `jev` channel only |
| `LedgerRuns.WithinCapsExactly` | src/telemetry/ledger.ts:570-586 | a row is within the caps exactly when it fits under every cap of every scope it is charged to |
| `LedgerRuns.CheckedTargetMatches` | src/telemetry/ledger.ts:317-337 | every target checked for a row is one the row is charged to |
| `LedgerRuns.ModelCallsIgnoreJevCaps` | src/telemetry/ledger.ts:317-337 | budgets that differ in the Jev caps only admit the same model calls |
| `LedgerRuns.CapKeptByOneRow` | src/telemetry/ledger.ts:570-586 | one admitted row keeps every cap, up to what settlements used beyond their estimates |
| `LedgerRuns.CapsHold` | src/telemetry/ledger.ts:410-447 | on every reachable ledger and in every scope, what is committed is at most the cap plus the overrun of settlements; elapsed time, of which reservations estimate none, is bounded in the `LedgerElapsed` rows |
| `LedgerRuns.OpenReservationsNeverPassTheCap` | src/telemetry/ledger.ts:570-586 | the number of open reservations never passes `maxConcurrency`, however settlements come out |
| `LedgerRuns.RefusalIsPermanentIffClosedRowsRefuse` | src/telemetry/ledger.ts:101-115 | a refusal stands in every continuation exactly when the closed rows alone leave no room |
| `LedgerRuns.ReleaseEverything` | src/telemetry/ledger.ts:479-495 | releasing all open reservations is always possible and leaves exactly the closed total |
| `LedgerRuns.ElapsedIsNeverGivenBack` | src/telemetry/ledger.ts:570-586 | open reservations charge no elapsed time, so an elapsed breach never clears |
| `LedgerElapsed.SettlementKeepsElapsedCapExactly` | src/telemetry/ledger.ts:450-477 | closing an open reservation leaves elapsed time within its cap exactly when committed plus reported time is within it, the check line 584 omits |
| `LedgerElapsed.ElapsedKeptExactly` | src/telemetry/ledger.ts:570-586 | over a whole run elapsed time keeps its cap exactly when every terminal row would have passed that check |
| `LedgerElapsed.NothingOpensPastTheCap` | src/telemetry/ledger.ts:584 | past the cap no reservation charged to the scope is admitted |
| `LedgerElapsed.OneSettlementPerOpenReservation` | src/telemetry/ledger.ts:570-586 | a run past the cap was taken past it by one row, and has gone at most one longest settlement beyond it for each reservation open then |
| `LedgerElapsed.ElapsedIsBounded` | src/telemetry/ledger.ts:570-586 | with a concurrency cap, elapsed time is at most its cap plus that many longest settlements |
| `LedgerElapsed.ElapsedBoundIsReached` | src/telemetry/ledger.ts:570-586 | for every cap, number of slots and longest settlement some run reaches that bound |
| `LedgerElapsed.OnlyElapsedRefusalsArePermanent` | src/telemetry/ledger.ts:101-120 | under every cap but elapsed time some reachable ledger refuses a request that a release makes room for; under elapsed time none does |
| `Ledger.Ledger.AssertWithinCaps` | src/telemetry/ledger.ts:570-586 | passes exactly when every cap of every scope fits, which `LedgerRuns.WithinCapsExactly` spells out; otherwise the first breach in checking order |
| `Ledger.InsertableExactly` | src/telemetry/ledger.ts:589-640 | the table takes exactly the rows that are honest, new, and the first to close their reservation |
| `Ledger.Ledger.Reserve` | src/telemetry/ledger.ts:410-447 | appends one reservation row exactly when usage is honest, caps fit and the table accepts it; each refusal leaves the log as it was |
| `Ledger.Ledger.Close` | src/telemetry/ledger.ts:589-631 | appends the terminal row exactly when the reservation exists and is open; unknown and closed ones are told apart |
| `Ledger.Ledger.Settle` | src/telemetry/ledger.ts:453-476 | replaces the reservation by what was used, or refuses dishonest usage without a trace |
| `Ledger.Ledger.Release` | src/telemetry/ledger.ts:479-495 | closes an open reservation with a row that charges nothing |
| `Ledger.Ledger.WithReservation` | src/telemetry/ledger.ts:498-515 | reserved exactly when caps and table allow; after the run, and whatever others wrote meanwhile, closed by one row that reports the run, exactly when still open, the closing id is free and the usage acceptable; every total moves by what was reported less the estimate |
| `Ledger.Ledger.AbandonAll` | src/storage/reconcile.ts:136-173 | the loop abandons what was open and not kept, all of it or nothing |
| `Ledger.Ledger.Reconcile` | src/storage/reconcile.ts:136-173 | closes every open reservation not kept and leaves every charge unchanged |
| `Ledger.AbandonmentKeepsCharge` | src/storage/reconcile.ts:143-162 | an abandonment keeps the estimate charged in every scope |
| `Ledger.OpenAfterAbandoning` | src/storage/reconcile.ts:136-173 | afterwards exactly the kept session's reservations are open |
| `Ledger.ReconcilingTwiceChangesNothing` | src/storage/reconcile.ts:133-135 | a second pass finds nothing to close and writes nothing |
| `UsageReport.RouteUsage.AddUsage` | src/telemetry/usage.ts:82-93 | the accumulator afterwards is the tally with one more usage; unpriced calls never become money |
| `UsageReport.SummariseByRoute` | src/telemetry/usage.ts:104-128 | exactly the charged routes, each with the tally of its own closing rows |
| `UsageReport.UnknownCostIsNeverMoney` | src/telemetry/usage.ts:82-93 | a total is priced exactly when some call is, and known plus estimated money is all the money |
| `UsageReport.FieldsAreTotals` | src/telemetry/usage.ts:82-93 | each field of a tally is the total of its own kind: tokens each way, calls, unpriced calls, estimated and known money |
| `UsageReport.RowsThatCount` | src/telemetry/usage.ts:112-116 | a row counts for a route exactly when it settles or abandons a call labelled with it |
| `UsageReport.RouteLabelReadsBack` | src/telemetry/usage.ts:24-36 | a label reads back as the route it was made from, and no other text does |
| `UsageReport.RoutesAddUp` | src/telemetry/usage.ts:104-128 | calls, tokens and money over all routes together are those of the routed rows, each counted once |
| `UsageReport.MergeUsage` | src/telemetry/usage.ts:136-157 | the loop computes the merged usage |
| `UsageReport.MergedMeans` | src/telemetry/usage.ts:130-157 | tokens, calls and priced money add up; the cost is unknown exactly when no input is priced and estimated exactly when a priced one is |
| `UsageReport.MergeInParts` | src/telemetry/usage.ts:130-157 | merging two merges is merging everything, cost basis included |
| `Attempts.AttemptRepository.Update` | src/storage/repos/index.ts:170-179 | an attempt with an outcome is frozen; any other takes it, and no other row changes |
| `Attempts.AttemptRepository.Reconcile` | src/storage/reconcile.ts:182-219 | every open attempt is re-attached or closed as its probe says, in order, and closed ones are untouched |
| `Attempts.OutcomesAreTheProbes` | src/storage/reconcile.ts:182-219 | recorded and reported are a gone worker's known outcome, "abandoned" if none is known, and nothing for a live worker or a frozen attempt |
| `Attempts.ReconcilingAttemptsIsIdempotent` | src/storage/reconcile.ts:178-181 | afterwards exactly the attempts with a live worker are open, and a second pass changes nothing |
| `StoreWrite.Store.WriteTransaction` | src/storage/db.ts:224-250 | all or nothing when outermost, transparent when nested, refused when read-only; the nesting depth is restored |
| `StoreWrite.NestedWritesDissolve` | src/storage/db.ts:220-232 | inside a transaction every nested write can be replaced by its body |
| `StoreWrite.CaughtFailureIsNotUndone` | src/storage/db.ts:226-232 | a nested write that failed and was caught is committed with the rest |
| `StoreWrite.NestedIsAtomicExactly` | src/storage/db.ts:226-232 | a nested write acts like a transaction of its own on all rows exactly when, read off its text, its body never throws or reaches no row write before it does |
| `Lock.StepKeepsInv` | src/storage/lock.ts:179-226 | every step at the merged granularity keeps one owner, named by the file |
| `Lock.CoarseIsSafe` | src/storage/lock.ts:179-226 | for any interleaving, crashes included, at most one live call holds the lock and the file names it |
| `Lock.SplitCreateBreaks` | src/storage/lock.ts:149-164 | two holders, if another process can look between create and write |
| `Lock.SplitTakeoverBreaks` | src/storage/lock.ts:212-219 | two holders, if another process can act between the liveness probe and the delete |
| `Lock.SplitHeartbeatBreaks` | src/storage/lock.ts:309-325 | two holders, if another process can read between the heartbeat's truncation and its write |
| `Lock.SafeExactlyWhenAllThreeAreOneStep` | src/storage/lock.ts:149-325 | mutual exclusion holds in every run exactly when create, takeover and heartbeat are each one step |
| `Lock.LiveHolderBlocks` | src/storage/lock.ts:179-226 | while the file names a live pid no schedule of one call alone gets it the lock |
| `Lock.AcquirableExactlyWhenStale` | src/storage/lock.ts:179-226 | a call by itself can get the lock exactly when the file is missing, unreadable or names a dead pid |
| `Lock.ReleaseFreesTheLock` | src/storage/lock.ts:356-372 | a holder that releases leaves no file behind, whatever happened before |
| `Lock.HeartbeatIsWritten` | src/storage/lock.ts:309-325 | a holder's heartbeat is always written and the owner named stays |
| `Lock.OthersFileIsLeftAlone` | src/storage/lock.ts:309-372 | a call whose lock was taken over stamps nothing and deletes nothing |
| `LockAcquire.Acquire` | src/storage/lock.ts:179-226 | the loop reports takeover and previous holder truly, sleeps only on live holders and gives up only when the timeout is spent |
| `LockAcquire.SleepIsBounded` | src/storage/lock.ts:220-224 | time slept never passes the timeout |
| `LockAcquire.SleepsOnePollEach` | src/storage/lock.ts:220-224 | each live holder met costs one poll interval until the timeout is spent |
| `LockAcquire.LastEvictedIsTheLastStale` | src/storage/lock.ts:212-218 | the previous holder is the one named by the last stale file met |
| `Breaker.CircuitBreaker.CanProceed` | src/jev/resilience.ts:256-261 | admits exactly when closed, or half-open with a free slot, after the lazy transition; when that is over a run, the next rows say |
| `Breaker.AdmittedExactly` | src/jev/resilience.ts:256-303 | in every run a new call goes through exactly below the threshold of failures since the last success, or once the reset time has passed since the last failure and a slot is free |
| `Breaker.OpenUntilReset` | src/jev/resilience.ts:297-303 | after the failure that opened it and until the next report, nothing goes through before that time plus `resetTimeoutMs` |
| `Breaker.FirstCallAfterReset` | src/jev/resilience.ts:297-303 | and from then on the first new call does, with at least one slot |
| `Breaker.CircuitBreaker.BeforeCall` | src/jev/resilience.ts:264-267 | takes a slot while half-open |
| `Breaker.CircuitBreaker.OnSuccess` | src/jev/resilience.ts:269-274 | closes, clears the failures and the opening time |
| `Breaker.CircuitBreaker.OnCancelled` | src/jev/resilience.ts:277-279 | frees a half-open slot and changes nothing else |
| `Breaker.CircuitBreaker.OnFailure` | src/jev/resilience.ts:281-295 | trips when half-open or at the threshold |
| `Breaker.ClosedExactlyBelowThreshold` | src/jev/resilience.ts:227-304 | in every run of overlapping calls: closed exactly below the threshold of failures since the last success, exactly when `openedAt` is null, and the slot counter within bounds |
| `Breaker.ProbesAreSlotsAndDebt` | src/jev/resilience.ts:264-279 | while half-open the probes in progress are exactly the slots counted and the slots given back by calls that held none |
| `Breaker.MaximumKeptExactlyWithoutSlots` | src/jev/resilience.ts:256-279 | for every configuration: no run has more concurrent probes than the maximum exactly when the maximum is not positive |
| `Breaker.ProbeReportMakesRoom` | src/jev/resilience.ts:269-289 | any report of a current probe leaves a breaker that admits or is no longer half-open |
| `Breaker.NeverWedgesExactlyWithASlot` | src/jev/resilience.ts:256-303 | no run wedges half-open with no probe outstanding exactly when there is at least one probe slot |
| `Retry.WithRetry` | src/jev/resilience.ts:164-192 | the loop computes the resolution of the schedule |
| `Retry.CallsAreBounded` | src/jev/resilience.ts:164-192 | at most `1 + maxRetries` calls, all but the last ended in a retryable error |
| `Retry.AnswerIsTheLastCalls` | src/jev/resilience.ts:164-192 | the answer is the last call's own; a retryable error is answered only when attempts ran out |
| `Retry.RetriesWhileItCan` | src/jev/resilience.ts:164-192 | a retryable error is retried after the delay whenever an attempt and time are left and nobody aborts |
| `Retry.OutcomeIsEarned` | src/jev/resilience.ts:58-96 | a missed deadline is reported only once it has passed, an abort only once the caller aborted |
| `Retry.DelayDoubles` | src/jev/resilience.ts:136-146 | the delay doubles up to its cap, the jitter on top |
| `Retry.ResolvesInTime` | src/jev/resilience.ts:164-192 | on every schedule the call resolves by its deadline plus `maxDelayMs * (1 + jitterRatio)` |
| `Retry.OnTimeExactlyWithoutSleeping` | src/jev/resilience.ts:398-415 | it is sure to resolve by the deadline itself exactly when it never sleeps |
| `Retry.RunWrapped` | src/jev/resilience.ts:442-520 | refused without touching the transport, or one slot taken and exactly one report made |
| `Retry.OutcomeIsReported` | src/jev/resilience.ts:487-520 | an answer closes the breaker, a cancellation or abort changes nothing but slots, anything else, a missed deadline included, counts as a failure |
| `HttpTransport.Evaluate` | src/jev/http.ts:173-302 | the loop computes the evaluation; a body cut short by the signal is an unparsed body, not a cancellation |
| `HttpTransport.AttemptsAreFetches` | src/jev/http.ts:173-302 | reported attempts are the fetches made, at most `1 + maxRetries`, all but the last transient; an answer is the last fetch's; the exit after the loop is reached without a fetch exactly for a negative `maxRetries`; over when the signal is |
| `HttpTransport.FetchesAgainExactly` | src/jev/http.ts:188-290 | with time left and unaborted, another fetch is made exactly after a network error, a 429 or a status from 500 up, while a retry is left and its delay ends in time |
| `HttpTransport.ReplyDecides` | src/jev/http.ts:89-96 | the last reply decides: an answer exactly for a status from 200 to 299 with a body read in time and parsed, otherwise the error code of its status |
| `HttpTransport.WaitsAsAsked` | src/jev/http.ts:53-86 | the wait is what the server asked for, or at least the backed-off delay, and never beyond the deadline |
| `HttpTransport.CancellationIsEarned` | src/jev/http.ts:186-194 | a cancellation is reported only after the caller's abort or the deadline timer |
| `HttpTransport.WrapperRetriesExactly` | src/jev/resilience.ts:381-386 | the wrapper tries again after any HTTP failure but 400, 401, 403 and 422 |
| `HttpTransport.NestedFetchesAreBounded` | src/jev/resilience.ts:442-520 | with this transport inside the wrapper, at most the product of the two loops' attempts in fetches, `(1 + maxRetries)^2` when they agree, whatever the wires do |
| `HttpTransport.NestedBoundIsReached` | src/jev/resilience.ts:442-520 | an overloaded server is asked exactly that often when the deadline leaves time for the delays |
| `Selection.RouteAvailabilityTable.MarkCapped` | src/models/availability.ts:66-75 | one route's cap; no other route's eligibility changes |
| `Selection.RouteAvailabilityTable.MarkAvailable` | src/models/availability.ts:78-81 | the route is eligible from then on |
| `Selection.EarliestReset` | src/models/fallback.ts:135-145 | the least known reset among the candidates, none if none is known |
| `Selection.EarliestResetAmong` | src/models/fallback.ts:135-145 | the loop finds it |
| `Selection.StaticOrderIsStable` | src/models/select.ts:194-207 | the static order sorts by first mention, keeps input order within a rank and loses no candidate |
| `Selection.StableOrderIsUnique` | src/models/select.ts:194-207 | rank order and stability leave one possible result |
| `Selection.OrderByStatic` | src/models/select.ts:194-207 | split, sort and append give the stable order |
| `Selection.FirstPolicyPassing` | src/models/select.ts:281-294 | the first candidate policy lets through, every earlier one recorded with its reason |
| `Selection.RunStatic` | src/models/select.ts:345-366 | the static path as run |
| `Selection.PassesExactly` | src/models/select.ts:141-151 | policy lets through exactly the offered models in the model list, of a listed provider, and within budget, an empty list listing all |
| `Selection.RejectionIsTheFirst` | src/models/select.ts:141-151 | the reason for a rejection: the lists first, then not offered, then the budget |
| `Selection.SelectionIsPermitted` | src/models/select.ts:312-395 | whatever Jev answers, the model used is offered, allowlisted and within budget |
| `Selection.StaticSelectionIsComplete` | src/models/select.ts:345-373 | without Jev: none only if no candidate passes policy; otherwise the first passing of the stable order is used and the first of all requested |
| `Selection.JevSelectionIsComplete` | src/models/select.ts:375-395 | with Jev: something is selected exactly when an adequate candidate passes policy, and it is the first such in the order asked, the first adequate being requested |
| `Routing.SelectRoute` | src/models/availability.ts:126-144 | the first eligible route of the stable order, or none eligible and the earliest reset |
| `Routing.CappedUntilTheEarliestReset` | src/models/availability.ts:89-144 | with every route capped, one becomes eligible exactly at the earliest known reset |
| `Routing.PinIsHonouredOrAsked` | src/models/pins.ts:55-79 | a pin takes effect exactly for an offered, allowlisted model within budget; otherwise the user is asked, with the reason, and nothing is substituted |
| `Routing.PinOutranksJev` | src/models/select.ts:316-343 | with a pin the outcome is the same for every Jev |
| `Fallback.SwitchIsSafe` | src/models/fallback.ts:166-321 | a switch names another model that is offered, available now, allowlisted and within budget |
| `Fallback.PinIsNeverSubstituted` | src/models/fallback.ts:169-187 | a pinned task never switches, and stays exactly while its route is eligible |
| `Fallback.ResumableExactlyAtReset` | src/models/fallback.ts:135-238 | for every pause: resumable from its reset on and not before, exactly when all candidates' routes are capped, or the primary's when waiting for it; always for a capped pin |
| `Fallback.RefusedSelectionIsResumableAtOnce` | src/models/fallback.ts:252-286 | a pause because selection refused every available candidate is resumable at once; when its reset still tells, the row above says |
| `Fallback.RefusedSelectionIgnoresReset` | src/models/fallback.ts:252-286 | such a pause with no reset known and already resumable |
| `Fallback.StampIsTheEntry` | src/models/fallback.ts:36-43 | over any run, the stamp is the time the present fallback was entered |
| `Fallback.DwellDecides` | src/models/fallback.ts:118-196 | while its route answers a fallback is kept exactly as long as its dwell, for each of the three; then, or when it stops answering, the task is decided as one that never dwelt |
| `Fallback.DwellDecidesInRuns` | src/models/fallback.ts:36-196 | over any run the same, the dwell counted from the decision that entered the fallback |
| `Fallback.DwellIsHonoured` | src/models/fallback.ts:118-133 | a task leaves a still eligible fallback only when its dwell is over |
| `Fallback.WaitsExactlyWhenWorthIt` | src/models/fallback.ts:211-241 | a task waits for its primary exactly when the reset is near enough and the first available substitute is not known to cost no more |
| `Fallback.ReasonIsThePrimarysCap` | src/models/fallback.ts:305-320 | the reason for a switch is the cap on the primary; a return to the primary has none |
| `Fallback.StaticSelectionIsBest` | src/models/fallback.ts:243-272 | without Jev the model used is the best on offer: smallest rank, then at a task boundary the primary, then the first listed |
| `Fallback.StaticDecision` | src/models/fallback.ts:188-320 | the whole decision without Jev: paused exactly when nothing is on offer, otherwise to the best |
| `Fallback.JevDecision` | src/models/fallback.ts:188-320 | the whole decision with Jev: paused with none adequate exactly when no available candidate is adequate and let through, otherwise it goes to the first such in the order asked |
| `Paths.NormalisePath` | src/security/execution-policy.ts:190-203 | the stack loop computes the normal form |
| `Paths.NormalisePreservesMeaning` | src/security/execution-policy.ts:190-203 | walking the normal form from any directory reaches the same place |
| `Paths.NormaliseIsNormal` | src/security/execution-policy.ts:190-203 | absolute results have names only, relative ones `..` and then names |
| `Paths.NormaliseIsCanonical` | src/security/execution-policy.ts:190-203 | equal normal forms exactly for paths of one kind that lead to the same place from everywhere |
| `Paths.NormaliseIsIdempotent` | src/security/execution-policy.ts:190-203 | normalising again changes nothing |
| `Paths.StepsCancel` | src/security/execution-policy.ts:190-203 | a name and a parent step cancel; a dot and an empty segment change nothing; a name goes one segment down |
| `Paths.ContainmentIsSegmentPrefix` | src/security/execution-policy.ts:206-209 | the string test is segment-prefix containment of the place walked to, `/` apart |
| `Paths.OnlySlashIsTooNarrow` | src/security/execution-policy.ts:206-209 | it is containment for every candidate exactly when the root is not `/` |
| `ExecutionPolicy.DecidePath` | src/security/execution-policy.ts:353-378 | the decision on one path, containment before deny entries |
| `ExecutionPolicy.DecidePaths` | src/security/execution-policy.ts:342-380 | refuses with the first path not permitted, allows when all are |
| `ExecutionPolicy.ResolvedIsNeverTraversal` | src/security/execution-policy.ts:353-354 | a resolved path is canonical already and never refused for traversal; the deny list sees the names walked to |
| `ExecutionPolicy.PermittedMeans` | src/security/execution-policy.ts:326-380 | permitted exactly when it lands in the worktree and no shipped, nor uncarved configured, entry matches; or lands in own artifacts and no entry but the store's matches, save those listed after a matching store entry |
| `ExecutionPolicy.ReportedIsAnother` | src/security/deny-list.ts:271-278 | the entry reported is another than the store's exactly when another matches with no matching store entry before it |
| `ExecutionPolicy.OnlyTheStoreEntryIsExcused` | src/security/execution-policy.ts:337-371 | in the artifacts only the store's entry is excused, exactly unless it is the first shipped one to match a path that another entry denies |
| `ArtifactLogs.LogInArtifactsIsPermitted` | src/security/execution-policy.ts:366-371 | every log file written straight into the artifacts below a store is permitted, though the compiled `**/*.log` denies it, unless an entry before the store's matches |
| `ArtifactLogs.ALogIsPermitted` | src/security/execution-policy.ts:366-371 | such a path, `/w/.korwf/a/x.log` |
| `Glob.Compile` | src/security/deny-list.ts:158-215 | the loop writes the expression, closing every group left open |
| `Glob.CompilePlain` | src/config/validate.ts:72-88 | the config validator's loop writes its expression |
| `Glob.CompilersAgree` | src/config/validate.ts:72-88 | on globs without an opening brace both write the same text |
| `GlobCorrect.LexEmit` | src/security/deny-list.ts:158-215 | the emitted text reads as exactly the intended tokens, whatever the glob says |
| `GlobCorrect.ParseIsTotal` | src/security/deny-list.ts:158-215 | from any open groups the rest parses, with the meaning of what is read and what is to come |
| `GlobCorrect.CompiledGlobMeansTheGlob` | src/security/deny-list.ts:158-215 | every class-free glob compiles to a balanced expression that matches exactly the glob's direct meaning |
| `GlobLaws.PlainLaw` | src/security/deny-list.ts:208 | a plain character matches itself, up to case when case is ignored |
| `GlobLaws.QuestionLaw` | src/security/deny-list.ts:179-182 | `?` matches one character other than a slash |
| `GlobLaws.StarLaw` | src/security/deny-list.ts:174-176 | `*` matches within one segment |
| `GlobLaws.DoubleStarLaw` | src/security/deny-list.ts:171-173 | `**` matches across segments, within a line |
| `GlobLaws.DirectoriesLaw` | src/security/deny-list.ts:163-170 | `**/` matches whole directories, possibly none, within a line |
| `GlobLaws.AlternativesLaw` | src/security/deny-list.ts:194-207 | a group of any number of alternatives matches what one of them does, in its place |
| `GlobCorrect.BothCompilersMeanTheSame` | src/config/validate.ts:72-88 | both compilers match the same strings on the common fragment, letter case as given |
| `CanonicalPath.NormalisePath` | src/security/deny-list.ts:126-136 | the rewriting computes the canonical form |
| `CanonicalPath.NormalisedIsTidy` | src/security/deny-list.ts:126-136 | no doubled or trailing slash is left |
| `CanonicalPath.NormalisedKeepsNames` | src/security/deny-list.ts:126-136 | the same names in the same order, upward steps included |
| `CanonicalPath.DrivesAlike` | src/security/deny-list.ts:125-135 | spellings of one drive path agree |
| `CanonicalPath.SuffixList` | src/security/deny-list.ts:138-143 | the two loops list the trailing sub-paths |
| `CanonicalPath.SuffixesAreTheTails` | src/security/deny-list.ts:138-143 | they are exactly the tails of the path that start a segment |
| `DenyList.SubPathMatchIsWholeMatch` | src/security/deny-list.ts:158-215 | a match of every any-depth entry on a sub-path is a match on the path exactly when the directories in front hold no line terminator |
| `DenyList.Matches` | src/security/deny-list.ts:271-278 | the first entry that matches any candidate |
| `DenyList.Decide` | src/security/deny-list.ts:281-308 | denied exactly for a structural refusal, a shipped match, or a configured match no carve-out excuses; the entry and rule reported |
| `DenyList.AbsoluteFormsAreRefused` | src/security/deny-list.ts:234-236 | with absolute paths denied, those from the root, a drive or a home directory are refused |
| `DenyList.SubPathsMatterExactlyForNewlines` | src/security/deny-list.ts:281-308 | through the compiled expressions, trying all sub-paths finds the same any-depth entries as the path alone exactly when its directories hold no line terminator |
| `DenyList.VerdictIsOnThePathAlone` | src/security/deny-list.ts:281-308 | for all tables of any-depth entries the shipped, configured and carve-out hits are those of the path alone, exactly under that condition |
| `Utf8.BoundaryOf` | src/security/outbound.ts:186-191 | a byte starts a character exactly when it is not a continuation byte |
| `Utf8.EncodedForm` | src/security/outbound.ts:161-163 | bytes per character and which of them continue one, by RFC 3629 |
| `Utf8.DecodeEncode` | src/security/outbound.ts:187-193 | decoding undoes encoding |
| `Utf8.DecodePrefix` | src/security/outbound.ts:181-184 | decoding a cut prefix gives the whole characters and one replacement for a cut one |
| `Outbound.TruncateToBytes` | src/security/outbound.ts:170-195 | the walk back over bytes computes the cut on whole characters |
| `Outbound.CutIsLongest` | src/security/outbound.ts:186-195 | the longest run of characters that leaves room for the marker, kept plus dropped bytes being the total |
| `Outbound.TruncationFits` | src/security/outbound.ts:165-195 | within the bytes exactly unless a marker is cut after the first or second byte of a character |
| `Outbound.AsciiMarkerAlwaysFits` | src/security/outbound.ts:165-195 | with a single-byte marker, as the default is, always within the bytes |
| `Outbound.TruncationUsesTheRoom` | src/security/outbound.ts:186-195 | a cut loses at most three bytes of the room |
| `Outbound.FilterSnippets` | src/security/outbound.ts:396-440 | every offered snippet is kept or reported removed, in order: removed when denied or beyond the maximum, otherwise sent redacted, cut and without its path if paths are not sent |
| `Outbound.OnlyRedactedLeaves` | src/security/outbound.ts:396-440 | nothing of a denied snippet leaves, no path unless paths are sent, and of a text its redaction, a run of it with the marker, or the marker only |
| `Outbound.OnlyTheRedactionMatters` | src/security/outbound.ts:396-440 | offers with the same paths and lines and texts that are redacted alike are sent alike |
| `Outbound.DropToFit` | src/security/outbound.ts:485-502 | the longest run of snippets from the front that fits the cap |
| `Outbound.ReadBack` | src/security/outbound.ts:570-573 | a JSON reader gets back every string that is measured and sent |
| `Outbound.SerialisedForm` | src/security/outbound.ts:570-573 | the body measured, spelt out |
| `Outbound.CutStateStaysOver` | src/security/outbound.ts:505-513 | a request that does not fit without its snippets does not fit with its state cut either |
| `Outbound.CutState` | src/security/outbound.ts:504-517 | within the cap exactly when nothing had to be cut |
| `Outbound.Filter` | src/security/outbound.ts:477-517 | kept plus removed is offered, the longest fitting prefix is kept, and what is sent fits exactly when the snippet-free request does |
| `Checkpoint.Repository.CaptureCheckpoint` | src/git/checkpoint.ts:181-230 | a snapshot commit on its own ref; working tree, index, `HEAD` and other refs untouched |
| `Checkpoint.Repository.DiffAgainstCheckpoint` | src/git/checkpoint.ts:269-296 | the name-status difference, leaving no ref behind |
| `Checkpoint.Repository.RestoreCheckpointTree` | src/git/checkpoint.ts:342-377 | preserves first, then the working tree is the restored one; a missing commit changes nothing |
| `Checkpoint.Repository.RestoreAndUndo` | src/git/checkpoint.ts:342-377 | restoring and then restoring the preservation gives the tree back exactly when no hidden file was overwritten |
| `Checkpoint.RestoreReachesTheCheckpoint` | src/git/checkpoint.ts:342-377 | a fresh snapshot after a restore is the checkpoint exactly when the checkpoint holds visible paths only |
| `Checkpoint.CaptureIsVisible` | src/git/checkpoint.ts:181-230 | a checkpoint captured under the same `HEAD` and ignore rules holds visible paths only |
| `Checkpoint.SnapshotHolds` | src/git/checkpoint.ts:197-205 | a snapshot holds every file on disk that is tracked or not ignored, and nothing else |
| `Checkpoint.RestoreHolds` | src/git/checkpoint.ts:365-371 | a restore writes the checkpoint's files, removes the other visible ones and leaves the rest |
| `Checkpoint.InvisibleFilesAreUntouched` | src/git/checkpoint.ts:365-374 | an ignored untracked file changes exactly when the checkpoint itself holds it differently |
| `Checkpoint.UndoExactlyWhenNothingHiddenChanged` | src/git/checkpoint.ts:342-377 | the undo is exact for all trees under that condition and no other |
| `Checkpoint.ReportedPathsAreTheChangedOnes` | src/git/checkpoint.ts:351-363 | the reported paths are the files changed on disk |
| `Checkpoint.NameStatusIsTheDifference` | src/git/checkpoint.ts:269-296 | added, deleted and modified are told apart rightly |
| `Checkpoint.SeedingTheIndexMatters` | src/git/checkpoint.ts:365-374 | without the first `read-tree` the restore is right exactly when the index already holds every file that is to go |
| `Checkpoint.UnseededRestoreLeavesNewFiles` | src/git/checkpoint.ts:365-374 | a new untracked file survives the unseeded restore |
| `AskAll.WireKeysAreDistinct` | src/decisions/ask.ts:331-335 | wire keys of different positions differ, whatever the questions are called |
| `AskAll.BuildRequest` | src/decisions/ask.ts:405-411 | every pending question is in the request under its own key |
| `AskAll.AskBatch` | src/decisions/ask.ts:342-491 | one batch gives each item what asking it alone gives, with no request when every item has a record and otherwise one for exactly the others |
| `AskAll.AloneMeans` | src/decisions/ask.ts:342-491 | a recorded decision stands where reuse was asked for; otherwise policy gets the answer, or none and the reason |
| `AskAll.GroupItems` | src/decisions/ask.ts:542-551 | one group per state in order of first appearance, each with all its positions ascending |
| `AskPool.ScatterBack` | src/decisions/ask.ts:568-571 | results written back by position |
| `AskPool.StepKeeps` | src/decisions/ask.ts:557-573 | a step of any worker keeps finished groups filled with lone answers, other slots empty and no group asked twice |
| `AskPool.ConcurrencyIsBounded` | src/decisions/ask.ts:540-576 | at every moment of every schedule at most `max(1, concurrency)` requests are in flight, no state in two |
| `AskPool.ConcurrencyIsReached` | src/decisions/ask.ts:540-576 | some schedule has that many in flight, or all of them if they are fewer |
| `AskPool.EveryRunEnds` | src/decisions/ask.ts:557-575 | every schedule ends, and only when all workers have returned |
| `AskPool.TakenAtMostOnce` | src/decisions/ask.ts:559-562 | no group is taken from the counter twice |
| `AskPool.TakenAtLeastOnce` | src/decisions/ask.ts:559-562 | every group the counter passed was taken at some step |
| `AskPool.FinishedRunAnswersAll` | src/decisions/ask.ts:535-577 | when the workers have returned every slot holds what asking its item alone gives |
| `AskPool.AskEach` | src/decisions/ask.ts:535-577 | grouping and workers under any schedule refine asking each item alone, in order |
| `Wilson.IntervalIsTheScoreTest` | src/models/cards.ts:101-111 | the bounds enclose exactly the rates the score test at `z` does not reject |
| `Wilson.ClampsDoNothing` | src/models/cards.ts:101-111 | 0 <= low <= k/n <= high <= 1 before clamping |
| `Wilson.FailuresMirrorSuccesses` | src/models/cards.ts:101-111 | counting failures mirrors the interval about 1/2 |
| `Wilson.WidthIsBounded` | src/models/cards.ts:101-111 | the squared width is at most z^2/(n + z^2) |
| `Migrations.Load` | src/storage/migrations.ts:45-82 | succeeds exactly when every `.sql` file is named as a migration and the versions are 1 to n once each, the result in order; a repeated version is there twice, a gap is after a missing one |
| `Migrations.Database.ApplyOne` | src/storage/migrations.ts:163-185 | committed whole or rolled back whole, wherever it is interrupted |
| `Migrations.Database.Migrate` | src/storage/migrations.ts:146-161 | applies the pending migrations in order up to the target; a failure names the next version and keeps what was committed |
| `Migrations.AdvanceTwice` | src/storage/migrations.ts:138-161 | stopping and going on is going on |
| `Migrations.AdvanceRunsInOrder` | src/storage/migrations.ts:146-161 | an attempt runs the migrations after the current version, in order, each on what the one before left, and stops only for an interruption, a failure, the target or the last one |
| `Migrations.InterruptionsDoNotMatter` | src/storage/migrations.ts:138-185 | after any number of interrupted attempts, finishing gives what one uninterrupted run gives |

## Left out

- SQL text, triggers, foreign keys, timestamps and audit rows: a transaction is one atomic step on an abstract log or map, and queries return rows in insertion order.
- `classifyCost`, price metadata and `status` of the ledger; amounts are exact reals, not floating point.
- Ledger.Ledger.WithReservation: the run's outcome and what others append while it runs are arbitrary inputs; a COMMIT that fails is left out.
- Lock.CoarseIsSafe: host hashing, lock age and `classifyHolder` are left out. That (pid, startedAt) pairs are unique turned out not to be needed.
- Retry.WithRetry: real timers and `AbortSignal` plumbing are times on one clock, and a call that ends exactly at its deadline counts as late; breakers are not kept per host.
- HttpTransport.Evaluate: headers, request ids and the text of errors are left out; what each call meets on the wire, its abort included, is arbitrary.
- AskAll.AskBatch: a run asks each state at most once, so what the transport answers is a function of the state within it; only the comparison with asking an item alone takes the same answer again. Recorded decisions do not change during the call; the recorder, tracing and latency are left out, as are `askStaged` and a `concurrency` that is not a number.
- Selection.RunStatic: recorded decisions and rationale text are left out, as are model cards and their layers, `eligibleCandidates`, `resolvePin` and `prune`.
- Fallback.DwellIsHonoured: the caller's stamping of `fallbackSince` is modelled as its documentation asks; the caller is not part of the repository.
- Glob.Compile: covers globs in which no `[` opens a character class, because a range such as `[z-a]` makes the regular expression invalid. Letter case is ASCII; UTF-16 code units and code points are not told apart.
- DenyList.Decide: works for any tables of entries; the shipped table and its check against the schema are left out.
- ExecutionPolicy.DecidePaths: takes the paths as a list; finding them in a tool's input, and the shell command classifier, are left out.
- Outbound.Filter: starts from a filtered state and path list, and redaction is any function. `#filterState`, redaction patterns, `filterRequest` and reports per purpose are left out. A state other than text enters by its JSON.
- Outbound.TruncateToBytes: text is made of Unicode scalar values, so lone surrogates do not occur.
- Checkpoint.Repository.CaptureCheckpoint: a commit is its tree and parent under an id no commit has yet; author and message are left out. Git is the few verbs used: no renames, file modes, file and directory clashes or nested ignore rules, and its output is not parsed.
- Migrations.Load: file reading, checksums and the version table's own creation are left out; a migration's SQL is a function of the content that may fail.
- Wilson.ClampsDoNothing: reals are exact and the square root is given by its defining property, for a `z` that is not negative.
- Extension commands, UI, disclosure text, trace explanation, approvals, gates and the action log: they would add only easy members.
