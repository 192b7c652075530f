# Perigee core: a verified model

Perigee's Rust core runs a GraphQL gateway, a job queue, a bounded event bus, a tamper-evident audit
log, token and key rotation, idempotent requests, an index audit and fee prediction. This project models
the parts of it with the most state and the most exact arithmetic, and proves what they are for.

`dafny verify dfyconfig.toml` checks everything. Each module follows one component.

| module | component | main results |
|---|---|---|
| `GraphqlParser`, `GraphqlGrammar` | recursive-descent parser | decides a grammar (sound and complete), which is unambiguous; print and parse is the identity; later fragments win |
| `GraphqlWalker`, `GraphqlInlining`, `GraphqlAnalysis`, `GraphqlCosts` | depth and cost analysis | terminates; succeeds exactly on inlinable operations and then measures the inlined one; the cost is a weighted count of fields; what saturation changes |
| `Cron`, `CronFirings` | cron schedules | exactly which texts are parts of a field and what they cover; the next firing is the least minute the text is written for |
| `JobQueue`, `JobQueueRuns`, `JobQueueBackoff`, `JobQueueLimits`, `JobQueueClaims` | job queue | over every run: order, first in first out, backoff, dead letters, bounded work, rate limit, concurrency, cron firing; exactly when a claim finds nothing |
| `Backpressure`, `BackpressureRuns` | event bus | over every interleaving: permits conserved, order kept, counters exact at rest |
| `AuditChain` | audit log | verified chains are the appended ones; the head hash determines the chain |
| `SecretKeyring` | signing keys | unexpired tokens resolve to their signer, exactly when the overlap is long enough |
| `RefreshTokens`, `RefreshTokenLives` | refresh-token families | one holder per family, one rotation per token, exactly when a token rotates, revocation is final exactly when no rotation is in flight |
| `IdempotencyKeys`, `Idempotency`, `IdempotencyReplays` | idempotent requests | exactly which methods confuse storage keys; one claim per key, exactly under timely claims; a stored response is replayed until it expires, and with genuine fingerprints only to its own request |
| `IndexAudit` | redundant indexes | exactly when dropping all of them at once leaves every index covered |
| `FeeAnalytics` | fee arithmetic | floored square root, percentiles, and exactly which margins keep the bids in order |

How the source is read:

- Objects that the source updates in place are classes whose methods are proved against functions on
  plain values; the theorems over runs are about those functions. Loops in the source are loops here.
- Work under a lock is one step of a state machine. Where the source reads the clock before it takes the
  lock, or does its work in two locked sections, those are separate steps and may interleave with others.
- Time, calendars, random tokens and hash functions are parameters. Nothing is assumed about the hash:
  theorems that need it say "equal, or here are two messages that collide".
- Text is a sequence of bytes, one character each. Integers are unbounded; saturation, wrapping and
  truncation are written out where the source has them.

Where the code does less than it promises, the model keeps the code, shows an input, and gives the exact condition:

- The cost of an operation saturates. That changes a verdict exactly when the limit itself is 2^64 − 1
  and the cost exceeds it (`GraphqlAnalysis.SaturationChangesVerdictIff`, `GraphqlAnalysis.SaturationAdmits`).
- The retry time of a failed job is an unchecked sum. A failed job is claimed again too early exactly when that
  sum does not fit 64 bits, and then possibly at once (`JobQueueBackoff.EarlyReclaimIff`, `JobQueueBackoff.BackoffHoldsIff`,
  `JobQueueBackoff.WrappedRetryIsEarly`).
- The minutes a cron search looks at are unchecked sums too; the search goes forward in time exactly when it stays
  below 2^64 (`Cron.AlwaysLaterIff`). A tick at 2^64 − 1 fires every entry (`JobQueueLimits.EntryFiresIff`).
- Replacing the oldest event may report `Closed` on an open subscriber, exactly when all free places are
  spoken for by permits in flight (`BackpressureRuns.ReplaceReportsClosedIff`).
- A rotation that takes its clock reading late shortens the overlap; the overlap suffices exactly when it
  covers the token lifetime and that lag together (`SecretKeyring.OverlapSufficesIff`). The configuration
  check in `core/src/main.rs:594` covers the lifetime alone.
- A rotation in flight brings a revoked token family back (`RefreshTokens.RevocationEndsFamilyIff`,
  `RefreshTokens.RevocationUndone`, `RefreshTokens.RevocationUndoneFromStart`). The `TokenExpired` branch of a
  rotation is never taken.
- Two methods can share storage keys exactly when one is the other followed by a colon, a number and possibly a
  colon and more, where the number is the length of a path that holds the rest (`IdempotencyKeys.StorageKeysCollideIff`);
  a colon alone is harmless (`IdempotencyKeys.ColonNeedsNumber`). Callers that pass the fingerprint of method, path
  and body, as `docs/IDEMPOTENCY.md:45` does, are safe from this: a replay then always answers the very same request,
  or two preimages collide (`IdempotencyReplays.GenuineReplays`), and the other request is refused with a key-reuse
  error while the key is taken (`IdempotencyReplays.SharedKeyRefused`). For callers that choose fingerprints freely,
  replays are faithful exactly when no two methods in use are such a pair (`IdempotencyReplays.ReplaysFaithfulIff`).
- A claim held past its deadline is given away (`Idempotency.ClaimsExcludeIff`, `Idempotency.OverdueClaimsOverlap`).
- Index drops go by name. With shared names they are safe exactly when every index dropped only for its name still
  has an extension (`IndexAudit.DropsAreSafeIff`, `IndexAudit.SharedNameBreaksSafety`); where it guards no constraint,
  that can only be a constraint index that duplicates it (`IndexAudit.BystanderServedIff`).
- A scaled bid is cut to 64 bits, so the bids are in order for every sample exactly for margins from 90% to
  200% (`FeeAnalytics.OrderedForAllIff`). The moving average subtracts unchecked, so it stays within the range of
  the samples exactly for ranges no wider than 2^63 − 1, or the whole range (`FeeAnalytics.AlwaysWithinIff`).

## Model

| member | source | states |
|---|---|---|
| GraphqlParser.Parser.Value | core/src/graphql_gateway.rs:276-305 | reads one value or fails exactly as the value production on the remaining tokens, and stops right after it |
| GraphqlParser.Parser.Items | core/src/graphql_gateway.rs:281-290 | the loop over list items refines the item production |
| GraphqlParser.Parser.Members | core/src/graphql_gateway.rs:291-302 | the loop over object members refines the member production |
| GraphqlParser.Parser.Arguments | core/src/graphql_gateway.rs:307-318 | collects the arguments in order, as the argument production |
| GraphqlParser.Parser.Directives | core/src/graphql_gateway.rs:320-326 | skips all directives, as the directive production |
| GraphqlParser.Parser.VariableDefinitions | core/src/graphql_gateway.rs:329-342 | skips to the matching parenthesis or fails at the end of the tokens |
| GraphqlParser.Parser.SelectionSet | core/src/graphql_gateway.rs:344-358 | reads a non-empty braced list of selections in order |
| GraphqlParser.Parser.ReadTheSelection | core/src/graphql_gateway.rs:360-390 | field, inline fragment or spread, as the selection production |
| GraphqlParser.Parser.SpreadOrInline | core/src/graphql_gateway.rs:361-380 | after the dots: a type condition, a spread name or a bare set |
| GraphqlParser.Parser.ReadTheField | core/src/graphql_gateway.rs:382-389 | alias dropped, arguments kept, set optional |
| GraphqlParser.Parser.ReadTheDefinition | core/src/graphql_gateway.rs:395-427 | one definition, or failure on any other token |
| GraphqlParser.Parser.ReadTheOperation | core/src/graphql_gateway.rs:401-415 | kind by keyword, optional name, selections |
| GraphqlParser.Parser.ReadTheFragment | core/src/graphql_gateway.rs:416-425 | requires `on`; yields name and selections |
| GraphqlParser.Parser.ParseDocument | core/src/graphql_gateway.rs:392-433 | on every token list the loop ends and returns the document of all definitions, a later fragment replacing an earlier one of the same name, or fails when there is no operation |
| GraphqlGrammar.ValueReadBack | core/src/graphql_gateway.rs:276-305 | a written value is read back with its meaning, whatever follows |
| GraphqlGrammar.SelectionReadBack | core/src/graphql_gateway.rs:360-390 | a written selection is read back with its meaning |
| GraphqlGrammar.DocumentReadBack | core/src/graphql_gateway.rs:392-433 | completeness: every well-formed document text is accepted with its meaning |
| GraphqlGrammar.ValueWasWritten | core/src/graphql_gateway.rs:276-305 | whatever is read as a value is the text of some value tree with that meaning |
| GraphqlGrammar.SelectionWasWritten | core/src/graphql_gateway.rs:360-390 | whatever is read as a selection is the text of some selection tree with that meaning |
| GraphqlGrammar.DocumentWasWritten | core/src/graphql_gateway.rs:392-433 | soundness: every accepted token list is the text of well-formed definitions with that meaning |
| GraphqlGrammar.ParserDecidesGrammar | core/src/graphql_gateway.rs:237-434 | the parser returns a document if and only if the tokens are a text of it in the grammar |
| GraphqlGrammar.GrammarIsUnambiguous | core/src/graphql_gateway.rs:237-434 | one text has one meaning |
| GraphqlGrammar.DocumentMeaning | core/src/graphql_gateway.rs:392-433 | the document of a text has its operations in order, and under each fragment name the selections of the last definition of that name |
| GraphqlGrammar.PrintParseRoundTrip | core/src/graphql_gateway.rs:237-434 | printing any document with non-empty sets and no spread named `on`, fragments in any order, and parsing it gives the document back |
| GraphqlWalker.Walker.Walk | core/src/graphql_gateway.rs:517-558 | terminates through nested fragments, restores the stack, and returns depth, saturated cost, root fields or error as the recursive specification says |
| GraphqlWalker.Walker.Visit | core/src/graphql_gateway.rs:521-555 | the same for one selection |
| GraphqlWalker.EnterFragment | core/src/graphql_gateway.rs:541-549 | entering a fragment that is not on the stack leaves one fewer to visit, which is why the walk ends |
| GraphqlAnalysis.MultiplierMeaning | core/src/graphql_gateway.rs:499-514 | the first argument called first, last, limit or take with a number, literal or from a variable, decides, clamped to 1..10000; without one the default, at least 1 |
| GraphqlInlining.WalkSucceedsIff | core/src/graphql_gateway.rs:517-558 | the walk succeeds if and only if every reachable fragment is defined and the reachable spreads have no cycle; equivalently, if inlining removes every spread |
| GraphqlInlining.WalkAgreesWithInlining | core/src/graphql_gateway.rs:517-558 | a successful walk returns depth, exact cost clipped to 64 bits and root fields of the operation with all fragments inlined |
| GraphqlInlining.WalkErrorIsReal | core/src/graphql_gateway.rs:541-548 | a reported fragment is reachable and is undefined, or repeats on its own path |
| GraphqlInlining.WalkMeasuresInlined | core/src/graphql_gateway.rs:517-558 | at any level and stack, the walk measures the unfolded selections |
| GraphqlInlining.InlinableIsSound | core/src/graphql_gateway.rs:540-554 | selections that unfold without spreads reach only defined fragments and no cycle |
| GraphqlAnalysis.SelectOperation | core/src/graphql_gateway.rs:442-452 | the first operation of the wanted name, or the only one; which error otherwise |
| GraphqlAnalysis.Analyze | core/src/graphql_gateway.rs:562-575 | operation, walk, then depth and cost limits in that order |
| GraphqlAnalysis.AnalyzeMeaning | core/src/graphql_gateway.rs:562-575 | a fragment error exactly when the operation cannot be inlined; else the depth error exactly when the inlined operation is too deep; else the cost error exactly when its exact cost exceeds the limit and the limit is not 2^64 − 1; else admitted; every figure is measured on the inlined operation |
| GraphqlAnalysis.SaturationChangesVerdictIff | core/src/graphql_gateway.rs:499-534 | saturation changes the verdict if and only if the limit is 2^64 − 1 and the exact cost exceeds it |
| GraphqlAnalysis.SaturationAdmits | core/src/graphql_gateway.rs:533-573 | an operation of exact cost 2 · (2^64 − 1) that is admitted under the limit 2^64 − 1 |
| GraphqlCosts.CostIsWeighted | core/src/graphql_gateway.rs:517-534 | the exact cost is the sum over all fields, at any depth, of their own cost times the multipliers of the fields around them |
| GraphqlCosts.PlainAnalysis | core/src/graphql_gateway.rs:526-534 | without prices and page arguments the analysed cost is the number of fields of the inlined operation not called `__typename`, clipped to 64 bits, and decides the admission |
| GraphqlCosts.LeafCost | core/src/graphql_gateway.rs:528-532 | a field without children costs 0 if it is `__typename`, else its listed price, else 1 |
| Cron.ParseField | core/src/job_queue.rs:220-248 | fails exactly on a malformed field; otherwise the strictly increasing list of exactly the values the parts cover |
| Cron.ReadPartsMeaning | core/src/job_queue.rs:223-244 | a list of parts is rejected if and only if one part is, and covers what some part covers |
| Cron.ReadPartIff | core/src/job_queue.rs:224-242 | a part is read as a stride if and only if it is `*`, `a-b` or `n`, each with or without a step, numbers below 2^32 with or without a plus sign, for that stride, stepping and in range |
| Cron.MalformedIff | core/src/job_queue.rs:223-242 | a field is malformed if and only if some part between commas is none of these forms or out of range |
| Cron.Extend | core/src/job_queue.rs:243 | adds exactly the values of a stepped range |
| Cron.SortDedup | core/src/job_queue.rs:245-246 | strictly increasing with the same members |
| Cron.ParseSchedule | core/src/job_queue.rs:251-265 | five fields with their ranges and restriction flags, or failure exactly when one is bad |
| Cron.FindNext | core/src/job_queue.rs:284-295 | the search loop returns the specified firing |
| Cron.NextAfterIsLeast | core/src/job_queue.rs:284-295 | the result is the first match of the search, and none means there is none; when the search stays below 2^64 it is the least matching whole minute after the given time within the horizon; `CronFirings` says what matches |
| Cron.AlwaysLaterIff | core/src/job_queue.rs:285-288 | whatever calendar and schedule, the result lies after the given time if and only if the search stays below 2^64; otherwise the wrapped sum can go back |
| CronFirings.CoversIff | core/src/job_queue.rs:243 | a stride covers exactly the values from its start to its end that are whole steps from the start |
| CronFirings.MatchesAsWritten | core/src/job_queue.rs:267-281 | from the text: some part of the minute, hour and month fields is written for the reading, and both day fields are `*`, or one that is not is written for the day |
| CronFirings.FiringIff | core/src/job_queue.rs:284-295 | the search can stop at a time exactly if it is a whole minute after the given time within four years, the calendar reaches it, and the text is written for it |
| CronFirings.NextFiringIff | core/src/job_queue.rs:284-295 | the result is the least such minute, and none exactly when there is none |
| JobQueue.DelayDoubles | core/src/job_queue.rs:54-62 | the delay starts at the base, doubles with each attempt up to the 33rd, and is capped |
| JobQueue.Queue.Configure | core/src/job_queue.rs:350-353 | sets one queue's configuration and nothing else |
| JobQueue.Queue.Enqueue | core/src/job_queue.rs:355-383 | adds one job under the next number, delayed exactly when its time is ahead |
| JobQueue.Queue.PromoteDue | core/src/job_queue.rs:429-434 | exactly the due delayed jobs of the queue become waiting |
| JobQueue.Queue.CountActive | core/src/job_queue.rs:436-440 | the number of active jobs of the queue |
| JobQueue.Queue.PruneStarts | core/src/job_queue.rs:445-449 | expired start times leave the front of the window |
| JobQueue.Queue.Earliest | core/src/job_queue.rs:456-463 | the runnable job of one priority first by availability and number |
| JobQueue.Queue.PickNext | core/src/job_queue.rs:455-465 | the runnable job before all others by priority, availability and number, or none exactly when none is runnable |
| JobQueue.Queue.StartNext | core/src/job_queue.rs:445-473 | rate limit, choice and start, with the whole new state |
| JobQueue.Queue.Claim | core/src/job_queue.rs:425-474 | promotion, concurrency check, rate limit, choice and start, with the whole new state |
| JobQueue.Queue.Complete | core/src/job_queue.rs:492-501 | finishes an active job, refuses any other |
| JobQueue.Queue.Fail | core/src/job_queue.rs:505-531 | retries after the backoff or buries the job when its attempts are used up; refuses a job that is not active |
| JobQueue.Queue.RetryDead | core/src/job_queue.rs:534-547 | a dead job waits again with no attempts used; refuses any other |
| JobQueue.Queue.ScheduleCron | core/src/job_queue.rs:387-399 | adds an entry at its next firing, or fails exactly for bad fields or no firing in the horizon |
| JobQueue.Queue.CollectDue | core/src/job_queue.rs:405-411 | reschedules the due entries and returns their templates in order |
| JobQueue.Queue.EnqueueAll | core/src/job_queue.rs:412-415 | enqueues the templates in order and returns their numbers |
| JobQueue.Queue.Tick | core/src/job_queue.rs:403-416 | one job per due entry, and the rescheduled entries |
| JobQueueRuns.RunKeepsOrder | core/src/job_queue.rs:360-547 | in every reachable state no job waits before its time, none is over its attempts, and the attempts match the failures since enqueue or retry |
| JobQueueRuns.DeadIffOutOfAttempts | core/src/job_queue.rs:467-547 | a job is dead if and only if it failed max(1, max_attempts) times since it was enqueued or last retried by hand, and never more; the counter fits 32 bits |
| JobQueueRuns.ClaimsBounded | core/src/job_queue.rs:425-531 | without new work, successful claims are at most the attempts left of the unfinished jobs |
| JobQueueRuns.ClaimTakesFirstReady | core/src/job_queue.rs:425-473 | every claim takes a job that no ready one precedes: high before normal before low, then by availability and number; never one before its time |
| JobQueueBackoff.NoEarlyRetry | core/src/job_queue.rs:505-520 | over every run, a failed job is not claimed again before its backoff is over, when that time fits 64 bits |
| JobQueueBackoff.EarlyReclaimIff | core/src/job_queue.rs:505-520 | in every run and for every attempt, a claim after a failure comes before the backoff is over if and only if that time exceeds 64 bits |
| JobQueueBackoff.WrappedRetryIsEarly | core/src/job_queue.rs:516 | for every job and time whose sum wraps, a run from a fresh queue: enqueued, claimed, failed and claimed again, all at that time |
| JobQueueBackoff.BackoffHoldsIff | core/src/job_queue.rs:516 | no run claims the job early after its first failure at a time if and only if that time and the delay together fit 64 bits |
| JobQueueRuns.FirstInFirstOut | core/src/job_queue.rs:360-366 | jobs of one queue and priority without a start time get their first claim in enqueue order |
| JobQueueRuns.InsertedInOrder | core/src/job_queue.rs:360-383 | a smaller number was enqueued no later |
| JobQueueRuns.PendingUntilClaimed | core/src/job_queue.rs:425-547 | a pending job changes in nothing but its waiting state until it is claimed |
| JobQueueLimits.RateLimitHolds | core/src/job_queue.rs:445-473 | every half-open window of per_secs seconds holds at most max_starts successful claims of the queue, over every run |
| JobQueueLimits.ConcurrencyHolds | core/src/job_queue.rs:436-443 | at no point does the set of active jobs of a queue exceed its concurrency, which is 4 unless configured |
| JobQueueLimits.EntryFiresIff | core/src/job_queue.rs:403-411 | a tick fires an entry if and only if the first match since its last firing or scheduling is no later than now, or now is 2^64 − 1; when that search stays below 2^64, if and only if some matching minute in the horizon lies after that time and no later than now, or now is 2^64 − 1 |
| JobQueueLimits.EntryFiresAsWritten | core/src/job_queue.rs:403-411 | the same from the text of the entry: some minute the five fields are written for lies after that time and no later than now |
| JobQueueLimits.TickEnqueuesDue | core/src/job_queue.rs:403-416 | the jobs of a tick are one for each due entry and no other, made from its template, in the order of the entries |
| JobQueueClaims.RunStamps | core/src/job_queue.rs:360-547 | in every reachable state the times of a job are those of its history: enqueued, last claimed, last ended if done or dead, and, while it waits, due: its start time, a backoff after its last failure, or its manual retry |
| JobQueueClaims.ClaimTakesFirstDue | core/src/job_queue.rs:425-473 | told from the history: every claim takes a due job of its queue that precedes every other due one by priority, due time and number |
| JobQueueClaims.ClaimFindsNothingIff | core/src/job_queue.rs:425-474 | a claim returns nothing if and only if no job of the queue is due, or as many are active as may be, or the starts of the last per_secs seconds are as many as max_starts |
| JobQueueClaims.PrunedIsRecent | core/src/job_queue.rs:445-453 | what the limiter counts is exactly the starts within its window |
| JobQueueClaims.NeverBeforeStartTime | core/src/job_queue.rs:360-383 | no claim takes a job before the start time it was enqueued with |
| JobQueueClaims.FixedBackoffDue | core/src/job_queue.rs:54-62 | a job with a fixed backoff is due that many seconds after its failure, when that fits |
| Backpressure.Subscriber.constructor | core/src/backpressure.rs:52-61 | a fresh subscriber of capacity at least one has all its permits |
| Backpressure.Subscriber.Close | core/src/backpressure.rs:63-71 | sets the flag and closes the semaphore |
| Backpressure.Subscriber.TryAcquire | core/src/backpressure.rs:117-120 | takes a permit exactly when one is left and the semaphore is open |
| Backpressure.Subscriber.Append | core/src/backpressure.rs:77-95 | pushes, or gives the permit back when closed or full |
| Backpressure.Subscriber.Replace | core/src/backpressure.rs:97-128 | evicts when full, then pushes if a permit is to be had |
| Backpressure.Subscriber.Pop | core/src/backpressure.rs:130-142 | the oldest value leaves and its permit comes back unless closed |
| Backpressure.Subscriber.Push | core/src/backpressure.rs:144-171 | the push of each policy, with outcome and eviction flag |
| Backpressure.PushOnSettled | core/src/backpressure.rs:97-171 | with no permit in flight, dropping the oldest keeps the newest values that fit and always delivers; the other policies deliver if and only if there is room and otherwise change nothing |
| Backpressure.PushOnClosed | core/src/backpressure.rs:144-151 | a push on a closed subscriber reports that and changes nothing |
| Backpressure.Bus.Record | core/src/backpressure.rs:320-338 | counts an eviction and the outcome |
| Backpressure.Bus.PublishWithPolicy | core/src/backpressure.rs:440-460 | pushes to every subscriber once, counts each outcome, and returns the first that is not a delivery |
| Backpressure.AggregateIsFirstFailure | core/src/backpressure.rs:418-438 | a publish reports a delivery if and only if every subscriber took the value, and otherwise what the first that did not take it reported |
| Backpressure.PublishCounts | core/src/backpressure.rs:320-338 | a publish adds to each counter the number of subscribers that report it, and the evictions to the dropped ones |
| Backpressure.Bus.Close | core/src/backpressure.rs:497-509 | closes and forgets every subscriber, once |
| BackpressureRuns.MoveGuards | core/src/backpressure.rs:63-128 | between the halves of a replacement or a close the lock is held and the closed flag stays as it was |
| BackpressureRuns.MoveKeepsPermits | core/src/backpressure.rs:77-199 | a move of a publisher or closer passes permits around and loses none |
| BackpressureRuns.PermitsConserved | core/src/backpressure.rs:77-199 | over every interleaving: available + queued + held = capacity while open; once closed, less one for each value received since; so the queue never exceeds the capacity |
| BackpressureRuns.EnqueueRefusedIff | core/src/backpressure.rs:77-95 | an enqueue that holds a permit is refused if and only if the subscriber is closed |
| BackpressureRuns.ReplaceReportsClosedIff | core/src/backpressure.rs:108-127 | the second half of a replacement runs on an open subscriber, and reports Closed if and only if all free places are held by permits in flight |
| BackpressureRuns.ReplacersDeliver | core/src/backpressure.rs:97-128 | when every publisher drops the oldest, a replacement that got past its checks delivers |
| BackpressureRuns.ReplaceMayReportClosed | core/src/backpressure.rs:117-120 | a run in which an open, empty subscriber reports Closed |
| BackpressureRuns.OutcomeMeaning | core/src/backpressure.rs:77-199 | what each outcome of a push says of the subscriber: delivered if and only if the value entered, dropped or blocked if and only if a try found no permit, timed out if and only if time ran out |
| BackpressureRuns.ClosedMeansClosed | core/src/backpressure.rs:144-199 | over every interleaving, a push other than a replacement reports Closed only on a closed subscriber |
| BackpressureRuns.ClosedIsSealed | core/src/backpressure.rs:63-71 | a closed subscriber whose lock is free has a closed semaphore |
| BackpressureRuns.CountingRefinesRecord | core/src/backpressure.rs:320-338 | counting an eviction and an outcome in two steps comes to the sequential record |
| BackpressureRuns.StepsRefinePush | core/src/backpressure.rs:144-171 | the steps of a push, run alone, come to the sequential push |
| BackpressureRuns.ReceivedInOrder | core/src/backpressure.rs:97-142 | each queue is the suffix of what was delivered that has not left, and receivers got the rest without the evicted, once each and in order |
| BackpressureRuns.RunTallied | core/src/backpressure.rs:320-338 | at every point the counters and what threads have yet to count match what happened |
| BackpressureRuns.RunReckoned | core/src/backpressure.rs:320-338 | at every point each push that began is pending, turned away, or counted once under its outcome |
| BackpressureRuns.CountersAtRest | core/src/backpressure.rs:320-338 | with no publisher in flight: delivered = received + evicted + queued over all subscribers, dropped = evictions + pushes turned away, timed out = pushes that ran out of time, and closed = all other pushes that began |
| AuditChain.Chain.ComputeHash | core/src/audit_log.rs:295-322 | the keyed hash of the length-prefixed fields |
| AuditChain.AbsorbAll | core/src/audit_log.rs:309-319 | feeding fields one by one is the encoding of their list |
| AuditChain.DecodeEncode | core/src/audit_log.rs:307-319 | reading the fields back off their length-prefixed encoding gives them back |
| AuditChain.EncodeInjective | core/src/audit_log.rs:307-319 | the length-prefixed encoding determines each field |
| AuditChain.MessageReadBack | core/src/audit_log.rs:295-322 | what is hashed reads back as link, sequence number, manager, action, actor and time stamp, in that order |
| AuditChain.MessageInjective | core/src/audit_log.rs:295-322 | the hashed message determines previous hash, sequence, manager, action, actor and timestamp |
| AuditChain.Chain.Append | core/src/audit_log.rs:206-237 | adds the entry linked to the head; an accepted chain stays accepted |
| AuditChain.Chain.Verify | core/src/audit_log.rs:245-289 | succeeds exactly when every entry passes, and otherwise reports the first that fails and why |
| AuditChain.FaultAgainstBuilt | core/src/audit_log.rs:245-289 | the reported fault is the first of sequence number, link and hash in which an entry differs from the one `append` would have put there, with both values |
| AuditChain.AcceptedLinks | core/src/audit_log.rs:198-289 | in an accepted chain the first entry links to 64 zero digits, each other one to the entry before it, and entry i is number i |
| AuditChain.AcceptedIffBuilt | core/src/audit_log.rs:206-289 | a chain is accepted if and only if it is what appending its own records builds |
| AuditChain.PrefixAccepted | core/src/audit_log.rs:245-289 | every prefix of an accepted chain is accepted |
| AuditChain.HeadDeterminesChain | core/src/audit_log.rs:198-322 | two accepted non-empty chains under one key with the same head hash are equal, or two of their messages collide |
| AuditChain.TamperingDetected | core/src/audit_log.rs:239-289 | a different chain with the same head hash is rejected unless messages collide |
| SecretKeyring.Keyring.Create | core/src/config.rs:120-160 | reports the first fault among a zero overlap, bad ids, duplicates, an expiring current key and expired old keys; otherwise holds exactly the old keys given, with their default expiry |
| SecretKeyring.ValidateIdIff | core/src/config.rs:102-113 | accepts exactly the non-empty ids of letters, digits, dots, underscores and hyphens |
| SecretKeyring.CurrentFaultMeaning | core/src/config.rs:126-132 | a zero overlap is reported first, then a bad id, then an expiry of the current key |
| SecretKeyring.FaultMeaning | core/src/config.rs:139-149 | of an old key a bad id is reported first, then an id used before, then an expiry not ahead |
| SecretKeyring.DefaultExpiryLasts | core/src/config.rs:134-149 | a key given without an expiry is usable until the overlap is over, one with an expiry until then |
| SecretKeyring.Keyring.Rotate | core/src/config.rs:197-224 | the new key is current, the old one expires after the overlap, expired ones go; or the error and no change |
| SecretKeyring.RotationAcceptedIff | core/src/config.rs:202-213 | accepted exactly for a proper id that no key has, without an expiry; which error otherwise |
| SecretKeyring.RotationKeeps | core/src/config.rs:215-222 | after a rotation the replaced key is kept for the overlap, and of the older ones exactly those that had not expired |
| SecretKeyring.Keyring.VerificationKey | core/src/config.rs:186-195 | the current key or an unexpired old one of that id |
| SecretKeyring.LookupFindsTheKey | core/src/config.rs:169-195 | the lookup returns a version if and only if it is the usable one of that id |
| SecretKeyring.RotationHonours | core/src/config.rs:197-224 | a rotation keeps the promise to every token issued before it |
| SecretKeyring.UnexpiredTokensVerify | core/src/auth.rs:750-775 | over every run of rotations, the key id of an unexpired token resolves to the key that signed it |
| SecretKeyring.ShortOverlapFails | core/src/config.rs:217-222 | a run with an unexpired token whose key is gone, for every overlap that is too short |
| SecretKeyring.OverlapSufficesIff | core/src/auth.rs:577-608 | the promise holds if and only if the overlap covers the lifetime and the lag of the clock reading |
| RefreshTokens.TokenStore.PurgeExpired | core/src/auth.rs:843-848 | removes exactly the records past their expiry |
| RefreshTokens.TokenStore.Issue | core/src/auth.rs:809-841 | purges, then adds one live record |
| RefreshTokens.TokenStore.BeginRotation | core/src/auth.rs:852-946 | a live token becomes a tombstone, a tombstone revokes its family, an unknown token is refused |
| RefreshTokens.TokenStore.Revoke | core/src/auth.rs:960-987 | removes the family of a known token and nothing else |
| RefreshTokens.RunKeepsInvariant | core/src/auth.rs:809-987 | every reachable state: families held at most once, records of issued tokens, rotated tokens not live |
| RefreshTokens.AtMostOneHolder | core/src/auth.rs:852-957 | over every interleaving, live tokens and rotations in flight of a family are at most one together, and stand for the subject the family was opened for |
| RefreshTokens.RotatesAtMostOnce | core/src/auth.rs:852-957 | a refresh token rotates at most once |
| RefreshTokenLives.StoreFromActs | core/src/auth.rs:809-987 | over every interleaving: a token has a record if and only if no act since it was issued read a clock more than a week after that or dropped its family, and the record is live if and only if it was not presented since |
| RefreshTokenLives.RotatesIff | core/src/auth.rs:852-946 | a presented token is rotated if and only if that is so up to now, it was not presented before, and now is within its week; the rotation is for its own family |
| RefreshTokenLives.UnissuedNeverRotates | core/src/auth.rs:932-944 | a token nobody issued is not rotated |
| RefreshTokenLives.ReuseEndsFamily | core/src/auth.rs:911-931 | a token presented again within its week ends every record of its family |
| RefreshTokens.ExtinctForever | core/src/auth.rs:809-987 | a family without live tokens and rotations stays so |
| RefreshTokens.RevocationEndsFamilyIff | core/src/auth.rs:960-987 | a revocation ends the family if and only if none of its rotations is in flight |
| RefreshTokens.RevocationUndone | core/src/auth.rs:948 | any run that ends in a revocation with a rotation of the family in flight goes on to one with a live token of it, at any clock reading |
| RefreshTokens.RevocationUndoneFromStart | core/src/auth.rs:852-987 | such a run from an empty store: log in, begin to rotate, revoke, finish, at any times in order |
| RefreshTokens.RevokedFamilyStaysDead | core/src/auth.rs:960-987 | revoked with none in flight, a family never has a live token again |
| IdempotencyKeys.StorageKeyInjective | core/src/idempotency.rs:108-120 | for colon-free methods the storage key determines user, method, path and key |
| IdempotencyKeys.StorageKeysCollideIff | core/src/idempotency.rs:108-120 | different requests with these methods and valid keys can share a storage key if and only if one method is the other, a colon, the length of a path that holds the rest, and nothing more or a colon and more |
| IdempotencyKeys.ConfusableShare | core/src/idempotency.rs:108-120 | such a pair of methods has colliding requests for every user and valid key |
| IdempotencyKeys.ColonNeedsNumber | core/src/idempotency.rs:103-120 | methods `A` and `A:5:X` collide, `A` and `A:B` never do |
| IdempotencyKeys.ValidateKey | core/src/idempotency.rs:135-148 | accepts exactly the keys whose pieces have the lengths and digits of a UUID |
| IdempotencyKeys.ValidKeyIff | core/src/idempotency.rs:134-148 | splitting and checking accepts exactly the texts of 36 characters with hyphens at 8, 13, 18 and 23 and hexadecimal digits elsewhere |
| Idempotency.Service.TryBegin | core/src/idempotency.rs:201-211 | returns an unexpired entry, or stores the new one with its expiry |
| Idempotency.Service.Begin | core/src/idempotency.rs:330-346 | invalid key, proceed, key reuse, in progress or replay, and the table that leaves |
| Idempotency.Service.Complete | core/src/idempotency.rs:350-359 | stores the response, or frees the key after a server error |
| Idempotency.Service.Abandon | core/src/idempotency.rs:363-365 | frees the key |
| Idempotency.SecondClaimIff | core/src/idempotency.rs:201-211 | a held key is given to a second request if and only if its clock reading is not before the holder's deadline |
| Idempotency.RunningKeyAnswers | core/src/idempotency.rs:337-345 | while a request holds the key in time, the same request is told it is still running and another that the key is in use, and nothing else changes |
| Idempotency.CompleteMeaning | core/src/idempotency.rs:350-359 | a response below 500 is found until it expires, a server error leaves nothing, and other keys stay as they were |
| Idempotency.ClaimsExcludeIff | core/src/idempotency.rs:201-218 | no two claims on a key are ever outstanding together if and only if every claim reads a clock before the deadlines outstanding on its key |
| Idempotency.PromptClaimsExclude | core/src/idempotency.rs:200-224 | if every claim is settled within its time to live, at most one is outstanding per key, under every interleaving |
| Idempotency.OverdueClaimsOverlap | core/src/idempotency.rs:204-209 | a run with two holders, for every request and time to live |
| IdempotencyReplays.ReplaysMatch | core/src/idempotency.rs:337-345 | over every run, each replay gives back a response stored under the same storage key and fingerprint |
| IdempotencyReplays.KeyAndPreimageDetermine | core/src/idempotency.rs:108-132 | storage key and hashed text together determine user, method, path, key and body, whatever bytes they are made of |
| IdempotencyReplays.GenuineReplays | core/src/idempotency.rs:124-132 | over every run whose fingerprints hash method, path and body, each replay answers a request with the same user, method, path, key and body as the one the response was stored for, or their hashed texts collide |
| IdempotencyReplays.SharedKeyRefused | core/src/idempotency.rs:342 | a different request under a storage key that is taken gets the key-reuse error, unless the hashed texts collide |
| IdempotencyReplays.ReplaysAreFaithful | core/src/idempotency.rs:330-365 | with freely chosen fingerprints and methods that are no confusable pair, colon-free ones for instance, every replay gives back a response stored for the same user, method, path, key and fingerprint |
| IdempotencyReplays.SharedKeyReplays | core/src/idempotency.rs:337-345 | a caller that gives one fingerprint to two requests with one storage key: a run in which the second is given the first one's response |
| IdempotencyReplays.ReplaysFaithfulIff | core/src/idempotency.rs:330-365 | with freely chosen fingerprints, replays are faithful in every run with a set of methods if and only if no two of them are confusable |
| IdempotencyKeys.ColonFreeNotConfusable | core/src/idempotency.rs:108-120 | colon-free methods are never confusable |
| Idempotency.ResponseStays | core/src/idempotency.rs:200-224 | a response stored with no rival claim stays in the table until it expires, under every interleaving |
| Idempotency.RepeatIsReplayed | core/src/idempotency.rs:337-345 | until then a repeat gets that very response and claims nothing, and a different request under the key is refused |
| IndexAudit.FindCover | core/src/index_audit.rs:316-324 | the first index of the list that covers the given one |
| IndexAudit.FindRedundant | core/src/index_audit.rs:307-334 | the report's entries, in order |
| IndexAudit.ReportedIff | core/src/index_audit.rs:312-334 | the report has one entry for each index that is neither unique nor primary and that another one supersedes, in the order of the indexes and no other, with its table, name and size and the name of the first that supersedes it |
| IndexAudit.DropsByNameIff | core/src/index_audit.rs:307-334 | a name is dropped if and only if an index of that name is neither unique nor primary and is superseded |
| IndexAudit.LessIff | core/src/index_audit.rs:323 | the order that decides between duplicates is the alphabetical one |
| IndexAudit.ChainEndsAtSurvivor | core/src/index_audit.rs:312-334 | following the reported covers from any index ends at one not dropped, same table and predicate, with columns that extend it |
| IndexAudit.DropsAreSafeIff | core/src/index_audit.rs:307-334 | all drops together leave every index extended by one still there if and only if that is so for the indexes dropped only because they share a redundant one's name |
| IndexAudit.BystanderServedIff | core/src/index_audit.rs:312-334 | such an index that is neither unique nor primary is still served if and only if a unique or primary index still there has its table, predicate and columns |
| IndexAudit.DropsAreSafe | core/src/index_audit.rs:307-334 | with distinct names, all drops together leave every index extended by one still there, and unique and primary indexes are never dropped |
| IndexAudit.SharedNameBreaksSafety | core/src/index_audit.rs:316-333 | without distinct names an index can lose every cover |
| FeeAnalytics.IntegerSqrt | core/src/fee_analytics.rs:464-475 | for every 64-bit n the loop ends without overflow and r·r ≤ n < (r+1)·(r+1) |
| FeeAnalytics.NewtonStep | core/src/fee_analytics.rs:470-473 | a step does not overflow, stays at or above the root, and stops only at it |
| FeeAnalytics.Interpolate | core/src/fee_analytics.rs:359-374 | lies between the two neighbouring ranks |
| FeeAnalytics.PercentileMonotone | core/src/fee_analytics.rs:346-374 | monotone in the rank, with saturating products |
| FeeAnalytics.PercentileBounded | core/src/fee_analytics.rs:346-374 | between the least and greatest sample, negatives counting as zero; zero without samples |
| FeeAnalytics.PercentileAtTop | core/src/fee_analytics.rs:359-369 | a rank at or beyond the last sample gives its fee |
| FeeAnalytics.PercentileBetweenRanks | core/src/fee_analytics.rs:359-374 | a rank between two sorted samples gives the lower fee and the weighted part of the gap to the upper |
| FeeAnalytics.WeightedRoundsDown | core/src/fee_analytics.rs:371-373 | the weighted part is the proportion rounded down, when the product fits |
| FeeAnalytics.PercentileOrderFree | core/src/fee_analytics.rs:346-374 | independent of the order of the samples |
| FeeAnalytics.CeilMulBpsExactIff | core/src/fee_analytics.rs:441-444 | the exact ceiling if and only if the product is at most (2^64 − 1) · 10000 |
| FeeAnalytics.BidsOrdered | core/src/fee_analytics.rs:145-185 | standard ≤ priority ≤ urgent when the urgent product fits, and economy ≤ standard for margins from 9000 |
| FeeAnalytics.BidsScaleSamples | core/src/fee_analytics.rs:165-182 | for 100 k + 1 samples in order: economy is 90% of sample 50 k, standard, priority and urgent are the margin of samples 50 k, 75 k and 95 k, rounded up |
| FeeAnalytics.BidsWithoutSamples | core/src/fee_analytics.rs:146-158 | without samples 100%, 100%, 150% and 200% of a base fee of 100 |
| FeeAnalytics.OrderedForAllIff | core/src/fee_analytics.rs:178-182 | all four bids are in order for every sample if and only if the margin is from 9000 to 20000 |
| FeeAnalytics.TiersOrderedForAllIff | core/src/fee_analytics.rs:178-182 | the three dearer bids are in order for every sample if and only if the margin is at most 20000 |
| FeeAnalytics.CalculateEma | core/src/fee_analytics.rs:322-332 | the loop computes the moving average, negative results counting as zero |
| FeeAnalytics.EmaFollows | core/src/fee_analytics.rs:322-332 | the average starts at the first sample and each later one moves it two parts in period + 1 of the way, rounded toward the average, when that fits |
| FeeAnalytics.EmaBounded | core/src/fee_analytics.rs:322-332 | the average stays within the range of the samples when its width is at most 2^63 − 1 |
| FeeAnalytics.AlwaysWithinIff | core/src/fee_analytics.rs:328-330 | the average of samples within a range is always within it if and only if the range is no wider than 2^63 − 1 or is the whole signed range |

## Left out

- The lexer (`lex`) and the texts of parse errors: the parser is modelled on tokens, and a failure is one value.
- Page arguments, field costs and variables beyond the numbers the multiplier reads; `DataLoader`, `OperationRateLimiter`, `SubgraphRegistry`, persisted queries and batching: they would add easier members.
- `usize` depth is unbounded; the recursion depth of parser and walker on a real stack is not modelled.
- Job payloads, progress, results, error texts, alert hooks, metrics and history; the number of a job is unbounded.
- Splitting a cron expression at white space, and the civil calendar, which is a parameter; minutes beyond the four-year search horizon.
- Job queue runs keep the configuration fixed and the clock nondecreasing, as their properties need.
- Wake-ups of waiting receivers, fairness of the semaphore, cancelled publish futures, and subscribers that come and go during a run; the published counter, and refusals because the whole bus is closed, are modelled for the sequential publish only.
- The `permit_held` mark of a queued value, which is always set.
- HMAC, SHA-256, RSA, random values and the RFC 3339 text of timestamps; poisoned locks.
- The leeway a token library may add to the expiry, and saturation of an expiry beyond 64 bits.
- Upper-casing of request methods: methods are given as stored. The hash behind a fingerprint is a parameter.
- Where an unchecked sum is modelled as wrapping, that is a release build; a debug build stops instead.
- The Redis store; overflow of a clock reading plus a time to live or token lifetime.
- Parsing index definitions, and the missing-index and unused-index passes; dropping unused and redundant indexes together is not claimed to be safe.
- Confidence, volatility, trend and moving-average fields of a prediction.
- HTTP, SQL, metrics, configuration loading, and everything outside `core/src`.
