# Verified model of the webhook delivery engine

This project models the protocols and algorithms of the webhook delivery engine in Dafny and proves what
they promise: the edge rate limiter, idempotent publishing with its fan-out, the delivery worker's event
loop, keyset pagination with authenticated cursors, backoff and result handling, the parsers and encoders
around them, the image manifest checker, the benchmark's quiescing receiver and the retention drain.

Verify everything with `dafny verify dfyconfig.toml`.

## What is where

| files | component |
|---|---|
| `EdgeModel`, `EdgeTheorems`, `EdgeConservation`, `EdgeDecision`, `EdgeSchedules`, `EdgeCapacity`, `EdgeLimiter` | the fixed-window limiter over a bounded LRU table, on values and as the mutable object, against unbounded per-key counters; what it decides and which keys it keeps, read off its buckets; on which schedules its limit holds and how many keys it can tell apart |
| `PublishModel`, `PublishSafety`, `PublishTheorems`, `PublishHistory`, `PublishFlow` | insert-or-find by idempotency key at READ COMMITTED as interleaved steps, its invariant and theorems, and the call as it is written, shown to be a run of those steps |
| `Scheduler`, `SchedulerTheorems`, `SchedulerDecisions`, `WorkerLoop`, `WorkerConfig` | the worker's select loop, goroutines, channel and drain as a step machine, its invariant and theorems, what each outcome does and what ends a run, the loops as they are written, and the numeric configuration |
| `Cursor`, `Base64Url`, `BigEndian`, `Pagination` | cursors (base64url as in section 5 of RFC 4648) and the walk over a changing table |
| `Backoff`, `ResultPipeline`, `ResultDecisions` | 64-bit delay arithmetic; from the transport's outcome to the store's arguments; what is retried, when, and what is final (`Retry-After` as in section 10.2.3 of RFC 9110) |
| `JsonDecode` | duplicate-free decoding of a token stream (unique names as in section 2.3 of RFC 7493) and the structure check of events |
| `Text`, `ManifestText`, `ManifestFile`, `ManifestCheck`, `ManifestTar`, `ManifestFormat` | manifests: numerals and order, one line, a whole file, acceptance, the way from an archive, and lines and headers field by field |
| `Receiver`, `ReceiverEvents` | the receiver's monitor and its quiescence protocol; its books and its success told by the events of the run |
| `Retention` | the purge loop and readiness |
| `Cryptobox`, `ClaimCrypto`, `Signing`, `Tokens` | authenticated contexts, opening a claim, the signed text and header, API keys and session tokens |
| `Common`, `Arith` | small shared definitions |

HMAC and AES-GCM are uninterpreted functions. Wherever a result needs that two texts do not share a
digest, it assumes so for the very texts it speaks of. Of the cipher `ClaimCrypto` assumes that it opens what
it sealed; where a result also needs that an envelope does not open under other associated data, it assumes so
for the very envelope and data it speaks of, since no cipher with a fixed tag can promise it for all. Loops and
objects that change state in the program are methods and classes here, each proved equal to a function or to a
run of a step machine, and the promises are lemmas about those.

## Where the program does less than it seems to promise

* Windows of the limiter may go back, because the clock is read before the lock is taken. The global limit
  holds on exactly the schedules whose windows are each consecutive or small
  (`EdgeSchedules.GlobalLimitExact`; a run that exceeds it is `EdgeConservation.ReturningWindowForgets`).
* The bounded table decides like unbounded counters up to MaxBuckets keys in a window and no further
  (`EdgeCapacity.CapacityIsTight`).
* The retry hint is at most the window exactly for instants from 1970 on, or on a window boundary
  (`EdgeConservation.RetryReachesNextWindow`).
* The configuration check admits leases from 10.1 seconds, the claim request only from 20
  (`WorkerConfig.ClaimValidIffLeaseLongEnough`).
* A manifest line of 2^20 bytes or more is printed but not read back (`ManifestFile.RoundTrip`,
  `ManifestFile.LongPathIsLost`); the parser accepts modes down to -777 octal
  (`ManifestText.ParseModeExact`); a link whose target is `-` is written but refused by the parser
  (`ManifestTar.TarManifestParses`).
* The skew check of a signature also passes for instants 2^63 nanoseconds or more ahead
  (`Signing.FreshExact`, `Signing.FutureStampIsFresh`).

Three more facts are about a function alone; the program never calls it so:

* `AAD` is injective on parts shorter than 4 GiB and no longer ones (`Cryptobox.AadBoundIsTight`); every part
  it is given is short.
* A refused expectation leaves its good prefix behind, and without any expectation a quiet receiver passes
  (`Receiver.SnapshotMeansPrefixArrived`, `Receiver.RefusedExpectationCanComplete`,
  `Receiver.SnapshotWithoutExpectation`); the benchmark stops when its expectation is refused.
* A redirect status that 16 bits do not hold would be reported as an invalid status
  (`ResultPipeline.RedirectIsPermanent`); Go's client asks about 301, 302, 303, 307 and 308 only.

## Model

| member | source | states |
|---|---|---|
| EdgeTheorems.LruRefinesExact | internal/ratelimit/edge.go:85-132 | on every run with non-decreasing windows and at most MaxBuckets keys per window, each decision and retry value equals that of unbounded per-key, per-window counters |
| EdgeTheorems.RunAgrees | internal/ratelimit/edge.go:85-132 | the same from any state the two limiters agree on, counting the keys already presented in the current window |
| EdgeTheorems.AllowAgrees | internal/ratelimit/edge.go:85-115 | one request: same decision, and list order, counters and global count still agree with the exact limiter |
| EdgeTheorems.TouchKeepsCounts | internal/ratelimit/edge.go:117-132 | looking a bucket up, with its eviction and reset, changes no live count of the window, and keeps keys distinct and the list ordered by window |
| EdgeTheorems.EvictsStale | internal/ratelimit/edge.go:124-128 | while the window's keys fit in the table, the evicted bucket belongs to an earlier window |
| EdgeTheorems.BumpCounts | internal/ratelimit/edge.go:111-113 | a hit raises that key's count by one and no other |
| EdgeTheorems.WindowBounds | internal/ratelimit/edge.go:88 | with truncating division the window start is a multiple of the window, less than one window before the instant from 1970 on and less than one after it earlier |
| EdgeTheorems.WindowMonotone | internal/ratelimit/edge.go:88 | later instants never have an earlier window |
| EdgeCapacity.CapacityIsTight | internal/ratelimit/edge.go:117-132 | for every policy whose global limit leaves room, and origins with different keys: all in-order runs presenting at most n keys in a window are decided like unbounded counters if and only if n is at most MaxBuckets |
| EdgeCapacity.TableForgets | internal/ratelimit/edge.go:124-131 | once as many other origins have asked as there are buckets, an origin at its limit is admitted again in the same window |
| EdgeConservation.TableStaysBounded | internal/ratelimit/edge.go:117-132 | for any requests and any clock: keys never repeat and the table never exceeds MaxBuckets |
| EdgeConservation.GlobalLimitHolds | internal/ratelimit/edge.go:99-110 | when windows do not go back, every window admits at most Global requests and the live global count is the number admitted; the exact schedules are those of EdgeSchedules.GlobalLimitExact |
| EdgeSchedules.GlobalLimitExact | internal/ratelimit/edge.go:86-110 | for Origin at least Global at least one: whatever is requested at given instants, no window admits more than Global, if and only if every window's requests are consecutive or at most Global |
| EdgeSchedules.GlobalLimitExactForOrigins | internal/ratelimit/edge.go:86-110 | the same for every Origin of at least one, given as many origins with different keys as requests |
| EdgeSchedules.ContainedKeepsLimit | internal/ratelimit/edge.go:99-110 | on such schedules the limit holds for every policy |
| EdgeSchedules.OrderedIsContained | internal/ratelimit/edge.go:88 | a clock that does not go back gives only such schedules |
| EdgeConservation.ReturningWindowForgets | internal/ratelimit/edge.go:86-101 | when a window comes back its count is forgotten: two admissions under a global limit of one |
| EdgeConservation.RetryReachesNextWindow | internal/ratelimit/edge.go:153-159 | waiting the retry value lands exactly on the next window's start; from 1970 on no shorter wait leaves the window; the value is in 1..window exactly from 1970 on or on a boundary |
| EdgeConservation.DenialCountsNothing | internal/ratelimit/edge.go:99-109 | a denied request raises no counter |
| EdgeConservation.AdmissionIsCounted | internal/ratelimit/edge.go:102-113 | with room for two buckets every bucket an admission raises is still in the table, one above what it held when looked up, and within its limit |
| EdgeConservation.OriginsNeverExceedGlobal | internal/ratelimit/edge.go:97-114 | over every in-order run the live origin counts add up to at most the live global count |
| EdgeDecision.AllowDecides | internal/ratelimit/edge.go:85-115 | for every bounded table, instant and request: admitted exactly when the global counter of the truncated window, the origin's bucket and, for a non-empty prefix, the prefix's bucket each have room, where the origin's lookup may cost the prefix the last bucket of a full table; otherwise denied with the seconds to the window's end, at least one |
| EdgeDecision.ExactDecides | internal/ratelimit/edge.go:85-115 | the reference counters decide by the same three limits, and an admission raises exactly the global counter and those of the two keys |
| EdgeDecision.AllowTouchesOnly | internal/ratelimit/edge.go:102-113 | whatever the answer, every bucket left in the table is the origin's, the prefix's or one that was there unchanged |
| EdgeDecision.TableHoldsLatest | internal/ratelimit/edge.go:117-132 | after any run, whatever the clock does, the table holds a key's bucket exactly when the key was asked for and fewer than MaxBuckets other keys have been asked for since |
| EdgeLimiter.EdgeLimiter.Allow | internal/ratelimit/edge.go:85-115 | the method on list, map and buckets decides and leaves the state exactly as the value model does, whose decision is EdgeDecision.AllowDecides, while it holds pointers to buckets that a later lookup moves |
| EdgeLimiter.EdgeLimiter.Find | internal/ratelimit/edge.go:117-132 | the in-place lookup, move to front, eviction and insertion produce the model's list and keep map and list in step |
| EdgeLimiter.EdgeLimiter.Lookup | internal/ratelimit/edge.go:102-109 | the lookup loop touches buckets in order and stops at the first full one; the buckets it returns are those of the wanted keys |
| EdgeLimiter.EdgeLimiter.HitAll | internal/ratelimit/edge.go:111-113 | raising the held buckets is raising the counters of their keys, skipping none that are still in the table |
| EdgeLimiter.EdgeLimiter.EvictOldest | internal/ratelimit/edge.go:124-128 | removes the back of the list and its key from the map, and nothing else |
| EdgeLimiter.Bucket.Reset | internal/ratelimit/edge.go:147-151 | a bucket of another window becomes an empty one of this window; one of this window is unchanged |
| PublishHistory.FanoutFollowsSubscriptions | internal/event/postgres.go:55-80 | every event published in a run has exactly one delivery for each endpoint that had an active subscription to its type in its workspace in the database its publisher's query ran on at that moment of the run, for no other, and at most 100 |
| PublishTheorems.FanoutIsAtomic | internal/event/postgres.go:18-80 | in every reachable state each committed event, also one from before the run, has its own id and exactly one delivery per endpoint recorded as selected for it, and every delivery belongs to one committed event |
| PublishTheorems.SameKeySameAnswer | internal/event/postgres.go:38-50 | all answered callers with one key got the same event, the same set of deliveries and had the same content, and at most one of them created it |
| PublishTheorems.ConflictIffContentDiffers | internal/event/postgres.go:31-40 | a conflict is answered only when version or fingerprint of the key's committed event differ from the record's; after an insert that affected no row the lookup finds that event, and takes it exactly when both are equal |
| PublishTheorems.AnswerIsCommitted | internal/event/postgres.go:38-80 | an answered caller's key holds an event with the answered id and the caller's own fingerprint and version; the answered delivery ids are, each once, all of that event's deliveries; duplicate is said exactly when the event is not the caller's own |
| PublishTheorems.FailureLeavesNothing | internal/platform/tenanttx/tenanttx.go:21-54 | a call that failed has left neither event nor delivery of its id, except that a commit of unknown effect may have left its whole event |
| PublishTheorems.SelectionDecides | internal/event/postgres.go:55-66 | more than 100 endpoints subscribed in the workspace end the call as invalid; any other number are its targets, in order |
| PublishTheorems.CommittedIsFinal | internal/event/postgres.go:21-27 | no step changes a committed event or adds to or takes from its deliveries |
| PublishTheorems.CommittedIsFinalInRuns | internal/event/postgres.go:21-27 | the same over every continuation of a run |
| PublishTheorems.NeverStuck | internal/event/postgres.go:21 | whenever a call is not done, it or the caller holding its key can take a step that is not a failure |
| PublishTheorems.PastInsertGoesOn | internal/event/postgres.go:25-50 | a call past its insert is never blocked |
| PublishSafety.NextInv | internal/platform/tenanttx/tenanttx.go:21-54 | every statement, commit, failing commit and rollback of every caller keeps the invariant |
| PublishSafety.RunInv | internal/platform/tenanttx/tenanttx.go:21-54 | the invariant holds after every run |
| PublishSafety.CommitFanout | internal/event/postgres.go:67-78 | what a commit makes visible is one delivery per selected endpoint, none missing and none twice |
| PublishFlow.Publish | internal/platform/tenanttx/tenanttx.go:21-54 | with others' steps between any two statements and any statement failing or panicking: the transaction is committed or rolled back on every path, also while a panic unwinds; the returned value is the one the step machine ends with, and from a consistent start it is sound; if nothing fails by itself the call fails for no other reason than content, fan-out, a random id in use or a wait for the key's holder |
| PublishFlow.InsertOrFind | internal/event/postgres.go:20-51 | the callback as written is a run of steps that ends ready with its result, with its error, or panicking before its end |
| PublishFlow.InsertDeliveries | internal/event/postgres.go:55-80 | on success one row for each endpoint subscribed in the queried database, the j-th row and returned id for the j-th endpoint in order, no id twice; more than 100 endpoints are refused; without failures nothing else is but a random id in use |
| PublishFlow.FindExisting | internal/event/postgres.go:28-50 | a conflict means another version or fingerprint under the key in the database of the lookup; a result means that row has the caller's version and fingerprint, and gives its id and all its deliveries in ascending order |
| PublishFlow.CommitResult | internal/platform/tenanttx/tenanttx.go:49-53 | commit, or a commit that fails or panics and whose effect is unknown |
| PublishFlow.CollectIds | internal/event/postgres.go:89-100 | the row loop returns the rows' ids in order, or nothing if a row cannot be scanned or the rows end in an error |
| SchedulerTheorems.NoJobIsLost | internal/delivery/scheduler.go:25-86 | over every run active is running jobs plus buffered results and within 0..concurrency, every claim handed over is one job in exactly one place or next to be started, and no result is dropped, even after the drain gave up |
| SchedulerTheorems.SendConserves | internal/delivery/scheduler.go:141-144 | the non-blocking send always finds room |
| SchedulerTheorems.LoopNeverSleepsForever | internal/delivery/scheduler.go:32-86 | at every loop head the timer is armed or has fired; every claim asks for 1 up to the free slots and the batch size |
| SchedulerTheorems.PanicsAreReturned | internal/delivery/scheduler.go:39-42 | a job or claim panic that Run receives before cancellation is in the errors it returns; an early return has cancelled the jobs left behind |
| SchedulerTheorems.DrainTerminates | internal/delivery/scheduler.go:148-178 | each drain selection lowers active plus the pending force signal, and nothing else touches them |
| SchedulerTheorems.DrainIsBounded | internal/delivery/scheduler.go:161-177 | in every run the drain makes at most active + 1 selections before Run returns |
| SchedulerTheorems.DrainHasSource | internal/delivery/scheduler.go:161-166 | while draining, a job still runs or a result is waiting |
| SchedulerTheorems.ForceBeforeDeadline | internal/delivery/scheduler.go:152-159 | for every positive shutdown the force timer is due strictly before the deadline: five seconds before it, or half way when there are no more than five |
| SchedulerTheorems.NextInv | internal/delivery/scheduler.go:32-86 | every arm, completion and outside event keeps the invariant |
| SchedulerTheorems.RunInv | internal/delivery/scheduler.go:17-86 | the invariant holds after every run |
| SchedulerDecisions.OnlyCauseEndsRun | internal/delivery/scheduler.go:32-66 | over every run the loop is left only after a cancellation, a panic while claiming or a received job panic, however many claims and jobs fail |
| SchedulerDecisions.JobsStopForCause | internal/delivery/scheduler.go:24-42 | over every run the running jobs are cancelled only by a panic, the force signal or the deadline, never by the caller's cancellation alone |
| SchedulerDecisions.DrainReportsFailures | internal/delivery/scheduler.go:161-177 | however the run goes on once the loop was left, the errors are those it was left with and then every received failure or panic, in order, and nothing else |
| SchedulerDecisions.ClaimDecides | internal/delivery/scheduler.go:55-83 | a failed claim without cancellation keeps looping with failureBackoff one higher up to 32767 and the poll timer set for it; an empty one raises emptyPolls likewise and forgets the failures; a filled one hands over all its claims; more rows than asked for, or a panic, end the loop with that error |
| SchedulerDecisions.ResultDecides | internal/delivery/scheduler.go:36-48 | a job's panic ends the loop and cancels the others, any other failure raises failureBackoff and resets the timer, a success forgets the failures |
| SchedulerDecisions.PollDecides | internal/delivery/scheduler.go:49-55 | the poll claims the smaller of free slots and batch size, or with none free waits again |
| SchedulerDecisions.StartDecides | internal/delivery/scheduler.go:68-83 | after the last claim's job emptyPolls starts over, and the next poll is due at once while a slot is free |
| SchedulerDecisions.DrainDecides | internal/delivery/scheduler.go:161-177 | a result joins the errors unless it is a success or a cancellation, the last one returns; the force signal cancels the jobs once; the deadline cancels and returns |
| SchedulerDecisions.OutsideDecides | internal/delivery/scheduler.go:33-35 | a finished job's result is buffered under its id, and a seen cancellation leaves the loop without error |
| WorkerLoop.Run | internal/delivery/scheduler.go:17-86 | the loop as written, with its own counters and timer resets, is a run of the step machine against any environment; counters and timer, with its delay, agree with the machine's; it returns the machine's errors, only for one of those causes, and otherwise goes on as long as anything happens |
| WorkerLoop.ClaimAndStart | internal/delivery/scheduler.go:55-83 | unless cancelled or panicked the loop goes on: with one failure more, with one empty poll more and no failures, or with more active jobs and no empty polls; counters and timer stay the machine's |
| WorkerLoop.StartJobs | internal/delivery/scheduler.go:68-71 | one job per claim, started one at a time while earlier ones may already end |
| WorkerLoop.Drain | internal/delivery/scheduler.go:148-178 | the drain loop as written joins exactly the machine's errors and returns when the machine does |
| WorkerLoop.CollectClaims | internal/delivery/postgres.go:50-66 | at most as many claims as attempt ids asked for; one row more is a panic |
| WorkerConfig.ClaimValidIffLeaseLongEnough | internal/platform/config/validation.go:61-92 | under an accepted configuration the claim request for any free slots is valid exactly when the lease is at least 20 seconds |
| WorkerConfig.ShortLeaseIsAcceptedButRefused | internal/platform/config/validation.go:82-84 | an accepted configuration whose claims are all refused |
| Pagination.PageExact | internal/delivery/views_postgres.go:41-83 | a page of a limit in 1..100 holds the first rows after its cursor by later instant and then greater id, as many as the limit allows, and a next cursor for its last row exactly when rows are left; other limits and texts that are no cursor are refused |
| Pagination.ExactlyOnce | internal/delivery/views_postgres.go:41-83 | following next cursors from the start over a table that changes between pages: no failure, strictly descending by instant and then id, nothing twice, only rows that were there, and once finished every row that was there throughout |
| Pagination.WalkEnumerates | internal/delivery/views_postgres.go:51-72 | the same from any cursor, for the rows below it |
| Pagination.PagesNeeded | internal/delivery/views_postgres.go:58 | on a table at rest the walk from a cursor ends after exactly max(1, ceil(n / limit)) pages |
| Pagination.PagesOfTable | internal/endpoint/postgres.go:104-134 | the same for a whole table of n rows |
| Pagination.CutShape | internal/delivery/views_postgres.go:76-81 | a full page carries a cursor that stands for its last row, a short one carries none |
| Pagination.CollectThenTruncate | internal/delivery/views_postgres.go:63-81 | the delivery list's loop and truncation compute the cut |
| Pagination.StopAtExtraRow | internal/endpoint/list.go:63-83 | the endpoint list's loop with its early stop computes the same cut |
| Cursor.AcceptedExact | internal/delivery/list.go:37-69 | a text is accepted for a position exactly when it is strict base64url of 73 bytes: version 1, this workspace, an instant, an id, and the tag of those under this list's label; deliveries only up to 256 characters |
| Cursor.IssuedExact | internal/delivery/list.go:24-35 | a cursor with that layout is issued exactly for ids other than nil, instants other than the zero time and a key that is there |
| Cursor.EncodedDecodes | internal/delivery/list.go:24-59 | a cursor decodes for its workspace to its position, the instant taken modulo 2^64 nanoseconds |
| Cursor.RoundTripIffInt64 | internal/delivery/list.go:24-59 | decoding an encoded position gives it back exactly when its instant fits int64 nanoseconds |
| Cursor.AcceptedWasIssued | internal/endpoint/list.go:103-121 | unless two given texts collide, a cursor accepted with an issued tag was issued for that list, workspace and position |
| Cursor.FillPayload | internal/delivery/list.go:28-32 | filling the buffer field by field gives the 41-byte payload |
| Base64Url.EncodedGroups | internal/delivery/list.go:34 | every three bytes are written as the four base-64 digits of their 24-bit number, a last byte or pair with zero bits behind |
| Base64Url.LetterOfAlphabet | internal/delivery/list.go:34 | the digits are the letters of the URL and filename safe alphabet, in its order |
| Base64Url.RoundTrip | internal/delivery/list.go:34-44 | strict unpadded decoding inverts encoding |
| Base64Url.DecodedIsCanonical | internal/delivery/list.go:44 | what decodes is, up to skipped line breaks, the encoding of its bytes |
| Base64Url.EncodedText | internal/delivery/list.go:34 | n bytes encode to ceil(4n/3) letters of the alphabet |
| BigEndian.GetCons | internal/delivery/list.go:53 | the first byte of a number is its most significant one |
| BigEndian.PutGet | internal/delivery/list.go:31 | reading a written number gives it back |
| BigEndian.GetPut | internal/delivery/list.go:53 | writing a read number gives the bytes back |
| BigEndian.SignedReading | internal/delivery/list.go:53 | the signed reading of a number is the int64 that differs from it by a multiple of 2^64 |
| BigEndian.Int64RoundTrip | internal/delivery/list.go:31 | two's complement there and back is the identity exactly on int64 |
| Backoff.GrowCeiling | internal/delivery/retry.go:34-44 | for all nonnegative int64 base and cap and every int16 attempt the doubling loop reaches min(cap, base * 2^max(attempt-1,0)) with no overflow at any step |
| Backoff.RetryDelay | internal/delivery/retry.go:30-60 | the method equals the delay specification for every jitter function |
| Backoff.RetryDelayBounds | internal/delivery/retry.go:49-59 | the delay is in 0..cap, the longer of the clamped jitter and a server delay within the cap, and unaffected by one beyond it |
| Backoff.RetryDelayExact | internal/delivery/retry.go:30-60 | without a usable policy no wait; otherwise the draw brought into 0..ceiling, or a longer server delay within the cap |
| Backoff.CeilingDoubles | internal/delivery/retry.go:34-44 | the ceiling is the base for the first attempt and doubles with each later one, up to the cap |
| Backoff.CeilingMonotone | internal/delivery/retry.go:34-44 | ceilings never shrink with the attempt and reach the cap |
| Backoff.PollDelay | internal/delivery/retry.go:107-128 | the poll delay is half the ceiling and a draw brought into the other half, whatever the jitter |
| Backoff.DefaultPollCap | internal/delivery/retry.go:91-95 | the poll cap is min(16 * base, 10s) without overflow for accepted poll intervals |
| ResultDecisions.AnswerDecides | internal/delivery/outbound.go:110-140 | for an answer of at most 64 KiB: 2xx succeeds; 408, 425, 429 and 500..599 are retried with that status and category after the longer of the server's wait and the job's own; every other HTTP status is final; a longer body or another code is final as such |
| ResultDecisions.FailureDecides | internal/delivery/outbound.go:91-115 | refused redirects and forbidden addresses are final; deadline, cancellation, timeout and network failures are retried, the first that applies giving the category |
| ResultDecisions.RefusalDecides | internal/delivery/outbound.go:21-44 | a body that cannot be read is retried; a job refused before its request is final with its reason |
| ResultDecisions.HintIsAskedWait | internal/delivery/retry.go:62-83 | n seconds with 1 <= n within the cap, or the distance to a later instant within the cap, saturated at 64 bits, are the hint; anything else is none |
| ResultPipeline.FinalArgumentsAreSound | internal/delivery/delivery.go:140-162 | for every transport outcome, header and attempt: status absent or 100..599, a delay exactly for retries and equal to the longer of backoff and accepted hint, within 0..cap, a category exactly without success, success exactly for a 2xx of at most 64 KiB |
| ResultPipeline.HintFits | internal/delivery/retry.go:62-83 | an accepted Retry-After never exceeds the cap nor is negative |
| ResultPipeline.RedirectIsPermanent | internal/delivery/outbound.go:93-100 | a refused redirect is permanent and reaches the store with its status and category for every status the client asks about |
| ResultPipeline.FinalizeLog.ProcessClaim | internal/delivery/delivery.go:140-162 | unless its delivery panics a job finalizes exactly once with the arguments that AnswerDecides, FailureDecides and RefusalDecides describe; the store's error and any panic are passed on; the observer is told once, on every path, of result, changed flag and error |
| ResultPipeline.FinalizeLog.Finalize | internal/delivery/postgres.go:89-111 | one call with the normalized arguments, and the store's answer |
| JsonDecode.Decoder.DecodeUnique | internal/event/event.go:121-173 | the recursive decoder computes the parse of the remaining tokens and consumes exactly that |
| JsonDecode.Decoder.Members | internal/event/event.go:131-155 | the object loop, refusing a name it has seen |
| JsonDecode.Decoder.Items | internal/event/event.go:156-169 | the array loop |
| JsonDecode.TreeDecodes | internal/event/event.go:121-173 | for every tree and suffix: the tree's value and the suffix if no object at any depth repeats a name, a failure otherwise |
| JsonDecode.DecodedIsTree | internal/event/event.go:121-173 | whatever decodes is the tokens of a tree without repeated names, with its value |
| JsonDecode.StructureIsExact | internal/event/event.go:93-113 | the structure check accepts with a type exactly the token streams of duplicate-free objects with data and that type, of 1 to 128 ASCII letters, digits and, from the second character on, `.`, `_`, `:` or `-`, and nothing after |
| JsonDecode.UniqueExact | internal/event/event.go:131-155 | duplicate-free means that in every object at any depth, inside arrays too, the members' names differ pairwise |
| JsonDecode.Decoder.ValidateStructure | internal/event/event.go:93-113 | the check as written computes that verdict |
| Text.SplitJoin | test/imagelayout/verify.go:48 | splitting joined fields without separators gives them back |
| Text.JoinSplit | test/imagelayout/verify.go:48 | joining split fields gives the text back |
| Text.CanonicalIntegerExact | test/imagelayout/manifest.go:166-172 | exactly the canonical decimals of 0..2^63-1 are read, to their value |
| Text.DigitsNumeral | test/imagelayout/manifest.go:148-149 | printed digits denote their number |
| Text.BeforeExact | test/imagelayout/verify.go:49 | paths are ordered bytewise: a proper start comes first, else the smaller byte where they first differ |
| ManifestFormat.LineIsFields | test/imagelayout/manifest.go:147-153 | an entry is printed as path, kind, mode, uid, gid, link and hash with tabs between |
| ManifestFormat.ModeIsOctal | test/imagelayout/manifest.go:148-149 | a mode of 0..07777 is printed as the four octal digits of its value, one down to -0777 as minus and three |
| ManifestFormat.FitsExact | test/imagelayout/verify.go:76-98 | the entries a line can hold, condition by condition on its seven fields |
| ManifestFormat.HeaderDecides | test/imagelayout/manifest.go:64-115 | exactly the headers with a known flag, a valid name, a mode of twelve bits, owners not negative and, for links, a target, are taken, each as the entry of its own fields |
| ManifestText.ValidPathExact | test/imagelayout/manifest.go:117-127 | a path is valid exactly when it is valid text and each slash-separated component is neither empty nor a dot name |
| ManifestText.ParseModeExact | test/imagelayout/verify.go:52-55 | a mode is read exactly from its four-column octal print, for -0777..07777 |
| ManifestText.LineExact | test/imagelayout/verify.go:48-67 | a line parses to an entry exactly when the entry fits, follows the previous path and prints to that line |
| ManifestFile.RoundTrip | test/imagelayout/manifest.go:147-153 | the text of an ordered list of fitting entries parses back to it exactly when every line is shorter than 2^20 bytes, and fails otherwise |
| ManifestFile.ParsePrint | test/imagelayout/verify.go:42-74 | a plain text that parses prints back to itself |
| ManifestFile.ParsedIsListed | test/imagelayout/verify.go:49-68 | whatever parses is a strictly ordered list of fitting entries |
| ManifestFile.LineEndsDoNotMatter | test/imagelayout/verify.go:43-47 | a carriage return before the line feed, or no line feed at the end of the file, changes nothing |
| ManifestFile.OrderedPaths | test/imagelayout/verify.go:49 | in such a list any earlier path is before any later one, so none repeats |
| ManifestFile.LongPathIsLost | test/imagelayout/verify.go:44 | an entry that is printed but cannot be read back |
| ManifestFile.ParseManifest | test/imagelayout/verify.go:42-74 | the scanning loop computes the parse |
| ManifestFile.Scanner.Scan | test/imagelayout/verify.go:43-47 | the next line without its line end, or failure on one too long |
| ManifestFile.WriteManifest | test/imagelayout/manifest.go:147-153 | the printing loop computes the print |
| ManifestCheck.AcceptanceIsExact | test/imagelayout/verify.go:100-122 | for lists with unique paths: accepted exactly when the target holds the base's entries unchanged and one entry for each allowed addition, equal in every field but a hash left open, at paths not of the base, and nothing else |
| ManifestCheck.VerifyEntries | test/imagelayout/verify.go:100-122 | the loops with early returns compute the three checks |
| ManifestCheck.Index | test/imagelayout/verify.go:124-130 | the index maps each path to its last entry |
| ManifestCheck.PathsFill | test/imagelayout/verify.go:118 | the counting step: from the equal lengths, base and expected paths are disjoint and are all of the target's |
| ManifestCheck.RepeatedPathsDeceive | test/imagelayout/verify.go:118-120 | with a repeated base path an addition that is not allowed is accepted |
| ManifestCheck.VerifyFiles | test/imagelayout/verify.go:17-31 | on files, where parsing makes paths unique, accepted exactly when all three parse and the target is the base with the allowed additions and nothing else |
| ManifestTar.TarManifestParses | test/imagelayout/manifest.go:38-62 | an archive's manifest is ordered and holds exactly its entries, and its text parses back exactly when no link points to a dash and every line is short enough |
| ManifestTar.ReadTar | test/imagelayout/manifest.go:38-62 | the reading loop refuses repeated paths and bad headers and sorts the rest |
| ManifestTar.EntryFits | test/imagelayout/manifest.go:64-94 | an entry made from a header fits a manifest line exactly when it is not a link to a dash |
| Receiver.SnapshotMeansAllArrived | test/benchmark/receiver.go:152-165 | in every run, after a successful expectation a successful snapshot means every expected id arrived with a valid signature and the counters of invalid and unexpected bookings are zero; what those count is ReceiverEvents.BooksTellEvents |
| ReceiverEvents.SnapshotExact | test/benchmark/receiver.go:152-165 | in every run a snapshot succeeds exactly when the receiver has stopped accepting, as many handlers ended as were let in, every booking of the whole run was verified and of an id expected at that moment, and every expected id was booked so |
| ReceiverEvents.SuccessMeansOnlyThese | test/benchmark/receiver.go:152-165 | after a successful expectation a successful snapshot means every booking of the whole run came after it, was verified and of one of its ids, and each of them was booked |
| ReceiverEvents.BooksTellEvents | test/benchmark/receiver.go:94-125 | after every run invalid, unexpected and duplicates are the numbers of unverified, of verified but unexpected and of repeated bookings, seen holds the ids booked while expected, and active counts those let in and not ended |
| ReceiverEvents.ReportTellsEvents | test/benchmark/receiver.go:152-157 | the report gives just these numbers, and as missing what the expectation has left |
| ReceiverEvents.PrefixIsLongest | test/benchmark/receiver.go:52-60 | the ids taken from a list are those before its first empty or repeated one |
| Receiver.SnapshotMeansPrefixArrived | test/benchmark/receiver.go:44-62 | after the first expectation, taken whole or not, a successful snapshot means exactly the good prefix arrived, hence the whole list if and only if each of its ids is in that prefix |
| Receiver.QuiescenceIsFinal | test/benchmark/receiver.go:143-150 | after quiesce has returned no continuation changes a counter or a set or admits a handler |
| Receiver.QuiesceWaitsForAll | test/benchmark/receiver.go:143-150 | after it stops accepting, quiesce can return exactly when every handler inside has ended |
| Receiver.RunInv | test/benchmark/receiver.go:78-184 | in every reachable state active counts the handlers, seen is within expected, and done is closed exactly when both are the same non-empty set |
| Receiver.ReportAddsUp | test/benchmark/receiver.go:152-157 | unique plus missing is the number expected, and missing is zero exactly at completion |
| Receiver.BookingsAddUp | test/benchmark/receiver.go:94-125 | every booking is counted once as unique, duplicate, unexpected or invalid |
| Receiver.SeenArrived | test/benchmark/receiver.go:111-120 | every seen id was booked by a verified delivery of the run |
| Receiver.GoodIffDistinct | test/benchmark/receiver.go:52-60 | an expectation is taken whole exactly when its ids are non-empty and distinct |
| Receiver.RefusedExpectationCanComplete | test/benchmark/receiver.go:50-60 | a refused expectation leaves a prefix that can be completed and then passes the snapshot |
| Receiver.SnapshotWithoutExpectation | test/benchmark/receiver.go:152-165 | without an expectation a quiet receiver's snapshot succeeds |
| Receiver.Monitor.Expect | test/benchmark/receiver.go:44-62 | the loop leaves the longest good prefix, and succeeds exactly on the whole list the first time |
| Receiver.Monitor.Book | test/benchmark/receiver.go:94-125 | the bookkeeping under the lock, as the step machine has it, which ReceiverEvents.BooksTellEvents ties to the events |
| Receiver.Monitor.Snapshot | test/benchmark/receiver.go:152-165 | the report and whether it counts as success |
| Receiver.Monitor.EndHandler | test/benchmark/receiver.go:177-184 | one handler fewer, and a wake-up exactly at zero |
| Retention.Runner.RunOnce | internal/retention/retention.go:97-140 | with work that every productive sweep lowers the run ends at the first sweep that fails or moves nothing; every sweep is of at most 100 rows of a kind, report and error are those RunDecides describes, the backlog is scanned once, or not after a failed sweep |
| Retention.RunDecides | internal/retention/retention.go:102-133 | the last sweep is the first that failed or whose twelve counts do not add up to more than zero; a failed sweep, a failed scan and rows left over each degrade the run; only one that leaves nothing has a time of success; the age is that of the oldest row left over, never negative |
| Retention.TotalByField | internal/retention/retention.go:24-37 | each of the twelve reported counts is the sum of that count over the sweeps |
| Retention.RowsTakeCeilingPlusOne | internal/retention/retention.go:103-113 | n rows removed up to 100 at a time take exactly ceil(n/100) + 1 sweeps and are all reported |
| Retention.SweepsAreBounded | internal/retention/retention.go:103-113 | a run makes at most one sweep more than the work it had |
| Retention.ReportAccountsForWork | internal/retention/retention.go:24-37 | when sweeps lower the work by what they report, the report accounts for all of it |
| Retention.Runner.Ready | internal/retention/retention.go:148-155 | ready exactly when the latest run ended without error at most 25 hours ago, and then it left no backlog |
| Cryptobox.AadInjective | internal/platform/cryptobox/cryptobox.go:78-91 | lists of parts under 4 GiB are told apart by their encoding |
| Cryptobox.AadBoundIsTight | internal/platform/cryptobox/cryptobox.go:86 | lists of parts shorter than a length are told apart if and only if that length is at most 4 GiB |
| Cryptobox.BuildAad | internal/platform/cryptobox/cryptobox.go:78-91 | the appending loop computes the encoding |
| Cryptobox.ContextsNeverCoincide | internal/delivery/claim_crypto.go:50-73 | contexts of target, payload and secret in both formats share their bytes only when they are the same context with the same fields |
| ClaimCrypto.OpenExact | internal/platform/cryptobox/cryptobox.go:37-54 | an envelope opens exactly when its format is 1 or 2, its key number positive, its nonce 12 bytes, its text at least 16, its key there and the cipher accepts it |
| ClaimCrypto.ReadInContext | internal/delivery/claim_crypto.go:50-73 | the reader's lists of parts are those of the contexts, in both formats, for current and retiring secrets |
| ClaimCrypto.WrittenInContext | internal/endpoint/endpoint.go:146-158 | the writers' lists of parts are those of the contexts of the current format |
| ClaimCrypto.SealWrites | internal/platform/cryptobox/cryptobox.go:25-35 | what is sealed can be opened by every ring that keeps the key, whatever its primary |
| ClaimCrypto.WrittenOpens | internal/platform/cryptobox/cryptobox.go:37-54 | in its own context a sealed envelope opens to its plaintext |
| ClaimCrypto.OpensOnlyInContext | internal/platform/cryptobox/cryptobox.go:37-54 | unless it is a forgery for that very context, a sealed envelope opens in a context exactly when it was sealed in it |
| ClaimCrypto.ClaimOpensExactly | internal/delivery/claim_crypto.go:21-48 | for any mix of formats, and envelopes that are no forgeries where they are read: a claim opens to the sealed texts exactly when every envelope belongs to this row and kind; otherwise the first misplaced one is named |
| ClaimCrypto.WrittenRowsOpen | internal/endpoint/endpoint.go:113-158 | what endpoint creation, secret rotation and publishing sealed, the worker opens, also after key rotation, a retiring secret under its own version and key id; nothing but that the cipher opens what it sealed is assumed |
| Signing.SignedLines | internal/signing/signing.go:25-31 | the signed text is v1, timestamp, event, delivery and key id on a line each, then the body; the fingerprinted one v1, type, all, then the payload |
| Signing.VerifyExact | internal/signing/signing.go:39-69 | what verifies: a skew of at most fifteen minutes, a 64-bit timestamp within it, and a first usable entry that is the digest of the signed text in strict base64url |
| Signing.EntryExact | internal/signing/signing.go:73-82 | the header entries usable for a key id, read whole |
| Signing.CanonicalInjective | internal/signing/signing.go:25-31 | with single-line identifiers the signed text determines timestamp, identifiers and body |
| Signing.LineBreaksAreAmbiguous | internal/signing/signing.go:26 | with a line break in an identifier two deliveries sign the same text |
| Signing.FingerprintInjective | internal/event/event.go:72-77 | for acceptable types the fingerprint text determines type and canonical payload |
| Signing.HeaderParses | internal/signing/signing.go:71-84 | a joined header gives each key id exactly its own signature, and none to others |
| Signing.SignatureForKey | internal/signing/signing.go:71-84 | the loop over the entries finds the first usable one |
| Signing.BuiltRequestVerifies | internal/delivery/outbound.go:73-85 | a receiver with the current or the retiring key accepts the request the worker builds exactly while the skew check passes |
| Signing.OnlyTheSignedDeliveryVerifies | internal/signing/signing.go:39-69 | with one entry or two, and under either key: unless two given texts collide, nothing but the signed instant, event, delivery and body verifies with that header |
| Signing.FreshExact | internal/signing/signing.go:47-54 | the skew check passes exactly within the skew or 2^63 nanoseconds or more ahead |
| Signing.FutureStampIsFresh | internal/signing/signing.go:47-54 | a parseable timestamp of the year 2316 passes in 2023 with a skew of five minutes |
| Tokens.GeneratedKeyParses | internal/auth/auth.go:166-183 | every generated key parses, bare and in its header, to its own prefix, underscores in the secret notwithstanding |
| Tokens.ApiKeyExact | internal/auth/auth.go:134-152 | exactly the texts of at most 249 characters made of wde, test or live, sixteen hexadecimal digits and a 32-byte secret are keys, with that prefix |
| Tokens.SessionExact | internal/consolesession/session.go:129-147 | the same for session tokens of at most 128 characters |
| Tokens.BearerExact | internal/auth/auth.go:125-132 | a key is taken from a header of at most 256 characters after the word Bearer and one space |
| Tokens.HexExact | internal/auth/auth.go:144 | two hexadecimal digits of either case a byte, and nothing else, are decoded |
| Tokens.HexDigits | internal/auth/auth.go:175 | printed digits are 0 to 9 and then lower-case a to f |
| Tokens.GeneratedKeysDiffer | internal/auth/auth.go:180 | a printed key determines its environment, prefix and secret |
| Tokens.ParsedKeyShape | internal/auth/auth.go:134-152 | whatever parses is a key of one environment around that prefix and a 32-byte secret |
| Tokens.GeneratedSessionParses | internal/consolesession/session.go:114-147 | every generated session token parses to its own prefix |
| Tokens.KindsNeverMix | internal/consolesession/session.go:129-147 | no text is both an API key and a session token |
| Tokens.HexRoundTrip | internal/auth/auth.go:175 | decoding inverts hexadecimal encoding |

## Left out

- The rules inside the database functions (leases, fencing, dead letters, replay, rotation, quotas, purges): they are SQL migrations; only the statements written in the Go code are modelled.
- Deletion of events by retention: in the publishing model committed events stay, so the lookup after a conflict always finds its row.
- Randomness: event ids are assumed fresh and distinct; a delivery id that collides makes its insert fail; keys, nonces, secrets and jitter are arbitrary inputs.
- Blocking: an insert that waits for the holder of its key until its context ends is an error like any other.
- Claims returned together with an error, or after the claim was abandoned on cancellation: the code does not hand them to the loop, and neither does the model.
- The limiter's in-flight slots, and overflow of its counters, which Global (at most 1000000) excludes.
- Columns of list rows other than the sort key, and the decryption of endpoint paths while listing.
- The checks that refuse a job before its request (destination policy, target address, building the request): their reasons are inputs.
- Parsing of the Retry-After text and of HTTP dates (their outcomes are inputs), and measured durations everywhere.
- The JSON tokenizer and the canonicalizer, which may still refuse a text after the structure check.
- The archive format, content digests and the generation of the allowlist of an image.
- Zeroing of secret buffers, key loading, and the constant-time comparisons as such.
- Tickers, telemetry and logging, and observers other than at the end of an attempt.
- The console, templates, documentation servers, environment loading, network, TLS and DNS: they take no part in the protocols modelled here.
