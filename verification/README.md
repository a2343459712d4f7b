# Verified models of the backend's stateful cores

Dafny models of the parts of this FastAPI application that carry state machines, interleavings and counting,
with proofs of what they promise. `dafny verify dfyconfig.toml` checks the whole project.

| file | what it models |
|---|---|
| `outbox_tables.dfy`, `outbox_system.dfy` | the two outbox tables, and any number of dispatch workers, the clock, crashes and the mail provider as one transition system; each transaction is one step |
| `outbox_delivery.dfy`, `outbox_leases.dfy`, `outbox_waits.dfy`, `outbox_crash_free.dfy`, `outbox_overrun.dfy`, `outbox_retry.dfy`, `outbox_expiry.dfy` | what its runs guarantee, and what they do not |
| `outbox_service.dfy`, `outbox_refinement.dfy` | the repository and the dispatch loop in place, and that they are paths of the system |
| `log_after_commit.dfy` | records that wait for the commit of their transaction and all its ancestors |
| `pooler.dfy` | the two closures behind the pooler canary, in atomic segments between awaits |
| `rate_limit.dfy`, `signed_requests.dfy`, `canonical.dfy` | the fixed-window limiter, the replay guard on top of it, and the messages that are signed |
| `utf8.dfy`, `layout.dfy`, `mo_file.dfy` | the MO file writer and a reader that follows section 10.3 of the GNU gettext manual |
| `event_clicks.dfy`, `retention.dfy`, `digest.dfy`, `migration_plan.dfy`, `migration_review.dfy` | the counting cores |
| `ttl_cache.dfy`, `session_store.dfy` | the cache, and the session store with interleaved loads and deletions |
| `mobile_sessions.dfy`, `mobile_card_tables.dfy`, `volunteer_codes.dfy`, `slugs.dfy` | token renewal, the tables of trial codes and refresh tokens, the codes of volunteers, and the slug migration |
| `wrappers.dfy`, `sets.dfy` | Option, Result, sizes of sets |

Code that changes tables, variables or buffers in place is a class or a method with loops, proved against a
function of the old state; the theorems are about those functions and about all runs. Inductions are written out:
lemmas that Dafny would induct on by itself carry `{:induction false}`.

## Assumptions

- The outbox workers share one clock that does not run backwards. A step may stamp a row with a reading older
  than its commit.
- `asyncio.timeout` ends a timed block at most 20 s after it was entered. Lease safety also assumes that a worker
  spends less than 100 s per batch outside its timed blocks (10 * 20 s + 100 s = 300 s); `Prompt` states it, and
  `OverrunReopensSentRow` shows that it is needed, because `finish_success` and `finish_failure` check neither
  the lease owner nor the status. The at-most-one-copy theorem does not need it.
- The provider drops a repeated key for 24 hours from the first request that it received, and a request reaches
  it at most 3580 s after it was handed to the client.
- SQLAlchemy keeps a stack of transactions with parent links, fires `after_commit` for a released savepoint while
  that savepoint is still the innermost transaction, ends the transactions above a rolled back one without a
  rollback event of their own, and fires no rollback event on close.
- The monotonic clock of a process starts at zero or later, which is what makes `force_expire` work.

## Where code and comments disagree

- The in-memory limiter is described as having the same fixed-window semantics. It starts a new window when a
  hit's age equals the window, the Postgres limiter only when it exceeds it (`InMemoryDiffersIff`,
  `SecondHitAtTheEnd`).
- A retry of an expired delivery is meant to send it again, but expiry has removed its context
  (`SuccessorHasNoContextIff`, `ExpiredLosesContext`).
- `classify` is described as reporting every application exactly once. It is exactly once for each section
  (`ReportedOnce`), and for runs exactly 24 hours apart. Over all sections it is at least once, and once exactly
  for applications that nobody waits for and that have no trial with an end (`ReportedOnceInAllIff`); one run can
  list an application twice (`TwoAtOnceIff`).
- The nonce window of 600 s has the length of the +-300 s check, but the check reads the clock before the body
  is read and the nonce is counted after that. So a replay is accepted even on whole seconds when its body takes
  longer (`SlowBodyIsAcceptedTwice`), and without any delay on a finer clock (`AcceptedTwiceOnAFinerClock`);
  `AcceptedAgainIff` says exactly when.
- A deleted session can be served again (`DeletedIsServed`), exactly when a call has it in hand or the cache
  still has an entry (`ServedAgainIff`).
- Codes of volunteers are described as single-use. Two concurrent calls can use one (`OneCodeOpensTwice`), and a
  call can delete a code that it did not use (`NewCodeIsLost`); `OneSessionPerCodeIff` and
  `DeletesWhatItFoundIff` say exactly when not.

## Model

| member | source | states |
|---|---|---|
| OutboxDelivery.AtMostOneCopy | app/email_outbox_service.py:150-171 | In every run of any number of workers, with crashes, timeouts, retries and overrun leases, a provider that drops a repeated key for 24 hours delivers at most one copy of a delivery, if no request is under way for longer than 3580 s. |
| OutboxDelivery.PostsShareOneWindow | app/email_outbox_service.py:331-341 | All requests for a delivery carry the same key and were handed to the client at or after its first attempt and less than 23 h + 20 s later. |
| OutboxDelivery.KeyIsInjective | app/email_outbox_service.py:170-170 | Different deliveries use different provider keys. |
| OutboxDelivery.SentMeansPosted | app/email_outbox_repository.py:173-204 | A row that is sent has had its message handed to the provider. |
| OutboxDelivery.AttemptLedger | app/email_outbox_repository.py:133-157 | In every run a delivery's attempts are numbered 1 to its attempt count without gap or repeat, and at most four are retryable failures. |
| OutboxDelivery.OneRowPerKey | app/email_outbox_repository.py:18-66 | No two deliveries ever share an idempotency key. |
| OutboxTables.NumberedWithoutGaps | app/email_outbox_repository.py:138-156 | The ledger invariant means: every number up to the count is used by exactly one attempt, in rising order, and no other number is used. |
| OutboxTables.AtMostFourRetryableFailures | app/email_outbox_service.py:288-304 | At most four attempts of a delivery end as retryable failures, so the table of delays is never read out of range. |
| OutboxTables.RetriesFitTheWindow | app/email_outbox_service.py:50-57 | One wait per retry, each longer than the one before, and all of them with five full timeouts fit into the 23 hours. |
| OutboxTables.EarliestIsMinimum | app/email_outbox_repository.py:159-164 | The start that the 23 hours count from is the least among the attempts of the delivery. |
| OutboxWaits.DueAfterWaitIff | app/email_outbox_service.py:293-304 | After a retryable failure of attempt 1, 2, 3 or 4 the row is due exactly from one minute, five, thirty or 120 minutes later on. |
| OutboxWaits.ClaimWaits | app/email_outbox_service.py:293-304 | So in every run, overrun leases included, no claim takes the delivery before that, unless another attempt of it is concluded in between. |
| OutboxWaits.NextClaimWaits | app/email_outbox_repository.py:80-98 | In a prompt run nothing can come in between: the next claim always keeps the wait. |
| OutboxWaits.DueOnceEnqueuedIff | app/email_outbox_repository.py:18-66 | A new delivery is due exactly from the moment it carries on. |
| OutboxSystem.GoodStep | app/email_outbox_service.py:135-341 | Every step of every worker keeps the ledger, the order of first starts, the 23 hour check and the posts. |
| OutboxSystem.RunIsGood | app/email_outbox_service.py:113-341 | So every state of every run has them. |
| OutboxSystem.ClaimEffect | app/email_outbox_repository.py:99-131 | The net effect of the claim loop: exactly the claimed rows get a lease, exactly the started attempts of rows that still carried one are interrupted, nothing else changes. |
| OutboxSystem.RowsStep | app/email_outbox_service.py:150-329 | A step changes the status of at most the delivery it concludes, to sent only after the provider accepted, and no key. |
| OutboxLeases.LeaseOutlivesHolder | app/email_outbox_service.py:49-50 | Ten deliveries of at most 20 s and under 100 s of other work end before the 300 s lease does. |
| OutboxLeases.LeaseStep | app/email_outbox_service.py:113-143 | Under that timing every step keeps: one holder per delivery, a live holder's rows are pending and leased, a started attempt belongs to a leased row and its holder's current attempt. |
| OutboxLeases.PromptRunKeepsLeases | app/email_outbox_service.py:113-329 | So every state of every prompt run has them. |
| OutboxLeases.OneHolder | app/email_outbox_repository.py:76-98 | No two live workers ever hold one delivery. |
| OutboxLeases.UnleasedHasNothingStarted | app/email_outbox_repository.py:101-113 | A row without a lease has no started attempt, so skipping the search for one changes nothing. |
| OutboxLeases.ClosedRowsAreFinal | app/email_outbox_repository.py:173-237 | No step of a prompt run changes a row that is sent, failed or expired. |
| OutboxLeases.TakeoverExactly | app/email_outbox_repository.py:80-87 | A live holder's delivery can be claimed by another exactly when its own claim is 300 s old. |
| OutboxOverrun.OverrunReopensSentRow | app/email_outbox_repository.py:206-237 | Without the timing assumption it is false: a run in which a worker that overran its lease puts a sent delivery back to pending. |
| OutboxOverrun.ReopensIff | app/email_outbox_repository.py:206-237 | Exactly when a step puts a closed row back to pending: it concludes that row at the head of its worker's queue with a retryable failure of one of the first four attempts. |
| OutboxOverrun.ClosedRowChanges | app/email_outbox_repository.py:133-237 | A step rewrites a closed row only by opening or concluding it at the head of a queue, and does so unless it carries the time of the last change. |
| OutboxCrashFree.ClosedWithinFiveAttempts | app/email_outbox_service.py:272-304 | Without crashes a delivery has at most five attempts; one that waits has used at most four, all retryable failures; a closed one has exactly one more attempt than retryable failures. |
| OutboxCrashFree.ClaimsAreFresh | app/email_outbox_repository.py:99-120 | Without crashes no claim interrupts an attempt. |
| OutboxCrashFree.ConclusionsMakeProgress | app/email_outbox_service.py:288-304 | Every conclusion closes its row or uses up one of the four retries. |
| OutboxCrashFree.CrashFreeRun | app/email_outbox_service.py:113-329 | The invariant behind the two, over every crash-free prompt run. |
| OutboxService.EmailOutbox.Enqueue | app/email_outbox_repository.py:18-66 | A second enqueue with a key returns the first delivery and changes nothing; a new key adds exactly one pending row. |
| OutboxService.EmailOutbox.SelectDue | app/email_outbox_repository.py:76-98 | The query: the due unlocked rows in order, at most the batch, and none left out that comes before one taken. |
| OutboxService.EmailOutbox.ClaimDue | app/email_outbox_repository.py:68-131 | The claim loop leaves the tables of the claim specification and counts the interrupted attempts. |
| OutboxService.EmailOutbox.StartAttempt | app/email_outbox_repository.py:133-157 | Appends the next numbered attempt and raises the count. |
| OutboxService.EmailOutbox.FirstAttemptAt | app/email_outbox_repository.py:159-164 | The earliest start among a delivery's attempts. |
| OutboxService.EmailOutbox.FinishAttempt | app/email_outbox_service.py:272-329 | Success and failure, with retry, expiry, the delay and what is kept of the context; the reported outcome names the status of the row. |
| OutboxService.EmailOutbox.DispatchClaimed | app/email_outbox_service.py:150-261 | One delivery from attempt to conclusion, for every way the timed block can end, and which stages its attempt shows on the way. |
| OutboxService.EmailOutbox.DispatchAll | app/email_outbox_service.py:118-123 | Each of the four counters is the number of claimed deliveries with that status, and they add up to the claimed count. |
| OutboxService.EmailOutbox.DispatchDue | app/email_outbox_service.py:113-133 | A whole dispatch without interference: what it claims, the tables it leaves, the summary, and that no other row changes. |
| OutboxService.StaleAttemptIsNotSent | app/email_outbox_service.py:331-340 | A delivery dispatched 23 hours or more after its earliest attempt expires and loses its context. |
| OutboxService.DispatchEnds | app/email_outbox_service.py:150-329 | What becomes of a dispatched delivery: it is sent iff the provider accepted and the check came within 23 hours of its first attempt; it waits iff the failure is retryable and at most the fourth; which stage the attempt reached, and which report is made. |
| OutboxService.SentWrites | app/email_outbox_repository.py:173-204 | A sent row forgets its context and last error; its attempt succeeded at the last stage. |
| OutboxService.FailureWrites | app/email_outbox_repository.py:206-237 | What a failure writes: the wait, the status, the category, and whether the context is kept. |
| OutboxService.FinishFrame | app/email_outbox_repository.py:173-237 | Either ends the lease and writes nothing but this row and this attempt. |
| OutboxService.AttemptWrites | app/email_outbox_repository.py:133-157 | A new attempt has the next number and starts now; of the row only the count and the time of change move. |
| OutboxService.InterruptWrites | app/email_outbox_repository.py:101-122 | A claim interrupts exactly the attempts of the delivery that are still started. |
| OutboxService.AdvanceRecords | app/email_outbox_repository.py:166-171 | The attempt says how far the work is: prepared, rendered, sent. |
| OutboxService.ClaimsInOrder | app/email_outbox_repository.py:76-98 | A claim takes due, unlocked rows by next attempt, then by creation. |
| OutboxService.ClaimPassesOver | app/email_outbox_repository.py:76-98 | A row that is due and not locked is passed over only by a full batch of rows that come no later. |
| OutboxService.EmailOutbox.RetryFailed | app/email_outbox_service.py:375-388 | A manual retry refuses unknown and unfinished deliveries, and otherwise adds a successor with its own key and the old context. |
| OutboxRetry.ContextFollowsStatus | app/email_outbox_service.py:288-307 | Over every prompt run a delivery keeps its context while pending and after it failed, and has none once sent or expired. |
| OutboxRetry.SuccessorHasNoContextIff | app/email_outbox_service.py:486-517 | Of the two kinds of rows a retry accepts only a failed one still has its context: the successor of a delivery enqueued with one has none exactly when the delivery expired. |
| OutboxExpiry.ExpiredLosesContext | app/email_outbox_service.py:331-341 | And it happens: for every context there is a prompt run in which a delivery is enqueued with it, its first worker dies, a claim 23 hours later lets it expire, and the retry that is accepted makes a successor without context. |
| OutboxRetry.SuccessorIsSeparate | app/email_outbox_service.py:499-508 | A successor has its own provider key, and two retries of a delivery have different idempotency keys. |
| OutboxRefinement.DispatchIsPath | app/email_outbox_service.py:150-261 | The imperative dispatch of one delivery is a sequence of steps of the system with the same tables at its end. |
| OutboxRefinement.DispatchDueIsPath | app/email_outbox_service.py:113-143 | So is claiming and dispatching a whole batch, from any state without a timed block under way. |
| OutboxRefinement.RunGoesOn | app/email_outbox_service.py:113-143 | Such a sequence continues any run, so what holds of all runs holds after it. |
| LogAfterCommit.Session.Log | app/observability.py:416-466 | Outside a transaction a record is handled at once, inside one it joins the queue of the innermost; the invariant is kept. |
| LogAfterCommit.Session.CommitInnermost | app/observability.py:431-436 | Releasing a savepoint publishes nothing; committing the root publishes the queue in order and empties it. |
| LogAfterCommit.Session.Commit | app/observability.py:431-455 | The session's commit publishes exactly the queue. |
| LogAfterCommit.Session.RolledBackHandler | app/observability.py:438-449 | Drops exactly the entries at or below the transaction rolled back. |
| LogAfterCommit.Session.Belongs | app/observability.py:439-445 | The parent walk decides whether a transaction lies at or below another. |
| LogAfterCommit.Session.RollbackTo | app/observability.py:438-455 | A rollback to any depth keeps the invariant and publishes nothing. |
| LogAfterCommit.Session.Rollback | app/observability.py:438-455 | A full rollback does too. |
| LogAfterCommit.Session.Close | app/observability.py:451-455 | Closing the session ends everything, publishes nothing and leaves nothing queued. |
| LogAfterCommit.RootCommitted | app/observability.py:431-436 | When the root commits, the transactions that take effect are exactly those that were undecided, and nothing stays undecided. |
| LogAfterCommit.RolledBackTo | app/observability.py:438-449 | A rollback decides exactly the transactions at or below its own. |
| LogAfterCommit.LogCommitted | app/observability.py:434-436 | Publishing the queue after what was published before is the list of effective records in logging order. |
| LogAfterCommit.LogRolledBack | app/observability.py:447-449 | What the handler keeps is what is still undecided, and no published record changes. |
| LogAfterCommit.CommitInv | app/observability.py:431-455 | A root's commit keeps: published is what ought to be published, queued is what is undecided. |
| LogAfterCommit.RollbackInv | app/observability.py:438-455 | So does a rollback to any depth. |
| LogAfterCommit.NothingLeaks | app/observability.py:451-455 | Between root transactions nothing waits, so no record is published by a later root. |
| LogAfterCommit.DecidedOnceClosed | app/observability.py:416-417 | Once everything has ended, a transaction took effect iff neither it nor an ancestor was rolled back. |
| Pooler.SingleFlight | app/db/pooler_trial.py:42-73 | In every interleaving of any number of connects, the calls inside a flag refresh and those inside a trial handshake number at most one. |
| Pooler.CooldownRespected | app/db/pooler_trial.py:44-55 | No handshake starts before the cooldown of any earlier failure is over. |
| Pooler.CooldownIsReached | app/db/pooler_trial.py:44-55 | And one can start right when it is over: a run with two handshakes exactly one cooldown apart after a single refresh. |
| Pooler.PercentageIsFresh | app/db/pooler_flag.py:22-60 | Every handshake was allowed by a percentage that a refresh returned less than 30 s earlier. |
| Pooler.StartsAtOnceIff | app/db/pooler_trial.py:42-49 | Before its first await a call starts a handshake iff no handshake is under way, the cooldown is over, the trial is enabled, the flag is cached, and its roll is below the percentage; and it asks for the flag iff only that is missing and nobody else does. |
| Pooler.StartsAfterRefreshIff | app/db/pooler_trial.py:44-49 | After a refresh iff that returned and the roll is below what it shows. |
| Pooler.ShareOfRolls | app/db/pooler_trial.py:47-47 | A percentage of p sends exactly p of the 100 rolls to the trial, and none while a guard stops the call. |
| Pooler.StartedByItsRoll | app/db/pooler_trial.py:44-49 | In every run each handshake was started by a roll below its percentage, which is at most 100. |
| Pooler.HandshakeWasAskedFor | app/db/pooler_flag.py:22-60 | And the flag service had answered with that percentage, with the trial enabled. |
| Pooler.RefreshForgets | app/db/pooler_flag.py:33-53 | While a refresh is under way the percentage is zero, or what its own answer is worth: an older value is never shown again. |
| Pooler.RefreshShows | app/db/pooler_flag.py:54-60 | The end of a refresh caches that for 30 s, or zero if it raised. |
| Pooler.CallsGoOn | app/db/pooler_trial.py:42-78 | No call is lost: it goes on from await to await until a handshake, a fallback or its cancellation. |
| Pooler.InvStep | app/db/pooler_trial.py:38-78 | The joint invariant of both files' variables and all calls is kept by every segment between awaits. |
| Pooler.Connector.ConnectStarts | app/db/pooler_trial.py:44-53 | The first segment of a connect: use the cache, start a refresh, start a handshake or fall back. |
| Pooler.Connector.RefreshEnds | app/db/pooler_flag.py:54-60 | The end of a refresh: fail closed, cache for 30 s, and let the same call go on to its handshake. |
| Pooler.Connector.TrialEnds | app/db/pooler_trial.py:52-76 | The end of a handshake: a failure starts the cooldown and falls back, and the flag is always cleared. |
| MoFile.BuildMoFile | scripts/compile_gettext_catalogs.py:62-102 | Writes the file of the sorted catalog, and fails exactly when a count, length or offset does not fit its field. |
| MoFile.RoundTrip | scripts/compile_gettext_catalogs.py:62-102 | A reader following section 10.3 of the GNU gettext manual gets back exactly the catalog that was written, in either byte order. |
| MoFile.HeaderReads | scripts/compile_gettext_catalogs.py:70-89 | The seven words of the header: magic number, revision 0, the count, both tables, and no hash table: its size and offset are 0. |
| MoFile.OriginalEntryReads | scripts/compile_gettext_catalogs.py:91-94 | Each entry of the table of originals is the length of its string, then where that starts. |
| MoFile.TranslationEntryReads | scripts/compile_gettext_catalogs.py:96-99 | And each of the table of translations, which follows it. |
| MoFile.PackIs | scripts/compile_gettext_catalogs.py:70-99 | The bytes of a word, in either byte order. |
| MoFile.FitsIff | scripts/compile_gettext_catalogs.py:77-102 | Exactly what the fields hold: 31 bits for the numbers of the header, 32 for lengths and offsets. |
| MoFile.ReadFile | scripts/compile_gettext_catalogs.py:76-102 | The reader finds exactly the encoded strings that were written, by length and offset. |
| MoFile.PartsTile | scripts/compile_gettext_catalogs.py:70-102 | Header, two tables and two blobs tile the file: each starts where the one before it ends. |
| MoFile.StringsTile | scripts/compile_gettext_catalogs.py:90-98 | Within a blob each string starts where the one before it and its NUL end. |
| MoFile.OriginalsAscend | scripts/compile_gettext_catalogs.py:63-65 | The original strings lie in the file in ascending byte order. |
| MoFile.SortedKeysUnique | scripts/compile_gettext_catalogs.py:63-63 | The sorted order of a catalog is unique, so the file is determined by the catalog. |
| MoFile.SmallFilesFit | scripts/compile_gettext_catalogs.py:77-98 | Every file below 2 GiB is written. |
| MoFile.TerminatedRead | scripts/compile_gettext_catalogs.py:67-68 | For texts without NUL, reading up to the NUL gives the same string as reading by length. |
| Utf8.DecodeEncode | scripts/compile_gettext_catalogs.py:64-65 | UTF-8 (section 3 of RFC 3629) decodes to what was encoded. |
| Utf8.EncodedForm | scripts/compile_gettext_catalogs.py:64-65 | The bytes of a character are those of the table in section 3 of RFC 3629. |
| Utf8.EncodeDecode | scripts/compile_gettext_catalogs.py:64-65 | The decoder accepts nothing but encodings, so the round trip holds in both directions. |
| Utf8.OrderSurvives | scripts/compile_gettext_catalogs.py:63-65 | Code point order survives the encoding, as section 1 of RFC 3629 says. |
| Utf8.OrderReflected | scripts/compile_gettext_catalogs.py:63-65 | And byte order comes only from code point order. |
| Utf8.LessIff | scripts/compile_gettext_catalogs.py:63-63 | That order is the one of dictionaries: the first difference decides, and a beginning comes first. |
| Utf8.NoZeroByte | scripts/compile_gettext_catalogs.py:67-68 | Encoding makes no zero byte of its own. |
| RateLimit.PostgresRateLimiter.Hit | app/db/rate_limit.py:76-99 | Cleans up, counts the hit whether allowed or not, and allows it iff the count is within the limit. |
| RateLimit.InMemoryRateLimiter.Hit | app/db/rate_limit.py:117-127 | The in-memory form of the same. |
| RateLimit.InMemoryRateLimiter.Clear | app/db/rate_limit.py:129-131 | Forgets exactly the given keys. |
| RateLimit.HitTouches | app/db/rate_limit.py:29-57 | A hit removes exactly the rows of other keys older than a day and changes no other. |
| RateLimit.CleanupInvisible | app/db/rate_limit.py:82-89 | With a clock that does not run backwards and windows of at most a day, deleting stale rows never changes any later answer on any key. |
| RateLimit.CleanupVisibleIff | app/db/rate_limit.py:36-38 | Exactly which deletions a hit would notice: those of a stale row that is still inside the window. |
| RateLimit.FewerThanTwiceTheLimit | app/db/rate_limit.py:40-55 | Any interval as long as the window holds at most 2 * limit - 1 accepted hits on a key. |
| RateLimit.BoundIsReached | app/db/rate_limit.py:40-55 | That bound is reached. |
| RateLimit.InMemoryAgrees | app/db/rate_limit.py:112-131 | On traces where no hit's age equals the window the in-memory limiter answers like the Postgres one. |
| RateLimit.InMemoryDiffersIff | app/db/rate_limit.py:46-46 | Exactly when the two treat a row differently: its age is the window. |
| RateLimit.SecondHitAtTheEnd | app/db/rate_limit.py:44-48 | And it shows in the answers: of two hits exactly a window apart, with a limit of one, the Postgres limiter refuses the second and the in-memory one allows it. |
| SignedRequests.Guard.Require | app/api/request_auth.py:132-229 | The order of the checks, what each outcome leaves in the limiter, and that a limit which refuses stops the ones after it. |
| SignedRequests.VerifiedIff | app/api/request_auth.py:132-229 | A request is verified iff its time is within five minutes of the clock, its signature is genuine, its nonce was not counted in the last ten minutes, and the limit of the route and that of its client each have room. |
| SignedRequests.RefusedIff | app/api/request_auth.py:136-229 | Which refusal it is otherwise, and what it leaves: nothing is counted before the signature is known to be genuine. |
| SignedRequests.AcceptedOnce | app/api/request_auth.py:136-209 | The time is checked on one reading of the clock and the nonce counted on a later one, after the body was read: a request checked twice on whole seconds is accepted at most once in any trace of the shared limiter, unless its second use takes longer from check to hit than its first. |
| SignedRequests.AcceptedAgainIff | app/api/request_auth.py:136-209 | Exactly when, on any clock: the next use is accepted again iff its delay from check to hit exceeds that of the accepted use by more than 600 s less the time between the two checks. |
| SignedRequests.SlowBodyIsAcceptedTwice | app/api/request_auth.py:165-209 | So 600 s do not cover the +-300 s check even on whole seconds: every request used 300 s early is verified by the guard once more if it is checked 300 s late and its body takes any time at all. |
| SignedRequests.AcceptedUsesAreFarApart | app/api/request_auth.py:203-209 | On any clock two accepted uses of a nonce lie more than 600 s apart. |
| SignedRequests.ReplayAcceptedIff | app/api/request_auth.py:203-209 | Exactly when a spent nonce is accepted again: more than 600 s after the hit that spent it. |
| SignedRequests.AcceptedTwiceOnAFinerClock | app/api/request_auth.py:136-137 | Without any delay a finer clock is enough: the age check rounds down, so two moments 600.5 s apart both pass. |
| Canonical.MessageReads | app/api/request_auth.py:60-78 | Every message of the four forms reads back as the request it was made from, newlines in the path or not. |
| Canonical.SignedIsUnique | app/api/request_auth.py:49-78 | The signed bytes of two requests, of any of the forms, are equal exactly when protocol, timestamp, nonce, keys, path and digest are, and the method up to the letter case of a prospect's. |
| Canonical.MessageIs | app/api/request_auth.py:49-78 | The four messages, line by line. |
| Canonical.UpperIs | app/api/request_auth.py:62-62 | The method is signed in capital letters. |
| Canonical.NewlineInNonceConfuses | app/api/request_auth.py:139-144 | Why the header checks come first: with newlines in nonces it would be false: any fields give two different requests with the same signed bytes. |
| EventClicks.EventInterest.Save | app/domain/event_interest/repository.py:20-54 | One save: what is deleted, what is accepted, what is inserted and what is answered. |
| EventClicks.TapsAreDistinctClicks | app/domain/event_interest/repository.py:35-53 | After any interleaved, repeated and reordered saves without expiry and without shared batch ids, a source's taps are min(12, clicks of its distinct batches). |
| EventClicks.OrderAndRetriesDoNotMatter | app/domain/event_interest/repository.py:33-37 | Two runs in which a source sent the same batches read the same. |
| EventClicks.RepeatChangesNothing | app/domain/event_interest/repository.py:33-45 | Repeating a save whose row is alive changes nothing that is read, for any source. |
| EventClicks.SaveAdds | app/domain/event_interest/repository.py:35-53 | A save of a new batch adds its clicks, cut at the twelfth, and nothing to other sources. |
| EventClicks.BatchLives | app/domain/event_interest/repository.py:26-53 | A batch counts for 90 days from its save on and not longer. |
| EventClicks.NeverMoreThanTwelve | app/domain/event_interest/repository.py:35-36 | A source never has more than twelve taps, in any run, with expiry, shared ids and a clock that jumps back. |
| EventClicks.CountIsSumOverSources | app/domain/event_interest/repository.py:9-18 | The count of an event is the sum of its sources' taps. |
| EventClicks.SharedBatchLosesClicks | app/domain/event_interest/repository.py:45-45 | With a batch id shared by two sources the second one's clicks are lost. |
| TtlCache.ReadIs | app/cache.py:8-45 | After any run a hit returns the last value set and not removed within its time to live; a miss means there is none, its time is up, or at least max_entries other keys were touched since; and there are never more than max_entries entries. |
| TtlCache.RunKeepsInv | app/cache.py:14-45 | The invariant behind it, kept by get, set, pop, clear and force_expire. |
| TtlCache.EvictStep | app/cache.py:43-45 | The entry that is dropped had max_entries other keys touched after it. |
| TtlCache.TTLCache.Get | app/cache.py:14-22 | Removes what has expired, and moves a hit to the young end. |
| TtlCache.TTLCache.Set | app/cache.py:24-29 | Stores at the young end and drops the oldest above the limit. |
| TtlCache.TTLCache.EvictIfNeeded | app/cache.py:43-45 | The loop keeps the youngest max_entries. |
| TtlCache.TTLCache.ForceExpire | app/cache.py:37-41 | Only moves the expiry of one entry. |
| SessionStore.SessionStore.BeginLoad | app/auth/session_store.py:92-98 | The part of a load before its await. |
| SessionStore.SessionStore.FinishLoad | app/auth/session_store.py:100-115 | The part after it. |
| SessionStore.LoadServesIff | app/auth/session_store.py:92-98 | A load is served at once iff the cache has an entry unexpired on both clocks, and then asks nothing; otherwise it asks and leaves no entry behind. |
| SessionStore.ResumeStores | app/auth/session_store.py:100-115 | A resumed load hands on and stores what was found, for the time to live, and forgets what was not. |
| SessionStore.NeverMoreThan2048 | app/auth/session_store.py:40-60 | The cache never has more than 2048 sessions. |
| SessionStore.CachedIsFresh | app/auth/session_store.py:89-115 | In every interleaving a session served from the cache has not expired, and a call that had found it in the table handed it back less than the time to live earlier. |
| SessionStore.AnswerIsFresh | app/auth/session_store.py:100-115 | A session served after a query had not expired when the query ran. |
| SessionStore.ServedAfterDeletion | app/auth/session_store.py:117-119 | A deleted session is only served if a query found it before the deletion. |
| SessionStore.GoneStaysGone | app/auth/session_store.py:117-122 | Once no row, cache entry or waiting call has a session, no interleaving serves it again. |
| SessionStore.DeletedIsServed | app/auth/session_store.py:117-119 | Dropping the cache entry before deleting the row is not enough: a run in which a load under way stores the session again. Exactly when this happens: `ServedAgainIff` and `DeletedForGoodIff`. |
| SessionStore.ServedAgainIff | app/auth/session_store.py:89-119 | After any run that leaves a session without a row: some continuation that does not create it again, on clocks that do not go back, serves it iff a waiting call has it in hand or the cache has an entry unexpired on both clocks; and then the very next step can. |
| SessionStore.DeletedForGoodIff | app/auth/session_store.py:117-119 | A deletion whose pop and row deletion follow each other at once ends the session for good iff no call waits with an answer it got before. |
| Digest.PrefilterIsSound | app/domain/recruitment_digest/service.py:355-364 | An application that the query leaves out has no section, in either mode. |
| Digest.Collector.Collect | app/domain/recruitment_digest/service.py:290-322 | The memoised loops leave the digests and the counts of groups without recipients that the specification lists. |
| Digest.CollectIsExact | app/domain/recruitment_digest/service.py:290-322 | Those digests report exactly the applications that the definition gives over the whole table, to exactly those addresses. |
| Digest.BelongsIff | app/domain/recruitment_digest/service.py:335-392 | That definition in terms of the columns alone: when an application is listed under each section, and which of its groups hear of it. |
| Digest.LoadedIff | app/domain/recruitment_digest/service.py:357-364 | What the query loads. |
| Digest.CollectHasNoRepeats | app/domain/recruitment_digest/service.py:317-321 | No application twice under a section, no empty digest and no empty section. |
| Digest.MissingIsExact | app/domain/recruitment_digest/service.py:312-315 | A group without recipients is counted once per application listed for it. |
| Digest.UntoldIff | app/domain/recruitment_digest/service.py:303-315 | The same for a group without recipients. |
| Digest.ReportedOnce | app/domain/recruitment_digest/service.py:109-135 | Over runs exactly 24 hours apart an application whose status and dates stay fixed appears under each section it reaches in exactly one run. |
| Digest.ReportedOnceInAllIff | app/domain/recruitment_digest/service.py:109-135 | Over all sections and runs an application is reported at least once, and only once exactly when nobody waits for it and it has no trial with an end. |
| Digest.TwoAtOnceIff | app/domain/recruitment_digest/service.py:109-135 | One run lists it under at most two sections, and two are the new one and one about the trial, and some moment puts it under two exactly when it is on a trial that ends within a day of its creation or of seven days after it. |
| Digest.SectionsDistinct | app/domain/recruitment_digest/service.py:109-147 | No section of a run, daily or snapshot, lists an application twice, so two entries are two different sections. |
| Digest.SnapshotAgrees | app/domain/recruitment_digest/service.py:138-147 | A daily reminder about waiting or a trial concerns an application that the snapshot puts in the matching section; what the snapshot calls finished was reported finished at its end. |
| Digest.InSectionIff | app/domain/recruitment_digest/service.py:116-134 | Each section is one day long, from a moment fixed by the application. |
| Retention.OrgCountsAre | app/domain/groups/queries.py:559-638 | The sums over distinct members count sets: members, those also in the semester before or after, and those who stay in a group. |
| Retention.GroupCountsAre | app/domain/groups/queries.py:640-712 | The same for one group. |
| Retention.NothingIsCut | app/domain/groups/queries.py:732-750 | 0 <= same group <= to next <= total, so max(0, ...) never cuts, and everybody stays in a group, changes group or leaves. |
| Retention.StayersArrive | app/domain/groups/queries.py:577-609 | Whoever a semester keeps, the next one has from before. |
| Retention.StayersArriveIff | app/domain/groups/queries.py:577-584 | That holds for every table exactly for the codes whose next code leads back to them. |
| Retention.PreviousOfNextIff | app/shared/semester.py:24-31 | Those are, from 1 on, the spring and autumn codes. |
| Retention.NextAgrees | app/shared/semester.py:24-31 | The expressions in SQL agree with get_next_semester_code on every code it accepts. |
| Retention.Flow | app/domain/groups/queries.py:732-750 | Members of the next semester: members, minus churned, plus new. |
| Retention.FlowTelescopes | app/domain/groups/queries.py:559-638 | The same over any number of consecutive semesters. |
| Retention.GroupFlow | app/domain/groups/queries.py:640-750 | For a group: the bounds, and those who stay in it are those who come from it. |
| Retention.GroupWithinOrg | app/domain/groups/queries.py:559-712 | No count of a group exceeds that of the organisation. |
| MigrationPlan.BuildPlan | scripts/plan_admin_volunteer_migration.py:23-139 | Refuses exactly the invalid inputs, and otherwise returns the rows, memberships and individuals of the specification. |
| MigrationPlan.PlanAccount | scripts/plan_admin_volunteer_migration.py:48-101 | One account: its checks, its proposal and its grants. |
| MigrationPlan.GrantsConserved | scripts/plan_admin_volunteer_migration.py:86-101 | Every grant of an account to a volunteer is among that individual's source grants exactly as often as it was made. |
| MigrationPlan.MembershipsConserved | scripts/plan_admin_volunteer_migration.py:102-116 | Admin through a membership goes to exactly the volunteers with an assignment in that eligible group in the current semester. |
| MigrationPlan.ProposedIffOnlyNamesake | scripts/plan_admin_volunteer_migration.py:71-79 | An undecided account is proposed to someone exactly when they are its only namesake who has held a position. |
| MigrationPlan.HighestIsGranted | scripts/plan_admin_volunteer_migration.py:120-120 | An individual's role is one of the granted ones. |
| MigrationPlan.HighestRanksFirst | scripts/plan_admin_volunteer_migration.py:120-120 | No granted role ranks higher. |
| MigrationPlan.ReadyIff | scripts/plan_admin_volunteer_migration.py:81-130 | Exactly when an individual has no issues: every grant reviewed, an address nobody else has up to case, and no account that burdens them. |
| MigrationPlan.OrderOfSelectionMatters | scripts/plan_admin_volunteer_migration.py:87-99 | A missing address is noted for those selected after its owner and not for those before. |
| MigrationPlan.Finish | scripts/plan_admin_volunteer_migration.py:117-130 | Roles, groups, reviews and shared addresses of all individuals. |
| MigrationReview.AccountGrantIff | scripts/plan_admin_volunteer_migration.py:48-101 | The grants from accounts in a plan are exactly those of the accounts mapped to that volunteer, or undecided with them as only namesake; with the role and groups of the decision or else of the account, and reviewed iff mapped and not declared unreviewed. |
| MigrationReview.ReadyIsReviewed | scripts/plan_admin_volunteer_migration.py:91-124 | An individual without issues has no grant from an account nobody has decided about or reviewed. |
| MigrationReview.GrantsAreKnown | scripts/plan_admin_volunteer_migration.py:48-60 | Whoever is in a plan is a known volunteer, and their roles and groups are known. |
| MigrationReview.IndividualIs | scripts/plan_admin_volunteer_migration.py:117-122 | Address, highest role by name, and the groups of an individual. |
| MigrationReview.OrganizationIs | scripts/plan_admin_volunteer_migration.py:102-116 | The memberships listed are exactly the assignments to an eligible group in the current semester. |
| MigrationReview.OrganizationIsSorted | scripts/plan_admin_volunteer_migration.py:102-104 | They are listed by volunteer and group, each once. |
| MigrationReview.RowSays | scripts/plan_admin_volunteer_migration.py:48-101 | Each row names its account, the action, and exactly the volunteers the account goes to. |
| MigrationReview.RowIssuesIs | scripts/plan_admin_volunteer_migration.py:80-101 | Which issues a row has, and why. |
| MigrationReview.IssuesAre | scripts/plan_admin_volunteer_migration.py:80-130 | Which issues an individual has: pending review, missing scope, shared address, each iff its reason holds. |
| MigrationReview.AddressIssueIff | scripts/plan_admin_volunteer_migration.py:86-116 | A missing address is noted for its owner and for those listed after them, and for nobody else. |
| MigrationReview.RefusedIff | scripts/plan_admin_volunteer_migration.py:48-66 | Every reason to refuse the decision about an account. |
| MigrationReview.InventoryRefusedIff | scripts/plan_admin_volunteer_migration.py:29-38 | Every reason to refuse the inventory and the eligible groups. |
| Slugs.Upgrade | migrations/versions/20260729_1200_add_group_slugs.py:42-58 | The loops end; every slug is the first free candidate of its group, all are different, and all match the pattern of the API. |
| Slugs.FreeSlug | migrations/versions/20260729_1200_add_group_slugs.py:48-53 | The inner loop ends for every finite set of used slugs. |
| Slugs.SlugifyMatches | migrations/versions/20260729_1200_add_group_slugs.py:33-39 | A slug made of a name matches the pattern or is empty. |
| Slugs.TrimmedMatches | app/api/v1/volunteer_prospects.py:119-123 | Letters, digits and single inner dashes are exactly enough for the pattern. |
| Slugs.SlugifyTwice | migrations/versions/20260729_1200_add_group_slugs.py:33-39 | Making a slug of a slug changes nothing. |
| Slugs.SlugIsWords | migrations/versions/20260729_1200_add_group_slugs.py:33-39 | A slug is the words of the name in small letters, in order, with one dash between them. |
| Slugs.LowerIs | migrations/versions/20260729_1200_add_group_slugs.py:39-39 | Small letters, letter by letter of the alphabet. |
| Slugs.SlugOfGroupIs | migrations/versions/20260729_1200_add_group_slugs.py:48-53 | A slug is that, or the word group and the id if the name has no words, with the id appended as often as needed and no more. |
| Slugs.DigitsRead | migrations/versions/20260729_1200_add_group_slugs.py:48-53 | The id is appended as a decimal numeral without leading zeros. |
| Slugs.MatchesIff | app/api/v1/volunteer_prospects.py:119-123 | The pattern matches exactly the strings of small letters, digits and single inner dashes. |
| MobileSessions.NeverRefusedIff | app/domain/mobile_card/sessions.py:30-96 | A client that keeps the newest token is never refused as expired, exactly when it never pauses longer than one second more than the renewal threshold, nor longer than a token lives. |
| MobileSessions.RunLasts | app/domain/mobile_card/sessions.py:87-88 | The invariant behind it: after a call the newest token is new or has more than the threshold left. |
| MobileSessions.SubjectStays | app/domain/mobile_card/service.py:384-427 | A client's token names the same subject, or the volunteer its trial was approved as. |
| MobileSessions.MovesAtMostOnce | app/domain/mobile_card/service.py:393-417 | It moves at most once. |
| MobileSessions.AnsweredIff | app/domain/mobile_card/service.py:384-427 | A call is answered with a card iff the token is in its life and there is a card for whom it names; which refusal it is otherwise. |
| MobileSessions.RenewedIff | app/domain/mobile_card/service.py:419-427 | It brings a new token iff the old one is near its end or its trial was approved, and for whom. |
| MobileCardTables.OneSessionPerCode | app/domain/mobile_card/repository.py:163-180 | In every interleaving each stored trial code opens at most one session, with the right hash and in time. |
| MobileCardTables.CodeIsThereIff | app/domain/mobile_card/repository.py:110-180 | A code is in the table iff one was stored and nothing has been opened with it since: wrong or late attempts cost nothing. |
| MobileCardTables.SessionsWithinCodes | app/domain/mobile_card/repository.py:110-180 | Sessions opened by code never outnumber the codes stored. |
| MobileCardTables.RegularUseNeverFails | app/domain/mobile_card/repository.py:143-161 | A device that refreshes within the time to live is never turned away, and keeps its subject. |
| MobileCardTables.RefreshedSubject | app/domain/mobile_card/service.py:340-367 | A refreshed session is for the refresh token's subject or the volunteer it was approved as. |
| MobileCardTables.MobileCardRepository.ConsumeTrialAccessCode | app/domain/mobile_card/repository.py:163-180 | Deletes the row iff all predicates hold, and says so. |
| MobileCardTables.MobileCardRepository.UseRefreshToken | app/domain/mobile_card/repository.py:143-161 | Slides the expiry of a valid token and returns its subject. |
| VolunteerCodes.OneSessionPerCodeIff | app/domain/mobile_card/repository.py:209-250 | Codes of volunteers are selected by one statement and deleted by another, which looks at no row count. In every interleaving each stored code opens at most one session exactly when between the selects of any two sessions of a volunteer their code was stored or deleted. |
| VolunteerCodes.SessionIsEntitled | app/domain/mobile_card/repository.py:209-250 | Each session was opened by a call that gave the address of its volunteer and the hash of their code, in time. |
| VolunteerCodes.SameCodeIff | app/domain/mobile_card/repository.py:95-250 | The reason: a volunteer still has the code they had exactly when no step stored or deleted one for them. |
| VolunteerCodes.OneCallAtATimeOpensOnce | app/domain/mobile_card/repository.py:209-250 | So it holds if no select finds a volunteer for whom another call is under way. |
| VolunteerCodes.OneCodeOpensTwice | app/domain/mobile_card/repository.py:216-249 | And not otherwise: two calls that both select before either deletes open two sessions, with any code. |
| VolunteerCodes.DeletesWhatItFoundIff | app/domain/mobile_card/repository.py:245-249 | The delete removes the code that its call found exactly when nothing touched it since the select. |
| VolunteerCodes.NewCodeIsLost | app/domain/mobile_card/repository.py:245-249 | Otherwise it can remove a newer code, which then opens no session. |
| VolunteerCodes.MobileCardAccessCodes.SelectVolunteer | app/domain/mobile_card/repository.py:216-240 | Finds a volunteer with that address and a matching code that is young enough, and none only if there is none. |
| VolunteerCodes.MobileCardAccessCodes.DeleteCode | app/domain/mobile_card/repository.py:245-249 | Removes whatever code the volunteer has. |

## Left out

- Outbox: one lease token is written per claim instead of one per row, since no code reads `lease_owner`; recipients, templates, durations, SMTP and trace columns, and the admin event of a retry, are not modelled.
- Outbox: preparing a message is an outside event that succeeds or fails with its retryable and expired flags; `correct_volunteer_recipient` is left out.
- Outbox: a crash between transactions is a step; a crash inside one is its rollback and changes nothing. Insert conflicts on (delivery, attempt number) cannot be told from a crash of the worker that loses.
- OutboxRefinement.DispatchDueIsPath: is about a nonempty batch and no timed block of another worker under way, because the clock cannot be moved past another block's limit; interference itself is what the transition system covers.
- Log-after-commit: only the session's own transaction tree; the loggers' handlers and the capture of the record.
- Pooler: what runs between two awaits is instantaneous; the driver's connection, the HTTP client and the parsing of the flag are outside events.
- Rate limiter: the transaction of a hit is one step with one reading of the clock; a failing database is left out.
- SignedRequests.Guard.Require: takes the form checks and the signature as one flag, and one reading of the clock for its hits on the limiter; the size limit of the body is left out.
- Canonical messages: HMAC and SHA-256 (a digest is a string of 64 characters), and upper-casing beyond ASCII, which HTTP methods do not have.
- MO files: parsing PO files; texts are sequences of Unicode scalar values, so the lone surrogates that encoding refuses do not arise; the native byte order is a parameter; the hash table, which the writer leaves empty.
- Event clicks: the format of ids and the check on 1 to 1000 clicks are the type of a save; a read without a source is a read of an unused one.
- TTL cache: its method promises are about `get`, `set`, `pop`, `clear`, `force_expire`; entries are values, so a caller that mutates a cached object is not modelled.
- Session store: creating ids and rows is a write to the table; the reading of the clock in `create_session` is left out.
- Digest: who a group's recipients are is a function of the group; writing the digests to the outbox, the fuse of 60, rendering and `parse_digest_context` are left out. `group_ids` and times are those of the rows, already with a time zone.
- Retention: a report has rows only for semesters with members; the lemmas speak of the row a semester would have, which is all zeros without members. Labels and ordering are left out.
- Migration plan: which error a refused input raises, the summary counts, names, and the order of individuals; normalising, case folding and stripping are functions of the text.
- Slugs: transliteration and NFKD come before the model, which starts from the ASCII text; the maximum length of 100 in the API is not promised by the migration.
- Mobile sessions: signatures, building cards, rate limits, sending codes and `find_trial_application_for_code`; what the database says at a call is a parameter.
- Codes of volunteers: who has an address and is not blocked is a parameter of a select; a change is seen when its transaction commits; which of several matching rows `limit 1` returns is left open.
- HTTP routing, middleware, templates, the other migrations and scripts, and clients of outside services.
