# Escrow lifecycle of the Trust-Link backend, modelled and proved in Dafny

The backend keeps escrow rows in step with a Soroban contract. Contract events arrive at least once
through a polling loop; HTTP handlers, an admin, a payment webhook and two background workers write
the same rows. This project models that core and proves what holds over whole runs of it: which
changes can happen, what a crash or a repeated delivery can do, who excludes whom, and where the
code does not keep a promise, exactly when it does.

| file | what it covers |
|---|---|
| `EscrowTables.dfy` | the escrow and dispute tables, and what every writer may do to them |
| `ChainSync.dfy` | `syncStateFromChain`: repeated, interrupted and retried events |
| `Lifecycle.dfy` | every writer as one atomic step; runs of all of them together |
| `WriterEffects.dfy` | each reply of each writer and the columns it writes, on the tables before and after |
| `EscrowWriters.dfy` | the entry points as methods that read, check and write, and what a crash between writes leaves |
| `DecimalText.dfy` | decimal text of `u64` ids |
| `SorobanPoller.dfy`, `PollerRuns.dfy`, `ExactlyOnce.dfy`, `PollerProgress.dfy` | the polling loop, its cursor, dead letters and progress |
| `EventEffects.dfy` | from an event's topics and payload to the tables it leaves |
| `StableJson.dfy`, `StableJsonProofs.dfy`, `IdempotentCreate.dfy` | `stableStringify` and idempotent creation |
| `DeadLetterQueue.dfy` | replaying and abandoning failed transactions |
| `AutoRelease.dfy`, `ReleaseWorker.dfy` | the auto-release claim under any interleaving; one run of the worker |
| `StellarWebhook.dfy`, `WebhookRuns.dfy` | payment deliveries and replays, by themselves and among other writers |
| `CachedRepository.dfy` | the escrow repository with its cache |
| `MemoryCache.dfy`, `CacheHistories.dfy` | the in-memory cache; whole histories of it against a TTL map |
| `RefreshTokens.dfy` | refresh-token rotation |
| `WorkerPool.dfy` | the bounded pool of the tracking worker |
| `AmountValidator.dfy` | decimal places of amounts |

`dafny verify dfyconfig.toml` checks the whole project.

## Where the code falls short of its promise

The lemma named with each item is a for-all statement; where it ends in `Exactly` it gives the
condition under which the promise holds, both ways.

- A sync that is cut between its two writes never finishes. This concerns DisputeResolved, and also
  DisputeRaised, whose retry meets the unique dispute row. Retrying converges exactly when the event
  does not write both tables (`ChainSync.ConvergesExactly`).
- The other writers have the same gap. A dispute half opened over HTTP never opens
  (`EscrowWriters.HalfOpenedNeverOpens`), a delivery cut after its claim is never delivered
  (`EscrowWriters.CutDeliveryNeverDelivers`), and an admin's resolution cut after its first write blocks
  the chain's own DisputeResolved (`EscrowWriters.CutResolveExactly`).
- The quiet-cycle reset of the cursor is safe exactly when at most eleven ledgers close between the
  fetch and the latest-ledger call (`PollerRuns.QuietResetExactly`).
- The first cycle protects every event from its start ledger on exactly when that ledger is configured
  or the cycle stores a cursor (`PollerRuns.FirstCycleExactly`). A start ledger is honoured by
  every later run exactly when it lies behind the ten-ledger margin (`PollerRuns.LateStartExactly`).
- The fifth counted failure in a row moves past an event that has had no effect
  (`ExactlyOnce.PassedOverExactly`). Once the cursor has left it behind the tables are no pass over the
  log (`ExactlyOnce.OncePassNeedsSpent`).
- Two requests with one idempotency key that overlap both create (`IdempotentCreate.OverlapExactly`).
- A dead-letter replay that outlasts five minutes can be taken over, and a record can then be abandoned
  and replayed (`DeadLetterQueue.TakeOverExactly`, `DeadLetterQueue.OverrunBreaksBoth`).
- An AutoReleased chain event stores its hash but leaves the claim column empty, so a worker past its
  checks still calls the contract (`AutoRelease.ClaimDecidesExactly`,
  `AutoRelease.ChainHashDoesNotStopAWorker`). A claim whose worker is gone is never taken over
  (`AutoRelease.LostClaimIsForever`).
- The payment loop writes FUNDED without looking at the row again, and can undo a later state
  (`StellarWebhook.LateWritesExactly`, `StellarWebhook.LateWriteRegresses`).
- `markAutoReleaseSubmitting` returns the row from before the claim exactly when the read that follows
  hits the cache (`CachedRepository.ClaimAnswerExactly`).
- The in-memory cache is a TTL map exactly while at most 1000 keys are alive
  (`CacheHistories.AgreesExactly`). Beyond that, a sweep can be seen only where an eviction meets a tie
  between live entries (`CacheHistories.SweepIsInvisible`, `CacheHistories.SweepChangesTiedEviction`).
- Two rotations of a refresh token that overlap fork its family: the writes of a rotation keep families
  chains exactly when the token has no child by then (`RefreshTokens.CommitKeepsExactly`,
  `RefreshTokens.RacingRotationsFork`).
- With a concurrency below one and something to do, the pool finishes having done nothing
  (`WorkerPool.FinishesAllExactly`).
- docs/state-machine.md does not let a CREATED escrow be disputed or completed, and resolves disputes
  only to COMPLETED or REFUNDED. Chain events do more; `Lifecycle.AllowedExactly` has the real table.

## Assumptions

One clock for all processes, non-decreasing where a lemma says so. A database write that fails has
written nothing. Prisma is wired, so `contractEscrowId` lookups, cursor writes and the processed-id
table are live. `contractEscrowId` is written by no code of the repository, so rows are created
unmapped and mappings do not change. Pages ordered by creation time break ties by creation order. The
chain's answers, the carrier's answers, times, faults and schedules are parameters, over which every
lemma quantifies. The hash of a request body is injective, and distinct refresh tokens have distinct hashes.
Vendor addresses contain no colon.

## Model

| member | source | states |
|---|---|---|
| `EscrowTables.InsertDisputeAdvances` | prisma/schema.prisma:92-113 | a first dispute row of an escrow keeps every row and every other dispute, and is what lookups find from then on |
| `EscrowTables.ResolveAtAdvances` | src/escrow/escrow.service.ts:1076-1273 | resolving a dispute row moves no other row and never re-opens one |
| `ChainSync.PlanShape` | src/escrow/escrow.service.ts:1076-1273 | an event that writes at all writes the escrow row last, to a state of strictly higher rank, after at most one write to that escrow's own dispute |
| `ChainSync.SyncAdvances` | src/escrow/escrow.service.ts:1076-1273 | no event lowers a state, changes an escrow's terms or mapping, or re-opens a dispute |
| `ChainSync.SyncSettles` | src/escrow/escrow.service.ts:1076-1273 | after a sync returned, whatever it returned, its event is settled |
| `ChainSync.SettledExactly` | src/escrow/escrow.service.ts:1076-1273 | an event is settled if and only if delivering it at any time changes nothing |
| `ChainSync.SyncReaches` | src/escrow/escrow.service.ts:1093-1272 | an event that is not settled takes its escrow to the state the event reports, stamps only the columns of its kind with the event's values or their defaults, opens or resolves only that escrow's dispute with every column of it, and touches no other row |
| `ChainSync.SkipsExactly` | src/escrow/escrow.service.ts:1076-1273 | each reason for skipping an event, if and only if its condition holds; a skip writes nothing |
| `ChainSync.SettledStable` | src/escrow/escrow.service.ts:1076-1273 | a settled event stays settled whatever any writer does later |
| `ChainSync.SyncTimeIrrelevant` | src/escrow/escrow.service.ts:1076-1273 | the clock decides what timestamps read and nothing else: rows, texts, hashes, states and disputes are the same |
| `ChainSync.CutIsAllOrNothing` | src/escrow/escrow.service.ts:1076-1273 | when one table is concerned, an interrupted sync has done everything or nothing |
| `ChainSync.AttemptsAllOrNothing` | src/escrow/escrow.service.ts:1076-1273 | the same for any number of interrupted attempts at any times |
| `ChainSync.SettledAttempts` | src/escrow/escrow.service.ts:1076-1273 | interrupted repetitions of a settled event change nothing |
| `ChainSync.HalfWrittenIsStuck` | src/escrow/escrow.service.ts:1076-1273 | cut between the two tables, no number of retries ever moves the escrow row |
| `ChainSync.ConvergesExactly` | src/escrow/escrow.service.ts:1076-1273 | retrying after any interruptions ends like an uninterrupted sync, up to what timestamps read, if and only if the event does not write both tables |
| `ChainSync.EscrowService.SyncStateFromChain` | src/escrow/escrow.service.ts:1076-1273 | the handler, stopped after any number of writes, leaves exactly the prefix of its writes, and returns only when all were made, skipped or rejected |
| `Lifecycle.StepAdvances` | src/escrow/escrow.service.ts:717-953 | every step of every writer only raises ranks and keeps terms, mappings and settled disputes |
| `Lifecycle.RunAdvances` | src/escrow/escrow.service.ts:717-1273 | the same over any run of all writers |
| `Lifecycle.RefusalWritesNothing` | src/escrow/escrow.service.ts:717-953 | a refused or failed request leaves the tables untouched |
| `Lifecycle.StrangersAreInvisible` | src/escrow/escrow.service.ts:717-953 | dropping every request of a caller who is neither participant nor admin leaves the final tables of any run the same |
| `Lifecycle.StepAllowed` | docs/state-machine.md:1-60 | every state change a step makes is in the transition table |
| `Lifecycle.AllowedExactly` | docs/state-machine.md:1-60 | and every entry of the table occurs in a run from a created, mapped escrow: the table is exact |
| `Lifecycle.ChangesBounded` | src/escrow/escrow.service.ts:717-1273 | in any run an escrow changes state at most five times, never more often than its rank rises |
| `Lifecycle.TerminalForever` | src/escrow/escrow.service.ts:1093-1272 | COMPLETED, RELEASED, REFUNDED and CANCELLED survive every run |
| `Lifecycle.SyncNeverFails` | src/escrow/escrow.service.ts:1076-1273 | in tables any run can reach, the unique dispute index rejects no sync |
| `Lifecycle.StepKeepsDisputes` | src/admin/dispute/dispute.service.ts:79-137 | every step keeps escrow states and dispute rows in agreement |
| `Lifecycle.DisputesOverRuns` | src/escrow/buyer-dispute.service.ts:92-133 | from any tables in agreement, mapped escrows included, after any run: a DISPUTED escrow has exactly one undecided dispute, and the escrow of a resolved one is COMPLETED or REFUNDED for ever |
| `Lifecycle.RedeliveryIsInvisible` | src/escrow/escrow.service.ts:1076-1273 | removing every repeated delivery of a chain event from a run of all writers leaves the final tables the same |
| `WriterEffects.TrimExactly` | src/escrow/escrow.service.ts:876-953 | a tracking id is stored without the white space at its ends and with everything between |
| `WriterEffects.StepExactly` | src/escrow/escrow.service.ts:717-953 | for cancel, cancel pending, ship, open, resolve, deliver, create and the three auto-release writes: each reply if and only if its condition holds, the columns written with their values (REFUND gives REFUNDED, RELEASE gives COMPLETED), and every other column, row and dispute kept |
| `EscrowWriters.HalfOpenedNeverOpens` | src/escrow/buyer-dispute.service.ts:92-133 | once an escrow has a dispute row, no later attempt to open one changes anything, in any run |
| `EscrowWriters.CutDeliveryNeverDelivers` | src/workers/tracking-poll.worker.ts:204-277 | after a crash between `claimDelivery` and `markDelivered` no run of any writers ever delivers the escrow |
| `EscrowWriters.CutResolveBlocksTheChain` | src/admin/dispute/dispute.service.ts:79-137 | after a crash between the two writes of a resolution no DisputeResolved event changes anything, in any run, while resolving again refunds or completes the escrow as asked |
| `EscrowWriters.CutResolveExactly` | src/escrow/escrow.service.ts:1093-1272 | while the escrow is then DISPUTED, a step of any writer ends that if and only if an admin resolves it again with a mapped row and an accepted call, or the chain reports it completed, cancelled, released, expired or refunded |
| `EscrowWriters.EscrowApi.CancelEscrow` | src/escrow/escrow.service.ts:717-741 | each reply when it is due, and a cancelled row with its time; it is one step of the state machine and only moves the tables forward |
| `EscrowWriters.EscrowApi.CancelPendingEscrow` | src/escrow/escrow.service.ts:776-832 | the same, for every answer of the contract, a refund of a funded one included |
| `EscrowWriters.EscrowApi.HandleShipment` | src/escrow/escrow.service.ts:876-953 | the same, with the trimmed tracking id and the time of shipment |
| `EscrowWriters.EscrowApi.OpenBuyerDispute` | src/escrow/buyer-dispute.service.ts:92-133 | the same, with the new dispute row, and exactly what a crash before or between its two writes leaves |
| `EscrowWriters.EscrowApi.ResolveDispute` | src/admin/dispute/dispute.service.ts:79-137 | REFUND leaves REFUNDED and RELEASE leaves COMPLETED with the first undecided dispute resolved; each refusal when it is due; a crash between the two writes leaves the first alone |
| `EscrowWriters.EscrowApi.ProcessShipment` | src/workers/tracking-poll.worker.ts:204-277 | a shipped, mapped, unclaimed escrow whose carrier delivered becomes DELIVERED with both times if and only if the contract accepts; a failed call restores the modelled columns; a crash after the claim leaves the claim alone |
| `DecimalText.ParsePrint` | src/common/bigint-json.ts:22-30 | parsing undoes printing for every non-negative id |
| `DecimalText.PrintParse` | src/stellar/soroban-poller.service.ts:103-118 | printing undoes parsing if and only if the text has no redundant zero |
| `DecimalText.ContractIdForms` | src/stellar/soroban-poller.service.ts:103-118 | bigint and decimal text of an id give that id; a number does if and only if it is a safe integer |
| `DecimalText.ContractIdInjective` | src/stellar/soroban-poller.service.ts:103-118 | a value of any form is accepted as an id if and only if it denotes that number, a number only up to the largest safe integer |
| `SorobanPoller.DispatchExactly` | src/stellar/soroban-poller.service.ts:524-640 | an event is dispatched to an escrow if and only if it carries, in whichever form, the contract id mapped to that escrow |
| `EventEffects.DispatchMeans` | src/stellar/soroban-poller.service.ts:83-142 | a mapped event is dispatched as a sync if and only if its kind is the one of its two topics, its resolution is REFUND or RELEASE as the bare text or only list item spells in any case, and tracking id, hash and reason are those of the payload |
| `EventEffects.SyncLeaves` | src/escrow/escrow.service.ts:1093-1272 | such an event leaves exactly the tables its topics and payload call for, column by column, and fails if and only if it raises a second dispute row |
| `EventEffects.ProcessExactly` | src/stellar/soroban-poller.service.ts:524-640 | every event with every fault: unusable or unmapped ones are dead-lettered, a failed lookup stops with nothing changed, a failed sync is counted up to the fifth, and any other leaves the tables of its topics and payload |
| `SorobanPoller.DispatchStable` | src/stellar/soroban-poller.service.ts:524-640 | what an event asks for is the same after any step of any writer |
| `SorobanPoller.FirstAt` | src/stellar/soroban-poller.service.ts:350-365 | reading from a ledger starts at the first event at or after it |
| `SorobanPoller.SorobanPollerService.Poll` | src/stellar/soroban-poller.service.ts:241-253 | a tick is one cycle, or nothing while another is running, and the guard is released |
| `SorobanPoller.SorobanPollerService.PollInternal` | src/stellar/soroban-poller.service.ts:261-342 | the cycle with all its faults is the step the run lemmas are about, whose events and cursor `ProcessExactly`, `CleanCycleExactly` and `NoPageExactly` give |
| `SorobanPoller.SorobanPollerService.ApplyBatch` | src/stellar/soroban-poller.service.ts:261-342 | the loop stops at the first event that throws, with everything before it handled, whatever other writers do between two events |
| `PollerRuns.TickKeepsNoGap` | src/stellar/soroban-poller.service.ts:261-342 | no cycle, restart, chain growth or other writer, between cycles or within one, leaves an unaccounted event behind the cursor |
| `PollerRuns.NeverAGap` | src/stellar/soroban-poller.service.ts:261-342 | in any run every event from the start ledger on that lies behind the persisted cursor has taken effect or been dead-lettered |
| `PollerRuns.FirstCycleExactly` | src/stellar/soroban-poller.service.ts:376-387 | from a poller that has never run: no event from the resolved start ledger on is ever passed over if and only if that ledger is configured or the first cycle stores a cursor |
| `PollerRuns.StoresCursorExactly` | src/stellar/soroban-poller.service.ts:261-342 | which outcomes of the start write, the fetch, the first event and the cursor write store a cursor, both ways |
| `PollerRuns.QuietResetExactly` | src/stellar/soroban-poller.service.ts:261-342 | the quiet reset skips no event of any later chain if and only if at most eleven ledgers closed since the fetch |
| `PollerRuns.LaterStartLeavesAGap` | src/stellar/soroban-poller.service.ts:376-387 | without a cursor and a configured ledger, from any state, the next cycle can start behind an event at or after the first start ledger that nobody has read |
| `PollerRuns.QuietResetUndoesALateStart` | src/stellar/soroban-poller.service.ts:376-387 | for every start ledger inside the margin there is a legal run that reads an event before it |
| `PollerRuns.LateStartExactly` | src/stellar/soroban-poller.service.ts:261-342 | every run honours a persisted start ledger, however often the cursor is wound back, if and only if it lies behind the ten-ledger margin |
| `ExactlyOnce.ExactlyOnceEffect` | src/stellar/soroban-poller.service.ts:261-342 | from a poller that has never run or has its start ledger persisted, with any retry counts, through restarts, lost cursor writes, failed fetches and any failed syncs that do not make the poller give up an event without effect, the tables equal one pass over the log, each event once and in order, interleaved with the steps other writers take between cycles and between events |
| `ExactlyOnce.OncePassNeedsSpent` | src/stellar/soroban-poller.service.ts:648-676 | there is no such pass once the cursor has left an event without effect behind |
| `ExactlyOnce.StartsAtConfig` | src/stellar/soroban-poller.service.ts:376-387 | with a configured ledger, or once a cursor is persisted, every cycle starts from the same ledger |
| `ExactlyOnce.PassedOverExactly` | src/stellar/soroban-poller.service.ts:648-676 | an event that was moved past has had its effect if and only if it was not given up: dead-lettered by its fifth counted failure in a row before it had |
| `PollerProgress.CycleProgress` | src/stellar/soroban-poller.service.ts:261-342 | a cycle that can reach the chain moves the cursor or uses up one of five attempts |
| `PollerProgress.ReachesTheEnd` | src/stellar/soroban-poller.service.ts:261-342 | the cursor reaches the end of the log within five such cycles per event, whatever fails and whoever writes |
| `PollerProgress.NoPageExactly` | src/stellar/soroban-poller.service.ts:376-387 | the cursor a cycle leaves when it has no start, cannot fetch or finds no event: the configured ledger, ten behind the latest, or the one it had |
| `PollerProgress.CleanCycleExactly` | src/stellar/soroban-poller.service.ts:261-342 | from tables in agreement a cycle without faults stores the token of the last of up to 100 events |
| `StableJsonProofs.ReadEscaped` | src/escrow/escrow.service.ts:83-96 | a reader recovers every string, lone surrogates included, from its quoted text whatever follows |
| `StableJsonProofs.QuotePrefix` | src/escrow/escrow.service.ts:83-96 | two quoted strings that start one text are the same string |
| `StableJsonProofs.SortedMeans` | src/escrow/escrow.service.ts:83-96 | sorting an object keeps exactly its defined properties and orders them strictly |
| `StableJsonProofs.PrintsNormalForm` | src/escrow/escrow.service.ts:83-96 | the text of a value is the plain print of its normal form |
| `StableJsonProofs.RawPrefix` | src/escrow/escrow.service.ts:83-96 | plain texts are uniquely decodable at every depth |
| `StableJsonProofs.NormEqualExactly` | src/escrow/escrow.service.ts:83-96 | normal forms agree if and only if the values do, up to key order and undefined |
| `StableJsonProofs.TextExactly` | src/escrow/escrow.service.ts:83-96 | two values of any depth have one text if and only if they are the same up to key order, undefined properties and undefined or null items |
| `IdempotentCreate.CacheKeyInjective` | src/escrow/escrow.service.ts:357-385 | no two pairs of vendor and key share a cache key |
| `IdempotentCreate.RepliesExactly` | src/escrow/escrow.service.ts:357-385 | after any requests with any keys: within a day of the creation that counts for its key a request gets that result if and only if its body is the same, is refused otherwise and creates nothing; else it creates |
| `IdempotentCreate.OneCreationADay` | src/escrow/escrow.service.ts:357-385 | of any number of requests with one vendor and key, two that create are more than a day apart |
| `IdempotentCreate.OverlapExactly` | src/escrow/escrow.service.ts:357-385 | of two requests that find no entry, both create if and only if the second reads before the first has written |
| `DeadLetterQueue.HeldIsNotClaimable` | src/dlq/failed-transaction.repository.ts:107-133 | a record held in time cannot be claimed or abandoned by anyone else |
| `DeadLetterQueue.StepKeepsInv` | src/dlq/dlq.service.ts:116-197 | every step of every operator keeps exclusion and the account of submissions |
| `DeadLetterQueue.StepStatus` | src/dlq/failed-transaction.repository.ts:149-195 | no step leaves REPLAYED or ABANDONED, and only marking a held record enters REPLAYED |
| `DeadLetterQueue.ReplayExclusion` | src/dlq/dlq.service.ts:116-197 | in every interleaving of replays that end in time: one replay of a record in flight, one success ever, REPLAYED and ABANDONED for ever |
| `DeadLetterQueue.SubmissionsAccountedFor` | src/dlq/dlq.service.ts:116-163 | the chain accepts at most one submission of a record more than were lost track of, calls that land and then throw included |
| `DeadLetterQueue.TakeOverExactly` | src/dlq/dlq.types.ts:10 | a second operator takes a held record over if and only if its stamp is five minutes old |
| `DeadLetterQueue.OverrunBreaksBoth` | src/dlq/dlq.service.ts:116-197 | past the limit one record is abandoned and then replayed |
| `DeadLetterQueue.ReplayAlone` | src/dlq/dlq.service.ts:116-163 | a replay that nobody interrupts marks a record that waits, or whose claim is five minutes old, replayed with its hash, or counts an attempt and gives it back; it leaves any other alone |
| `DeadLetterQueue.AbandonAlone` | src/dlq/dlq.service.ts:174-197 | the same for abandoning |
| `DeadLetterQueue.DlqService.Enqueue` | src/dlq/dlq.service.ts:46-56 | a new record can be claimed at once whatever the staleness limit, has its caller's attempts or one and no result, and no other record changes |
| `DeadLetterQueue.DlqService.ClaimForReplay` | src/dlq/failed-transaction.repository.ts:107-133 | the claim wins if and only if the record waits or its claim is stale; then no other claim wins before this one is stale, and nothing but status and stamp of that record changes |
| `DeadLetterQueue.DlqService.Replay` | src/dlq/dlq.service.ts:116-163 | each answer, when it is given and the record it leaves; a failure counts an attempt and gives the claim back |
| `DeadLetterQueue.DlqService.Abandon` | src/dlq/dlq.service.ts:174-197 | each answer, when it is given and the record it leaves |
| `AutoRelease.OthersKeepClaims` | src/escrow/escrow.repository.ts:449-473 | no other writer sets or clears an auto-release claim |
| `AutoRelease.WorkerWrites` | src/escrow/escrow.repository.ts:336-350 | the worker's writes change the claim of their own escrow and no state |
| `AutoRelease.StepKeepsInv` | src/workers/auto-release.worker.ts:202-266 | every step of every worker and writer keeps the claim invariant |
| `AutoRelease.ReleaseExclusion` | src/workers/auto-release.worker.ts:202-266 | in every interleaving: one holder per escrow, every call at least 48 hours after delivery, at most one accepted call more than were never recorded, calls that land and then throw included, and none after a record |
| `AutoRelease.RecordedStepMakesNoCall` | src/escrow/escrow.repository.ts:336-350 | a recorded submission stays recorded and is never called again |
| `AutoRelease.StrandedForever` | src/escrow/escrow.repository.ts:449-473 | a claim that no worker holds stays set in every run, and the contract is never called for that escrow |
| `AutoRelease.LostClaimIsForever` | src/workers/auto-release.worker.ts:202-266 | so it is after a worker dies holding the claim, or after its read behind the claim fails: the claim has no time limit |
| `AutoRelease.AcceptedBound` | src/workers/auto-release.worker.ts:202-266 | wherever the claim invariant holds, the chain has accepted at most one call more than were never recorded |
| `AutoRelease.WorkersKeepStates` | src/workers/auto-release.worker.ts:202-266 | no worker changes a state; only the chain event releases |
| `AutoRelease.ClaimDecidesExactly` | src/escrow/escrow.repository.ts:449-460 | a worker past its checks calls the contract if and only if the claim column is empty |
| `AutoRelease.ChainHashDoesNotStopAWorker` | src/workers/auto-release.worker.ts:202-266 | a released escrow with a hash is called again by such a worker |
| `ReleaseWorker.ProcessLocal` | src/workers/auto-release.worker.ts:202-266 | what happens to an escrow depends on its own row and disputes only |
| `ReleaseWorker.ProcessIsProtocol` | src/workers/auto-release.worker.ts:202-266 | the straight-line code of one escrow, with each of its writes failing or not, is the protocol run by one worker without interruption |
| `ReleaseWorker.ProcessExactly` | src/workers/auto-release.worker.ts:202-266 | the contract is called if and only if there is no dispute row, the snapshot is open, without hash and mapped, and the claim is free; then the row gets hash and time, or ends as before, or keeps the claim when clearing fails |
| `ReleaseWorker.BatchIsolates` | src/workers/auto-release.worker.ts:130-193 | whatever fails in a batch, each escrow ends as if it had been alone in it |
| `ReleaseWorker.TallyExactly` | src/workers/auto-release.worker.ts:130-193 | the counts of a batch are those of the escrows that end that way, each alone |
| `ReleaseWorker.SnapshotExactly` | src/escrow/escrow.repository.ts:420-444 | the snapshot holds exactly the DELIVERED rows without hash and claim whose delivery is 48 hours old, each once, oldest delivery first and then by id |
| `ReleaseWorker.CycleExactly` | src/workers/auto-release.worker.ts:130-193 | a run leaves each due, undisputed, mapped escrow with its hash, unclaimed again or with a claim as its own calls went, whatever fails for the others, and every other row as it is |
| `ReleaseWorker.AutoReleaseWorker.Run` | src/workers/auto-release.worker.ts:107-128 | a run that overlaps another does nothing; the guard is released |
| `ReleaseWorker.AutoReleaseWorker.RunCycle` | src/workers/auto-release.worker.ts:130-193 | the loop handles the eligible escrows in order and counts exactly the submissions and the failures |
| `StellarWebhook.StepKeepsInv` | src/webhooks/stellar-webhook.service.ts:50-142 | every step keeps one delivery per operation, and the table the union of running, succeeded and lost operations |
| `StellarWebhook.WebhookExactlyOnce` | src/webhooks/stellar-webhook.service.ts:50-142 | over any interleaving of deliveries, replays, failures and crashes, an operation is in process once at a time and succeeds at most once |
| `StellarWebhook.SkippedExactly` | src/webhooks/stellar-webhook.repository.ts:17-35 | a delivery is a duplicate if and only if its operation succeeded, is in process, or was lost by a crash or a failed delete |
| `StellarWebhook.DeliverySucceeds` | src/webhooks/stellar-webhook.service.ts:50-142 | a new delivery that meets no fault succeeds with the tables of the uninterrupted payment |
| `StellarWebhook.FailureExactly` | src/webhooks/stellar-webhook.service.ts:50-142 | what sends a delivery to the rollback, and that the rollback gives its id back if and only if the delete succeeds |
| `StellarWebhook.PageExactly` | src/escrow/escrow.repository.ts:135-148 | a vendor's page holds a row if and only if fewer than a page of that vendor's rows are newer |
| `StellarWebhook.PaymentFundsExactly` | src/webhooks/stellar-webhook.service.ts:241-334 | a payment moves a row to FUNDED if and only if it is the payee's, CREATED, of exactly that amount, in that asset up to ASCII case with XLM when none is named, and fewer than twenty of the payee's are newer; nothing else changes |
| `StellarWebhook.FundedAfter` | src/webhooks/stellar-webhook.service.ts:241-334 | after a payment's first write, the payment selects exactly what it still had to fund |
| `StellarWebhook.RedeliveryFundsExactly` | src/webhooks/stellar-webhook.service.ts:241-334 | however often a payment's deliveries fail, at whichever write, a success leaves the tables of one uninterrupted delivery |
| `WebhookRuns.SuccessFundsAll` | src/webhooks/stellar-webhook.service.ts:241-334 | with any other operations and writers between and within the deliveries, none creating an escrow of the payee, a success leaves every escrow selected at the start at FUNDED or beyond |
| `StellarWebhook.LateWritesExactly` | src/webhooks/stellar-webhook.service.ts:241-334 | with any steps of other writers before every write, no write takes a row back in rank if and only if no selected row has passed FUNDED when it is written |
| `StellarWebhook.LateWriteRegresses` | src/webhooks/stellar-webhook.service.ts:241-334 | a release that lands in between is undone |
| `StellarWebhook.StellarWebhookService.HandlePayment` | src/webhooks/stellar-webhook.service.ts:241-334 | the loop funds a prefix of the matching escrows in page order, all of them if and only if nothing throws; then every row is paid or kept by payee, state, amount and asset |
| `StellarWebhook.StellarWebhookService.HandleEvent` | src/webhooks/stellar-webhook.service.ts:50-142 | each outcome, when it occurs, and the tables and ids it leaves |
| `CachedRepository.ReviveUndoesEncode` | src/escrow/escrow.repository.ts:43-56 | reviving undoes the JSON encoding of every record of the schema, and leaves an unencoded one alone |
| `CachedRepository.ReviveDates` | src/escrow/escrow.repository.ts:43-56 | the loop turns text in the listed fields into dates and touches nothing else |
| `CachedRepository.ReviveCachedEscrow` | src/escrow/escrow.repository.ts:43-56 | all fields are revived at once, or none when `BigInt` rejects the id |
| `CachedRepository.BigIntUndoesPrint` | src/common/bigint-json.ts:22-30 | `BigInt` of the printed text is the integer printed, for every integer |
| `CachedRepository.PlainExactly` | src/escrow/escrow.repository.ts:171-566 | each operation on the table: its answer, the columns it writes with their values, and every other column kept |
| `CachedRepository.StepKeepsCoherent` | src/escrow/escrow.repository.ts:171-566 | every operation keeps each cache entry equal to its row, or due to expire within a minute of a failed delete |
| `CachedRepository.RunKeepsCoherent` | src/escrow/escrow.repository.ts:171-566 | the same over every sequence of operations, whose table is that of the uncached repository |
| `CachedRepository.CachedRefinesPlain` | src/escrow/escrow.repository.ts:120-128 | after any operations the next one answers as without a cache: a `findById` except within 60000 ms of a failed delete, everything else but an auto-release claim always |
| `CachedRepository.ClaimAnswerExactly` | src/escrow/escrow.repository.ts:449-460 | a won claim returns the claimed row if and only if the read misses the cache, and the old row on a hit |
| `CachedRepository.FailedDeleteExactly` | src/escrow/escrow.repository.ts:70-72 | after a write whose delete failed, a read is fresh if and only if the old entry does not answer it |
| `CachedRepository.EscrowRepository.FindRecord` | src/escrow/escrow.repository.ts:120-128 | `findById` as it runs, on a hit, a miss and with cache failures; a miss stores the row for 60000 ms |
| `CachedRepository.EscrowRepository.Update` | src/escrow/escrow.repository.ts:171-178 | a mutator writes exactly its columns, then deletes the key; a missing row throws |
| `CachedRepository.EscrowRepository.ClaimRelease` | src/escrow/escrow.repository.ts:449-460 | conditional update of an empty claim column, read, delete, in that order |
| `CachedRepository.EscrowRepository.ClaimForDelivery` | src/escrow/escrow.repository.ts:494-509 | only an unclaimed SHIPPED row is claimed, and only its claim and stamp change |
| `MemoryCache.SortOrders` | src/cache/cache.service.ts:77-87 | the sort orders by expiry and is a permutation |
| `MemoryCache.SortKeepsOrder` | src/cache/cache.service.ts:77-87 | entries already in order, equal expiries included, are not moved |
| `MemoryCache.EvictExactly` | src/cache/cache.service.ts:77-87 | at most 1000 entries stay, none goes without need, and each evicted expiry is no later than each surviving one |
| `MemoryCache.HeldIsLatest` | src/cache/cache.service.ts:126-143 | over every history, keys are unique, there are at most 1000 entries, and each is the latest undeleted write of its key |
| `MemoryCache.HitIsLatest` | src/cache/cache.service.ts:92-101 | a hit is the latest undeleted, unexpired `set` of its key |
| `MemoryCache.SetAnswers` | src/cache/cache.service.ts:126-143 | a key that was held, or for which there was room, answers with its value until exactly `ttlSeconds` seconds later, and no other entry goes; no key answers longer |
| `CacheHistories.LiveKept` | src/cache/cache.service.ts:77-87 | while no more entries are alive than fit, eviction takes expired ones only |
| `CacheHistories.NothingLostEarly` | src/cache/cache.service.ts:126-143 | over every history in which that is so, with any number of keys, no entry is lost before it expires |
| `CacheHistories.AgreesWithTtlMap` | src/cache/cache.service.ts:92-143 | then every `get` under a clock that does not go back is that of a TTL map |
| `CacheHistories.AgreesExactly` | src/cache/cache.service.ts:92-143 | the cache answers like the TTL map throughout a history if and only if after every `set` at most 1000 keys are alive |
| `CacheHistories.SweepKeepsGets` | src/cache/cache.service.ts:66-73 | a sweep changes no `get` then or later |
| `CacheHistories.SurvivorsExactly` | src/cache/cache.service.ts:77-87 | which live entries survive an eviction is decided by the live entries alone, whatever expired ones and whatever order the map has, if and only if the line meets no tie between live entries |
| `CacheHistories.SweepIsInvisible` | src/cache/cache.service.ts:66-73 | a sweep anywhere in a history, with any number of keys, changes no later `get` unless a later `set` evicts at such a tie |
| `CacheHistories.RoomyIsTieFree` | src/cache/cache.service.ts:66-87 | there is no such tie while at most 1000 keys are alive |
| `CacheHistories.SweepChangesTiedEviction` | src/cache/cache.service.ts:66-87 | a history with a tie after which the swept cache still answers a key the unswept one has evicted |
| `MemoryCache.CacheService.Get` | src/cache/cache.service.ts:92-101 | the value of an unexpired entry; exactly an expired one of that key is dropped |
| `MemoryCache.CacheService.Set` | src/cache/cache.service.ts:126-143 | the key answers until exactly `ttlSeconds` seconds later when it was held or there was room, and the cache is within its bound |
| `MemoryCache.CacheService.Delete` | src/cache/cache.service.ts:173-186 | the key is gone for every later `get`, and exactly the entries of other keys stay |
| `MemoryCache.CacheService.SweepExpired` | src/cache/cache.service.ts:66-73 | deleting while walking the map leaves exactly the unexpired entries in order |
| `MemoryCache.CacheService.EvictToCapacity` | src/cache/cache.service.ts:77-87 | the deletions in sort order are the eviction specified |
| `RefreshTokens.NextKeepsChains` | src/auth/sep10/sep10.service.ts:212-299 | every atomic login or rotation keeps each token to one child and each parent revoked |
| `RefreshTokens.NextExactly` | src/auth/sep10/sep10.service.ts:212-299 | the same for every step of a run, logins included, column by column |
| `RefreshTokens.CommitKeepsExactly` | src/auth/sep10/sep10.service.ts:212-246 | the writes of a rotation keep families chains if and only if the token has no child when they are made |
| `RefreshTokens.RacingRotationsFork` | src/auth/sep10/sep10.service.ts:212-246 | two overlapping rotations give one login two live tokens |
| `RefreshTokens.FamilyIsAChain` | src/auth/sep10/sep10.service.ts:212-299 | of two tokens with one root, the older is an ancestor of the younger |
| `RefreshTokens.OneLivePerFamily` | src/auth/sep10/sep10.service.ts:212-299 | a live token is the youngest of its family and the only live one |
| `RefreshTokens.RotationOverRuns` | src/auth/sep10/sep10.service.ts:212-299 | over every run families are chains and a user's live tokens never outnumber the logins since reuse was last detected |
| `RefreshTokens.ReuseEndsEverySession` | src/auth/sep10/sep10.service.ts:261-271 | after detected reuse every token of the user, old or new, is revoked until the next login |
| `RefreshTokens.Sep10Service.GenerateAuthTokens` | src/auth/sep10/sep10.service.ts:273-299 | the issued token is live and childless, families stay chains, earlier tokens are untouched and exactly that user has one live token more |
| `RefreshTokens.Sep10Service.RevokeTokenFamily` | src/auth/sep10/sep10.service.ts:261-271 | every token of the owner is revoked and no other changes; an unknown token changes nothing |
| `RefreshTokens.Sep10Service.RotateRefreshToken` | src/auth/sep10/sep10.service.ts:212-246 | Invalid exactly for an unknown token; Reused exactly for a revoked one, with every token of its user and no other revoked; Expired exactly for an unrevoked one past its expiry, with nothing changed; otherwise it is revoked and a live child with its user and the given expiry comes last; families stay chains |
| `WorkerPool.CompleteKeepsInv` | src/workers/tracking-poll.worker.ts:165-195 | started items are an initial stretch, each completed or in flight, and no lane stops while items wait |
| `WorkerPool.PoolOverRuns` | src/workers/tracking-poll.worker.ts:165-195 | for every completion order and failures anywhere: each item starts once, the lanes stay exactly full, and the pool finishes after n completions and not before |
| `WorkerPool.FinishesAllExactly` | src/workers/tracking-poll.worker.ts:165-195 | finishing means every item is done if and only if there is a lane or no item |
| `WorkerPool.RunWithConcurrency` | src/workers/tracking-poll.worker.ts:165-195 | the pool as it runs ends with every item started in order, completed once, and exactly the failures logged |
| `AmountValidator.MatchRender` | src/common/validators/max-decimal-places.validator.ts:13-23 | the pattern recovers the parts of every rendered numeral |
| `AmountValidator.MatchExactly` | src/common/validators/max-decimal-places.validator.ts:13-23 | the pattern matches a text if and only if it is a numeral, in one way |
| `AmountValidator.PlacesExactly` | src/common/validators/max-decimal-places.validator.ts:13-23 | the count is |fraction| plus a negative exponent, or |fraction| less a positive one but not below zero; infinite if and only if the text is no numeral |
| `AmountValidator.ValueExactly` | src/common/validators/max-decimal-places.validator.ts:13-23 | the rational that bounds are checked on is the value of the digits, the point and the signed exponent as written |
| `AmountValidator.PlacesSuffice` | src/common/validators/max-decimal-places.validator.ts:13-23 | the value times ten to the counted places, or more, is an integer |
| `AmountValidator.PlacesMinimalExactly` | src/common/validators/max-decimal-places.validator.ts:13-23 | the counted places are least possible if and only if none are counted or the last digit is not zero |
| `AmountValidator.AcceptedFits` | src/escrow/dto/create-escrow.dto.ts:16-22 | an accepted amount, as written, times 10^8 is a positive integer below 10^18 |
| `AmountValidator.AcceptsNumeral` | src/escrow/dto/create-escrow.dto.ts:64-70 | a numeral is accepted if and only if it is written with at most eight places and its value is positive and at most 9999999999 |
| `AmountValidator.AcceptsExactly` | src/escrow/dto/create-escrow.dto.ts:64-70 | on texts without a superfluous zero the accepted amounts are exactly the positive ones up to the maximum that are integers in units of 10^-8 |

## Left out

- Interleavings inside one HTTP handler: each writer of `Lifecycle` is one atomic read-check-write. Crashes between the writes of a handler are treated, and for the payment loop and token rotation also other writers in between; for `claimDelivery` and the rest they are not.
- Interleavings of `findById` with a write: the cached repository is modelled over sequences of whole operations.
- The time of the last tracking check, which `processShipment` stamps on every exit.
- ReviveCachedEscrow: ISO date text is a pair of functions assumed inverse.
- SweepIsInvisible: for a given history the tie condition is sufficient; it is shown exact for a single eviction, where every order of the map counts, by `SurvivorsExactly`.
- RedeliveryFundsExactly: no other operation or writer acts between the deliveries of the payment; with them the tables are compared by `SuccessFundsAll` and `LateWritesExactly`.
- Idempotent creation with a cache that loses or fails to store an entry within its day.
- HandleEvent: the signature check and events other than payments.
- Pruning of processed webhook ids, which allows an old operation again.
- Redis itself: its cache calls may fail at will, and an entry lives until its expiry.
- `EventReplayService`, which passes failed operations by design.
- Notifications, logging, tracing, metrics and read-only listings, which only add easy members.
- `ensureVendorProfile`, payment URLs, contact encryption and the other fields of a creation request.
- Case folding outside ASCII: upper case is that of the letters a to z.
- BigIntUndoesPrint: texts that no integer prints, such as hexadecimal ones, are modelled and not compared with a reference.
- Floating point: amounts are the exact values of their decimal text.
- Access tokens, nonces and challenge transactions of the login itself.
