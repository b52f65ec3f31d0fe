# Block layer and SD boot loader: a verified model

This project models seven pieces of the Linux block layer and of the FPGA boot loader, and proves what each
of them promises over all inputs and all runs.

| component | files | main results |
|---|---|---|
| flush sequencer | Flush*.dfy | what a submission's own flags ask for is what every run does for it, in order, durably; progress, how long a flush is held back, no BUG check fires, one end per request, which errors a request can end with, and no error hidden by a success |
| bad-block table | BadBlocks*.dfy | the array code refines interval sets: check is a linear scan, clear is set difference, set is set union exactly under a stated condition, what a full table keeps, and what becomes acknowledged |
| B-WF2Q+ tree | BfqTree.dfy, BfqHeap.dfy, BfqExtract.dfy | minima restored along a path, wrapping timestamps, search, insertion and removal with rebalancing, and every run of both on linked nodes |
| B-WF2Q+ weights and times | BfqWeights*.dfy, BfqTimes.dfy, BfqLevel.dfy | from start to finish is budget divided by weight, and where each entity starts; over every run each class's sum is the weight of the entities on its trees and in service, and an entity is only on trees of its own class; the same for objects linked by pointers |
| IO cost weights | IoCostModel/Proofs/Theorems/Controller.dfy | sums exact after every run, cached shares true, all shares together fill the whole up to less than one unit for each leaf |
| IO cost budget | IoCostBudget.dfy | longest fitting prefix is woken, each payment of debt exact to the unit, the timer neither too early nor late by more than half the margin |
| submission loop | Submit.dfy, SubmitOrder.dfy | iteration with two lists is the recursive depth-first visit, and the order of the log for every bio and its children |
| chained bios | BioChain*.dfy, BioPool.dfy | each bio ends once, after its children, with an error exactly when one was reported below it, and with which one |
| CRC16 and sector copy | Crc16.dfy, SdCopy.dfy | the byte step is polynomial division; damaged sectors are rejected, and every return of the copy has its reason in the input |

Each component has functions on values that say what a step does, lemmas about every run of those steps, and,
where the C code updates memory, a class or an array method with the same loops and branches whose `ensures`
equates the new state with the function of the old one. Each locked section is one atomic step. Time, the
device's answers and incoming bytes are parameters.

## Claims that fail, and exactly when they hold

- **badblocks_set is set union** only if the condition `SetExact` holds of the table and the range
  (`SetIsUnionIff`, both directions). `NestedEntryLosesSectors`: the combine step takes the next entry's end even
  when that entry lies inside the merged range, so sectors 15 to 29 of a set of 5 to 29 are lost. `LongRangeIsUnsorted`:
  the insert loop does not advance its position, so a range of more than 512 sectors is stored in reverse order.
  `SetSortedIff` says exactly when a successful call leaves the table well formed.
- **A full table keeps what it had** only if no tail of an extended entry is pushed out past the free places
  (`FullTableLoses`, both directions, for every failing call; `FullTableDropsTail`). `FullTableHolds` says exactly
  which sectors are recorded after a return of 1, and `FullTableSorted` exactly when the table is still well formed.
- **badblocks_set acknowledges no sector outside its range** exactly if the sector is not in the tail of the next entry
  that is cut off when that entry is extended down to the range (`AckedOutsideIff`; `TailIsAcknowledged` is a family of
  calls that acknowledge such a tail). An unacknowledged set acknowledges nothing (`UnackedSetAcksNothing`).
- **badblocks_clear after rounding inwards** gets a start one block after the end exactly for a range strictly inside
  one block (`InversionIff`). `InvertedClear`: no sector changes, and the table stays well formed exactly if no entry
  straddles that block edge. `ClearSplitsEntry`: clearing sectors 9 to 11 in blocks of eight splits an entry into two
  overlapping ones.
- **badblocks_clear's error return** is documented as 1; the code returns -ENOSPC, and the model follows the code.
- **FUA without data** breaks the flush sequence. The comment at the head of blk-flush.c rules it out; for every
  submission that breaks that rule, `NotSensibleBreaksDurability` gives a run in which a request ends without error
  although its second flush step was credited to a flush issued before the request queued for it. Without such submissions `Durability` holds.
- **bfq_first_active_entity returns the least finish time** exactly if the path to the first eligible entity turns
  right only below entities that are not eligible or finish when it does (`SearchFinishesFirstIff`, ties included;
  without ties the path never turns right below an eligible one, `SearchFinishesFirstNoTies`; `SearchCanMiss` is a
  tree on which it does). The comment above the function promises it without condition.
- **A flush is deferred while a request executes DATA** (C2 at the head of blk-flush.c) only under an I/O scheduler; the
  code says so, the comment does not (`KickDecides`). C3, the bound on the deferral, holds (`FlushHeldBackBriefly`).
- **The virtual time is pushed up so that an entity is eligible** exactly if the jump does not go past the wrap of 64 bits
  (`StoredTimeServesIff`; `WrapHoldsTimeBack`), because it is stored only if it is the larger number.
- **An inner group has its children's part of its weight in use, rounded up,** after every run that writes weights only to
  groups without children in use (`InUseInRatio`); writing the weight of an inner group rounds twice (`ReweighRoundsTwice`).
- **A request ends with an error only if a command that served it failed** does not hold: the status that an early
  completion of the flush request stores is never cleared. `ForeignErrorIff`: it fails exactly if the flush had no early
  completion and the last early completion of an earlier flush reported an error. `LeftOverErrorFails` is such a run,
  from every quiet state. The other half does hold: a request that ends without error was served only by flushes none
  of whose completions reported an error (`SuccessIsClean`), because the only other holder of a reference, the timeout
  walk of blk-mq.c:884-897, reports no error, so that after an early error the next completion is the last
  (`Orderly`) and nothing overwrites the stored status.
- **Debt is cleared** not exactly when the budget covers its scaled cost, but when it covers the scaled cost of one unit
  less, exclusively (`DebtClearedIff`; `TinyBudgetClearsDebt`), because both conversions round up.

## What the code relies on

- `__bfq_entity_update_weight_prio` keeps the sums exactly if the entity is counted, or nothing is pending, or the
  pending values change nothing (`UpdateConservesIff`); its callers see to that.
- It takes an entity away from the trees of its class exactly if the entity is on a tree and the class changes
  (`ClassChangeLeavesHomeIff`), and activating an entity that was left behind counts it twice
  (`StaleClassCountsTwice`). Over every run no entity is left behind (`WeightsConserved`).

## Model

| member | source | states |
|---|---|---|
| FlushProofs.KickKeeps | software/firemarshal/boards/default/linux/block/blk-flush.c:278-335 | issuing a flush keeps the list invariant, and afterwards waiting requests imply something in flight |
| FlushProofs.PlaceKeeps | software/firemarshal/boards/default/linux/block/blk-flush.c:176-210 | moving a request to the list of its next step keeps every list matched to its step |
| FlushProofs.PlaceCount | software/firemarshal/boards/default/linux/block/blk-flush.c:176-210 | a placed request gains exactly one place, every other id keeps its places |
| FlushProofs.CompleteKeeps | software/firemarshal/boards/default/linux/block/blk-flush.c:164-213 | completing steps keeps the invariant; the running queue is untouched |
| FlushProofs.CompleteCounts | software/firemarshal/boards/default/linux/block/blk-flush.c:164-213 | one place more for the request, no increase of the remaining steps |
| FlushProofs.LoggedIsPlaceable | software/firemarshal/boards/default/linux/block/blk-flush.c:116-119 | a served step is the next one in order and is recorded with a flush issued after the request joined |
| FlushProofs.DrainKeeps | software/firemarshal/boards/default/linux/block/blk-flush.c:253-259 | the walk over a finished flush empties its queue and keeps the invariant |
| FlushProofs.DrainCounts | software/firemarshal/boards/default/linux/block/blk-flush.c:253-259 | the walk loses no request and takes at least one step of each off the remaining work |
| FlushProofs.FlushEndKeeps | software/firemarshal/boards/default/linux/block/blk-flush.c:215-263 | a flush completion keeps the invariant, conserves requests and lowers the remaining work |
| FlushProofs.DataEndKeeps | software/firemarshal/boards/default/linux/block/blk-flush.c:337-359 | a data completion does the same |
| FlushProofs.InsertKeeps | software/firemarshal/boards/default/linux/block/blk-flush.c:370-430 | a new request keeps the invariant and occupies exactly one place |
| FlushProofs.RunKeeps | software/firemarshal/boards/default/linux/block/blk-flush.c:164-430 | every interleaving of insertions and completions keeps the invariant |
| FlushProofs.BugsNeverFire | software/firemarshal/boards/default/linux/block/blk-flush.c:172-257 | in every reachable state no BUG check has fired, and the two indexes differ exactly while a flush is in flight |
| FlushProofs.ListsMatchSteps | software/firemarshal/boards/default/linux/block/blk-flush.c:181-193 | queued requests wait for a flush step, data requests for DATA |
| FlushProofs.RunConserves | software/firemarshal/boards/default/linux/block/blk-flush.c:164-430 | places of an id plus its submissions are conserved by any run |
| FlushProofs.ExactlyOnePlace | software/firemarshal/boards/default/linux/block/blk-flush.c:164-430 | each submitted request is in exactly one place and is ended at most once |
| FlushProofs.Durability | software/firemarshal/boards/default/linux/block/blk-flush.c:99-430 | a request ended without error did exactly its policy steps, in order, each flush issued after it joined and finished on the device |
| FlushProofs.FuaReachesMedia | software/firemarshal/boards/default/linux/block/blk-flush.c:99-114 | data that must be durable is written before a flush that completes before the request ends |
| FlushProofs.PreflushPrecedesData | software/firemarshal/boards/default/linux/block/blk-flush.c:99-114 | the pre-flush completes before the data is issued |
| FlushProofs.NeverStuck | software/firemarshal/boards/default/linux/block/blk-flush.c:278-335 | an unfinished request implies a flush or data in flight |
| FlushProofs.CompletionLowersWork | software/firemarshal/boards/default/linux/block/blk-flush.c:164-359 | every completion strictly lowers the sum of remaining steps |
| FlushProofs.CompletionsBounded | software/firemarshal/boards/default/linux/block/blk-flush.c:164-359 | a run of completions alone is no longer than the remaining steps |
| FlushProofs.QuietMeansDone | software/firemarshal/boards/default/linux/block/blk-flush.c:164-359 | when no completion is possible any more every submitted request has ended or bypassed the queue, once |
| FlushProofs.DataEndTakesOne | software/firemarshal/boards/default/linux/block/blk-flush.c:337-359 | exactly the completed request leaves the list of data in flight |
| FlushPromises.RequestKnown | software/firemarshal/boards/default/linux/block/blk-flush.c:370-430 | over every run a request keeps the policy of its submission and joins no queue before it, and is in one place |
| FlushPromises.StepsAsAsked | software/firemarshal/boards/default/linux/block/blk-flush.c:99-114 | over every run a request that ends without error has done the steps that its flags and the flags of the queue ask for, in order, each properly served after the submission |
| FlushPromises.BypassIff | software/firemarshal/boards/default/linux/block/blk-flush.c:409-417 | a request bypasses the queue if and only if it has data and its flags and those of the queue ask for no flush |
| FlushPromises.ForcedWriteIsFlushed | software/firemarshal/boards/default/linux/block/blk-flush.c:109-111 | a FUA write on a device with a cache and without FUA never bypasses the queue, and if it ends without error a whole flush was issued after its data was written |
| FlushPromises.PreflushSeparates | software/firemarshal/boards/default/linux/block/blk-flush.c:106-108 | with a cache, a preflush puts a whole flush between the submission and the data |
| FlushPromises.NothingToFlush | software/firemarshal/boards/default/linux/block/blk-flush.c:392-417 | without a cache, or with nothing asked for, the request waits for no flush: it bypasses the queue, or has ended without any step if it has no data |
| FlushDeferral.KickDecides | software/firemarshal/boards/default/linux/block/blk-flush.c:287-299 | a flush that is waited for is issued if and only if no data is in flight, or there is no scheduler, or five seconds have passed since the queue began to fill |
| FlushDeferral.StepDefers | software/firemarshal/boards/default/linux/block/blk-flush.c:164-359 | after every event that considers a flush, a held-back one meets that condition, and its time is that of the event that made the queue fill |
| FlushDeferral.FlushHeldBackBriefly | software/firemarshal/boards/default/linux/block/blk-flush.c:42-49 | over every run, a flush waited for since some event and still held back at a later one has waited less than five seconds, with data in flight and under a scheduler |
| FlushLimits.NotSensibleBreaksDurability | software/firemarshal/boards/default/linux/block/blk-flush.c:12-16 | for every submission that breaks the rule of the header, a run that ends a request whose steps were not done |
| FlushErrors.StepEnds | software/firemarshal/boards/default/linux/block/blk-flush.c:215-236 | every step ends requests with an error exactly if it reported one itself or, for a flush, a stored status says so |
| FlushErrors.RunStatus | software/firemarshal/boards/default/linux/block/blk-flush.c:229-236 | after every run the stored status is what the last early completion reported, whichever flush it belonged to |
| FlushErrors.ForeignErrorIff | software/firemarshal/boards/default/linux/block/blk-flush.c:229-236 | a flush without an error of its own fails its requests if and only if it had no early completion and an earlier flush left an error |
| FlushErrors.ErrorFailsFlush | software/firemarshal/boards/default/linux/block/blk-flush.c:229-236 | if any completion of a flush reports an error, its last completion fails the requests it serves |
| FlushErrors.DeviceClean | software/firemarshal/boards/default/linux/block/blk-mq.c:884-897 | over every run, a flush that the code takes for successful had no completion that reported an error |
| FlushErrors.SuccessIsClean | software/firemarshal/boards/default/linux/block/blk-flush.c:215-263 | over every run, each flush step of a request that ends without error was served by a flush without any error |
| FlushErrors.LeftOverErrorFails | software/firemarshal/boards/default/linux/block/blk-flush.c:229-236 | from every quiet state, a run in which a request fails although no completion of its flush reported an error |
| FlushQueueObject.FlushQueue.constructor | software/firemarshal/boards/default/linux/block/blk-flush.c:476-505 | the empty queue, which satisfies the invariant |
| FlushQueueObject.FlushQueue.KickFlush | software/firemarshal/boards/default/linux/block/blk-flush.c:278-335 | a flush is issued or deferred; the list invariant is kept, and afterwards waiting requests imply something in flight |
| FlushQueueObject.FlushQueue.CompleteFlushSeq | software/firemarshal/boards/default/linux/block/blk-flush.c:164-213 | the request gains exactly one place, no step is added to the remaining ones, the list invariant is kept and something is in flight if anything waits |
| FlushQueueObject.FlushQueue.PushHead | software/firemarshal/boards/default/linux/block/blk-flush.c:254-259 | the first request leaves the served queue, no request is lost, less remains to be done, and the invariant of the walk is kept |
| FlushQueueObject.FlushQueue.WalkRequests | software/firemarshal/boards/default/linux/block/blk-flush.c:253-259 | the loop over a served queue equals the recursive walk |
| FlushQueueObject.FlushQueue.FlushEndIo | software/firemarshal/boards/default/linux/block/blk-flush.c:215-263 | a flush completion on the fields, keeping the invariant |
| FlushQueueObject.FlushQueue.DataEndIo | software/firemarshal/boards/default/linux/block/blk-flush.c:337-359 | a data completion on the fields, keeping the invariant |
| FlushQueueObject.FlushQueue.InsertFlush | software/firemarshal/boards/default/linux/block/blk-flush.c:370-430 | an insertion on the fields, keeping the invariant for sensible submissions; it bypasses exactly data that needs no flush |
| BadBlocksModel.PackRoundTrip | software/firemarshal/boards/default/linux/block/badblocks.c:29-34 | packing an entry into 64 bits and unpacking it gives it back |
| BadBlocksModel.BeforeSplits | software/firemarshal/boards/default/linux/block/badblocks.c:190-201 | in a sorted table the entries starting below a bound are a prefix |
| BadBlocksClear.ClearIsDifference | software/firemarshal/boards/default/linux/block/badblocks.c:331-423 | after clearing exactly the sectors outside the range remain, each with its acknowledgement |
| BadBlocksClear.ClearKeepsValid | software/firemarshal/boards/default/linux/block/badblocks.c:331-423 | clearing keeps the table sorted, disjoint and within the length limit |
| BadBlocksClear.InvertedClear | software/firemarshal/boards/default/linux/block/badblocks.c:338-349 | with start one past the end: no sector changes, and the table stays valid exactly if no entry straddles the edge |
| BadBlocksClear.StraddledSplit | software/firemarshal/boards/default/linux/block/badblocks.c:371-393 | a straddling entry is split into overlapping ones |
| BadBlocksSet.MergeLeftKeeps | software/firemarshal/boards/default/linux/block/badblocks.c:203-234 | merging into the entry below keeps old sectors plus the part still to add |
| BadBlocksSet.MergeRightKeeps | software/firemarshal/boards/default/linux/block/badblocks.c:235-264 | the same for merging into the entry above |
| BadBlocksSet.MergedIsStaged | software/firemarshal/boards/default/linux/block/badblocks.c:203-264 | both merges from any table and range |
| BadBlocksSet.CombineJoins | software/firemarshal/boards/default/linux/block/badblocks.c:265-282 | joining two entries is the union exactly if the gap behind the second was bad |
| BadBlocksSet.FillKeepsGoal | software/firemarshal/boards/default/linux/block/badblocks.c:283-304 | every insertion moves sectors from the part to add into the table |
| BadBlocksSet.FillOnePiece | software/firemarshal/boards/default/linux/block/badblocks.c:283-304 | one inserted piece leaves a valid table exactly if it ends before the next entry |
| BadBlocksSet.FillManyPieces | software/firemarshal/boards/default/linux/block/badblocks.c:283-304 | more than one piece never leaves a valid table |
| BadBlocksTheorems.ExactIsSafe | software/firemarshal/boards/default/linux/block/badblocks.c:203-304 | the condition on table and range agrees with the state after the merges |
| BadBlocksTheorems.SetIsUnionIff | software/firemarshal/boards/default/linux/block/badblocks.c:163-313 | a 0 return leaves a valid table of exactly the union if and only if the condition holds |
| BadBlocksTheorems.SetSortedIff | software/firemarshal/boards/default/linux/block/badblocks.c:163-313 | a 0 return leaves a well-formed table if and only if a condition on table and range holds |
| BadBlocksTheorems.SmallSetIsUnion | software/firemarshal/boards/default/linux/block/badblocks.c:163-313 | it holds for at most 512 sectors with no entry starting strictly inside |
| BadBlocksTheorems.NestedEntryLosesSectors | software/firemarshal/boards/default/linux/block/badblocks.c:265-282 | a table and a range for which new sectors are lost |
| BadBlocksTheorems.LongRangeIsUnsorted | software/firemarshal/boards/default/linux/block/badblocks.c:283-304 | 600 sectors set in an empty table leave it unsorted |
| BadBlocksFull.FillStops | software/firemarshal/boards/default/linux/block/badblocks.c:283-304 | a failing insertion loop puts one full piece into each free place and stops there |
| BadBlocksFull.FullTableHolds | software/firemarshal/boards/default/linux/block/badblocks.c:163-313 | after a return of 1: exactly the old and new sectors, but for those from the stop to the end that no later entry has |
| BadBlocksFull.FullTableLoses | software/firemarshal/boards/default/linux/block/badblocks.c:283-304 | for every return of 1 nothing foreign is added, and old sectors survive if and only if no tail was pushed out past the free places |
| BadBlocksFull.FullTableSorted | software/firemarshal/boards/default/linux/block/badblocks.c:283-304 | for every return of 1 the table is well formed if and only if at most one piece went in and ends before the next entry |
| BadBlocksFull.FullTableDropsTail | software/firemarshal/boards/default/linux/block/badblocks.c:235-264 | an instance in which they do not survive |
| BadBlocksAck.FillAcks | software/firemarshal/boards/default/linux/block/badblocks.c:283-304 | the insertion loop acknowledges exactly what it inserts, and that only for an acknowledged range |
| BadBlocksAck.UnackedSetAcksNothing | software/firemarshal/boards/default/linux/block/badblocks.c:185-306 | setting an unacknowledged range acknowledges no sector, so every sector it makes bad is unacknowledged |
| BadBlocksAck.AckedOutsideIff | software/firemarshal/boards/default/linux/block/badblocks.c:235-304 | setting an acknowledged range acknowledges a sector outside it if and only if the sector is in the cut tail of the next entry |
| BadBlocksAck.TailIsAcknowledged | software/firemarshal/boards/default/linux/block/badblocks.c:235-304 | a family of calls that acknowledge sectors outside their range |
| BadBlocksAck.RangeAcknowledged | software/firemarshal/boards/default/linux/block/badblocks.c:203-283 | setting the sectors of an entry once more acknowledges it, unless it joins an unacknowledged neighbour |
| BadBlocksTable.OutwardBlocks | software/firemarshal/boards/default/linux/block/badblocks.c:63-69 | rounding outwards selects exactly the blocks sharing a sector with the range |
| BadBlocksTable.InwardBlocks | software/firemarshal/boards/default/linux/block/badblocks.c:338-349 | rounding inwards selects exactly the blocks lying wholly in the range |
| BadBlocksTable.InwardInversion | software/firemarshal/boards/default/linux/block/badblocks.c:338-349 | inward rounding inverts a range by at most one block |
| BadBlocksTable.InversionIff | software/firemarshal/boards/default/linux/block/badblocks.c:338-349 | it inverts exactly the ranges strictly inside one block |
| BadBlocksTable.ClearSplitsEntry | software/firemarshal/boards/default/linux/block/badblocks.c:338-393 | clearing sectors 9 to 11 in blocks of eight leaves two overlapping entries |
| BadBlocksTable.ScanReports | software/firemarshal/boards/default/linux/block/badblocks.c:53-125 | the scan answers 0, 1 or -1 exactly as no entry meets the range, all that do are acknowledged, or one is not, and reports the lowest |
| BadBlocksTable.ScanSectors | software/firemarshal/boards/default/linux/block/badblocks.c:53-125 | 0 is answered exactly if no sector of the range is bad |
| BadBlocksTable.SetKeepsAcked | software/firemarshal/boards/default/linux/block/badblocks.c:163-313 | an acknowledged set keeps an all-acknowledged table so |
| BadBlocksTable.BadBlocks.constructor | software/firemarshal/boards/default/linux/block/badblocks.c:544-566 | an empty table, tracking sectors or switched off |
| BadBlocksTable.BadBlocks.Search | software/firemarshal/boards/default/linux/block/badblocks.c:187-201 | bisection finds the last entry starting below the bound |
| BadBlocksTable.BadBlocks.Check | software/firemarshal/boards/default/linux/block/badblocks.c:53-125 | bisection and downward walk equal the linear scan |
| BadBlocksTable.BadBlocks.WalkDown | software/firemarshal/boards/default/linux/block/badblocks.c:394-408 | walks down over exactly the entries inside the range |
| BadBlocksTable.BadBlocks.DropBack | software/firemarshal/boards/default/linux/block/badblocks.c:394-415 | entries ending before the target are cut or dropped as set difference demands |
| BadBlocksTable.BadBlocks.KeepTail | software/firemarshal/boards/default/linux/block/badblocks.c:371-393 | the part above the target survives, by splitting if needed |
| BadBlocksTable.BadBlocks.ClearBlocks | software/firemarshal/boards/default/linux/block/badblocks.c:353-416 | the array after clearing is the pure difference, or unchanged with -ENOSPC exactly if a split is needed and the table is full |
| BadBlocksTable.BadBlocks.Clear | software/firemarshal/boards/default/linux/block/badblocks.c:331-423 | clearing a sector range, with rounding, flags and the error return; the table stays well formed exactly if refused, not inverted, or nothing straddles |
| BadBlocksTable.BadBlocks.UpdateAcked | software/firemarshal/boards/default/linux/block/badblocks.c:128-146 | the flag falls exactly if every entry is acknowledged |
| BadBlocksTable.BadBlocks.AckAll | software/firemarshal/boards/default/linux/block/badblocks.c:433-455 | all entries acknowledged unless changes are pending; every start and length and the sectors stay |
| BadBlocksTable.BadBlocks.ExtendLeft | software/firemarshal/boards/default/linux/block/badblocks.c:203-234 | the merge into the entry below, in place |
| BadBlocksTable.BadBlocks.ExtendRight | software/firemarshal/boards/default/linux/block/badblocks.c:235-264 | the merge into the entry above, in place |
| BadBlocksTable.BadBlocks.JoinAt | software/firemarshal/boards/default/linux/block/badblocks.c:265-282 | the combine step, in place |
| BadBlocksTable.BadBlocks.FillAt | software/firemarshal/boards/default/linux/block/badblocks.c:283-304 | the insertion loop, in place |
| BadBlocksTable.BadBlocks.SetBlocks | software/firemarshal/boards/default/linux/block/badblocks.c:187-304 | the array after the whole set is the pure result |
| BadBlocksTable.BadBlocks.Set | software/firemarshal/boards/default/linux/block/badblocks.c:163-313 | setting a sector range, with rounding and flags; the union under its condition, and for either return exactly when the table is well formed; an unacknowledged set acknowledges nothing; no change if switched off |
| BfqTree.GtIsOrder | software/firemarshal/boards/default/linux/block/bfq-wf2q.c:18-21 | within half the range the wrapping comparison is a total order |
| BfqTree.MinIsLeast | software/firemarshal/boards/default/linux/block/bfq-wf2q.c:403-429 | the value a node is refreshed to is the start of an entity below it, and none starts earlier |
| BfqTree.MinTellsEligible | software/firemarshal/boards/default/linux/block/bfq-wf2q.c:403-429 | that minimum is not after the time exactly if the subtree holds an eligible entity |
| BfqTree.LeftmostIsFirst | software/firemarshal/boards/default/linux/block/bfq-wf2q.c:1346-1384 | the first eligible entity of the tree is that of its sequence |
| BfqTree.SearchFinds | software/firemarshal/boards/default/linux/block/bfq-wf2q.c:1346-1384 | the search finds an eligible entity of the tree if and only if there is one |
| BfqTree.SearchIsLeftmostIff | software/firemarshal/boards/default/linux/block/bfq-wf2q.c:1346-1384 | it finds the first one if and only if the path there is straight |
| BfqTree.SearchFinishesFirst | software/firemarshal/boards/default/linux/block/bfq-wf2q.c:1346-1384 | if starts come in the order of finishes it finds a least finish time |
| BfqTree.SearchFinishesFirstIff | software/firemarshal/boards/default/linux/block/bfq-wf2q.c:1346-1384 | for all ordered trees, ties included, it finds a least finish time if and only if the path to the first eligible entity turns right only below entities that are not eligible or finish at the same time |
| BfqTree.SearchFinishesFirstNoTies | software/firemarshal/boards/default/linux/block/bfq-wf2q.c:1346-1384 | without ties that is if and only if the path is straight |
| BfqTree.SearchCanMiss | software/firemarshal/boards/default/linux/block/bfq-wf2q.c:1376-1380 | a red-black shaped tree on which it does not |
| BfqTree.JumpYieldsEntity | software/firemarshal/boards/default/linux/block/bfq-wf2q.c:1328-1336 | after the jump a non-empty tree yields an eligible entity; no jump happens when one is eligible |
| BfqTree.JumpIsLeast | software/firemarshal/boards/default/linux/block/bfq-wf2q.c:1328-1336 | no earlier time would make an entity eligible |
| BfqTree.StoredTimeServesIff | software/firemarshal/boards/default/linux/block/bfq-wf2q.c:1338-1344 | the time stored after a jump makes an entity eligible if and only if the jump does not go past the wrap |
| BfqTree.WrapHoldsTimeBack | software/firemarshal/boards/default/linux/block/bfq-wf2q.c:1338-1344 | an input on which the stored time stays behind |
| BfqTree.InsertLands | software/firemarshal/boards/default/linux/block/bfq-wf2q.c:371-391 | insertion adds exactly the entity at one position of the sequence |
| BfqTree.InsertKeepsOrder | software/firemarshal/boards/default/linux/block/bfq-wf2q.c:371-391 | that position is after all that finish no later and before all that finish later |
| BfqTree.InsertSorted | software/firemarshal/boards/default/linux/block/bfq-wf2q.c:371-391 | insertion keeps the tree ordered by finish time |
| BfqHeap.Node.UpdateMin | software/firemarshal/boards/default/linux/block/bfq-wf2q.c:403-412 | one child is folded into the minimum |
| BfqHeap.Node.UpdateActiveNode | software/firemarshal/boards/default/linux/block/bfq-wf2q.c:422-429 | with correct children the node becomes correct |
| BfqHeap.UpdateSibling | software/firemarshal/boards/default/linux/block/bfq-wf2q.c:452-455 | the sibling becomes correct and nothing else is disturbed |
| BfqHeap.UpdateActiveTree | software/firemarshal/boards/default/linux/block/bfq-wf2q.c:441-459 | if minima are wrong only on the path to the root and on siblings of the path, all are right afterwards |
| BfqHeap.Unplug | software/firemarshal/boards/default/linux/block/bfq-wf2q.c:377-385 | a linked tree gives a linked path to any of its places |
| BfqHeap.ServiceTree.Link | software/firemarshal/boards/default/linux/block/bfq-wf2q.c:387 | a node linked as leaf leaves all other links right |
| BfqHeap.ServiceTree.InsertEntity | software/firemarshal/boards/default/linux/block/bfq-wf2q.c:377-387 | the walk and the link produce the inserted tree, properly linked |
| BfqHeap.RotatedSiblings | software/firemarshal/boards/default/linux/block/bfq-wf2q.c:431-440 | a single or double rotation anywhere on the path leaves minima wrong only on the path and its siblings |
| BfqHeap.RotatedOrder | software/firemarshal/boards/default/linux/block/bfq-wf2q.c:388 | such rotations keep the entities in order |
| BfqHeap.RotatedLeaf | software/firemarshal/boards/default/linux/block/bfq-wf2q.c:485-488 | after a double rotation around the new leaf itself the refresh starts at its left child, and minima are wrong only on that path and its siblings; the entities stay in order, from either side |
| BfqHeap.RebalancedReady | software/firemarshal/boards/default/linux/block/bfq-wf2q.c:431-440 | a new leaf and any rotation above it give what the refresh requires |
| BfqHeap.ServiceTree.RefreshInserted | software/firemarshal/boards/default/linux/block/bfq-wf2q.c:485-490 | for any relinked tree with the right order and minima wrong only on the path and its siblings, the refresh from the chosen node makes every minimum right |
| BfqHeap.ServiceTree.ActiveInsert | software/firemarshal/boards/default/linux/block/bfq-wf2q.c:472-490 | insertion and refresh leave a linked tree with the entity added and every minimum right |
| BfqExtract.VacatedOrder | software/firemarshal/boards/default/linux/block/bfq-wf2q.c:330-334 | taking a node out removes exactly its entity from the sequence |
| BfqExtract.VacatedCorrect | software/firemarshal/boards/default/linux/block/bfq-wf2q.c:550-569 | off the path from the place that lost a node every minimum stays right |
| BfqExtract.LiftedSiblings | software/firemarshal/boards/default/linux/block/bfq-wf2q.c:431-440 | lifting a sibling anywhere on that path leaves every minimum off it right |
| BfqExtract.LiftedNephew | software/firemarshal/boards/default/linux/block/bfq-wf2q.c:431-440 | lifting a nephew leaves wrong minima only on the path and on siblings of it |
| BfqExtract.LiftedOrder | software/firemarshal/boards/default/linux/block/bfq-wf2q.c:330-334 | such rotations keep the entities in order |
| BfqExtract.RemovedReady | software/firemarshal/boards/default/linux/block/bfq-wf2q.c:540-569 | after a removal and any rebalancing, minima are wrong only on the path from the node found beforehand and on siblings of it, and exactly the entity is gone |
| BfqExtract.FindDeepest | software/firemarshal/boards/default/linux/block/bfq-wf2q.c:550-569 | the node found before the removal is the root of the place where the refresh has to start afterwards |
| BfqExtract.RefreshExtracted | software/firemarshal/boards/default/linux/block/bfq-wf2q.c:590-591 | for any tree that rebalancing leaves, the refresh from that node makes every minimum right |
| BfqExtract.Erase | software/firemarshal/boards/default/linux/block/bfq-wf2q.c:330-334 | a node with no, one or two children is taken out and all links stay right |
| BfqExtract.ActiveExtract | software/firemarshal/boards/default/linux/block/bfq-wf2q.c:576-591 | removal and refresh leave a linked, ordered tree with exactly the entity gone and every minimum right |
| BfqExtract.Perform | software/firemarshal/boards/default/linux/block/bfq-wf2q.c:472-591 | every run of insertions and removals keeps the tree linked, ordered, with every minimum right, and holding exactly what was put and not taken |
| BfqHeap.ServiceTree.FirstActiveEntity | software/firemarshal/boards/default/linux/block/bfq-wf2q.c:1358-1384 | the loop steered by stored minima returns what the search on the tree returns |
| BfqHeap.ServiceTree.CalcVtimeJump | software/firemarshal/boards/default/linux/block/bfq-wf2q.c:1328-1336 | the time jumped to, from the root alone |
| BfqHeap.ServiceTree.LookupNextEntity | software/firemarshal/boards/default/linux/block/bfq-wf2q.c:1408-1439 | an entity is returned exactly if the tree is not empty, it is eligible at the time jumped to, and the time is stored only if nothing is in service and it did not wrap |
| BfqWeights.HeldUpdate | software/firemarshal/boards/default/linux/block/bfq-wf2q.c:644-651 | changing one entity changes the held weight by the change of its share |
| BfqWeightsProofs.UpdateConservesIff | software/firemarshal/boards/default/linux/block/bfq-wf2q.c:725-819 | applying a pending weight or class moves the sums with the entity if and only if it is counted, or nothing is pending or changes |
| BfqWeightsProofs.UpdateOffTreeDrifts | software/firemarshal/boards/default/linux/block/bfq-wf2q.c:725-819 | otherwise the sum is off by the difference of the weights |
| BfqWeightsProofs.AdmitConservesIff | software/firemarshal/boards/default/linux/block/bfq-wf2q.c:986-1012 | activation keeps the sums if and only if the entity is on the idle tree of its class or not counted |
| BfqWeightsProofs.StaleClassCountsTwice | software/firemarshal/boards/default/linux/block/bfq-wf2q.c:986-1012 | an entity on the idle tree of a former class is counted twice |
| BfqWeightsProofs.EnqueueKeeps | software/firemarshal/boards/default/linux/block/bfq-wf2q.c:900-957 | re-weighing and insertion keep the sums, also when the class changes |
| BfqWeightsProofs.ActivateKeeps | software/firemarshal/boards/default/linux/block/bfq-wf2q.c:972-1026 | activation, from the idle tree or from none |
| BfqWeightsProofs.RequeueKeeps | software/firemarshal/boards/default/linux/block/bfq-wf2q.c:1044-1108 | requeueing, in service or on the active tree |
| BfqWeightsProofs.DeactivateKeeps | software/firemarshal/boards/default/linux/block/bfq-wf2q.c:1170-1215 | deactivation, forgotten or put on the idle tree |
| BfqWeightsProofs.PutIdleKeeps | software/firemarshal/boards/default/linux/block/bfq-wf2q.c:667-672 | an entity dropped from the idle tree |
| BfqWeightsProofs.ApplyKeeps | software/firemarshal/boards/default/linux/block/bfq-wf2q.c:644-1215 | every step keeps the sums exact and the marks right |
| BfqWeightsProofs.WeightsConserved | software/firemarshal/boards/default/linux/block/bfq-wf2q.c:644-1215 | after every run each class sum is the weight of the entities on the trees of that class and in service, an entity is counted exactly then, and is only on trees of its own class |
| BfqTimes.FinishedTakes | software/firemarshal/boards/default/linux/block/bfq-wf2q.c:278-294 | from start to finish is the service times 2^22 divided by the weight, rounded down |
| BfqTimes.BackshiftMoves | software/firemarshal/boards/default/linux/block/bfq-wf2q.c:946-954 | an entity that would finish in the past is moved as a whole by the gap divided by its raising factor, and not past the present |
| BfqTimes.BackshiftReaches | software/firemarshal/boards/default/linux/block/bfq-wf2q.c:946-954 | without raising it then finishes right now |
| BfqTimes.EnqueueTakes | software/firemarshal/boards/default/linux/block/bfq-wf2q.c:900-957 | however an entity is enqueued, its span is what its budget takes at its weight |
| BfqTimes.EnqueueStart | software/firemarshal/boards/default/linux/block/bfq-wf2q.c:900-957 | it starts where it was, or at the time of its new class, moved if backshifted |
| BfqTimes.ActivateTakes | software/firemarshal/boards/default/linux/block/bfq-wf2q.c:972-1026 | the span of every activated entity |
| BfqTimes.RequeueTakes | software/firemarshal/boards/default/linux/block/bfq-wf2q.c:1044-1108 | the span of every requeued entity |
| BfqTimes.HeavierNotLonger | software/firemarshal/boards/default/linux/block/bfq-wf2q.c:278-294 | for equal budgets the heavier entity never has the longer span |
| BfqTimes.ActivateStart | software/firemarshal/boards/default/linux/block/bfq-wf2q.c:972-1012 | an activated entity starts at the present or, if remembered, where it last finished, whichever is later; a backshifted one where it last finished, moved by what its raising factor allows |
| BfqTimes.RequeueStart | software/firemarshal/boards/default/linux/block/bfq-wf2q.c:1044-1108 | the entity in service is requeued from where its service ended, another from where it started |
| BfqTimes.DeactivateCharges | software/firemarshal/boards/default/linux/block/bfq-wf2q.c:1170-1215 | an entity that leaves finishes after the service it received, and is remembered if and only if that is allowed and still to come |
| BfqTimes.ServedEntity | software/firemarshal/boards/default/linux/block/bfq-wf2q.c:1557-1572 | an entity taken into service is off its tree if and only if it is no longer a candidate |
| BfqTimes.RepricedMeans | software/firemarshal/boards/default/linux/block/bfq-wf2q.c:725-819 | the applied weight is the pending one brought into 1 to 1000, times the raising factor; the class is applied only where that is safe |
| BfqLevelObject.SchedData.constructor | software/firemarshal/boards/default/linux/block/bfq-cgroup.c:1440-1441 | no entity on a tree, all sums zero, objects and model together |
| BfqLevelObject.SchedData.SumIsLinkedWeight | software/firemarshal/boards/default/linux/block/bfq-wf2q.c:644-1215 | in memory each class sum is the weight of the entities held by its two roots and the one in service, and the roots hold only entities of the level |
| BfqLevelObject.SchedData.ActivateEntity | software/firemarshal/boards/default/linux/block/bfq-wf2q.c:972-1026 | activation on objects and tree pointers keeps memory and model together and the sums exact, and gives the entity the span that its budget takes at its weight |
| BfqLevelObject.SchedData.RequeueEntity | software/firemarshal/boards/default/linux/block/bfq-wf2q.c:1044-1108 | the same, for requeueing |
| BfqLevelObject.SchedData.ActivateOrRequeue | software/firemarshal/boards/default/linux/block/bfq-wf2q.c:1110-1129 | the choice by tree pointer is the choice of the model |
| BfqLevelObject.SchedData.PutIdleEntity | software/firemarshal/boards/default/linux/block/bfq-wf2q.c:667-672 | an entity removed from whichever idle tree it is on leaves the sum of its class exact |
| BfqLevelObject.SchedData.DeactivateEntity | software/firemarshal/boards/default/linux/block/bfq-wf2q.c:1170-1215 | the same, for deactivation, with its return value and the span that its service takes |
| BfqLevelObject.SchedData.SetInServiceEntity | software/firemarshal/boards/default/linux/block/bfq-wf2q.c:1557-1572 | the same, for starting service; the entity is off its tree exactly if asked for |
| IoCostProofs.ShiftKeeps | software/firemarshal/boards/default/linux/block/blk-iocost.c:905-910 | changing one group and its parent sums keeps the sums exact and inuse within active |
| IoCostProofs.WalkKeeps | software/firemarshal/boards/default/linux/block/blk-iocost.c:891-934 | the upward walk with early exit keeps the whole tree consistent |
| IoCostProofs.ActivateKeeps | software/firemarshal/boards/default/linux/block/blk-iocost.c:1024-1111 | activation keeps it |
| IoCostProofs.DeactivateKeeps | software/firemarshal/boards/default/linux/block/blk-iocost.c:1382-1387 | deactivation keeps it |
| IoCostProofs.DonateKeeps | software/firemarshal/boards/default/linux/block/blk-iocost.c:1478-1525 | a change of inuse keeps it |
| IoCostProofs.ReweighKeeps | software/firemarshal/boards/default/linux/block/blk-iocost.c:1008-1022 | a change of weight keeps it |
| IoCostTheorems.ApplyGood | software/firemarshal/boards/default/linux/block/blk-iocost.c:891-1111 | every step keeps the tree consistent and the caches true |
| IoCostTheorems.ReachableGood | software/firemarshal/boards/default/linux/block/blk-iocost.c:891-1111 | so does every run from unused groups |
| IoCostTheorems.HierarchyConsistent | software/firemarshal/boards/default/linux/block/blk-iocost.c:891-934 | after every run both child sums are the sums over the children, inuse is within active, and a group is active exactly if listed or above an active one |
| IoCostTheorems.CacheAgrees | software/firemarshal/boards/default/linux/block/blk-iocost.c:936-1006 | with no update pending, a cached share of the current generation equals a fresh walk |
| IoCostTheorems.ChildrenShareParent | software/firemarshal/boards/default/linux/block/blk-iocost.c:954-1000 | the shares of the children of a group total at most its share |
| IoCostTheorems.LeavesBelow | software/firemarshal/boards/default/linux/block/blk-iocost.c:954-1000 | the shares of the active leaves below a group total at most its share |
| IoCostTheorems.SharesFitTheWhole | software/firemarshal/boards/default/linux/block/blk-iocost.c:954-1000 | over any reachable hierarchy the shares of all active leaves total at most the whole, for both weights |
| IoCostTheorems.ChildrenCoverParent | software/firemarshal/boards/default/linux/block/blk-iocost.c:954-1000 | the shares of the children of a group in use are less than their number short of its share |
| IoCostTheorems.LeavesCover | software/firemarshal/boards/default/linux/block/blk-iocost.c:954-1000 | the leaves below a group in use lose less than one unit each of its share |
| IoCostTheorems.SharesFillTheWhole | software/firemarshal/boards/default/linux/block/blk-iocost.c:978-1000 | over any reachable hierarchy with a listed group, the shares of all listed groups and their number together exceed the whole, 65536, for both weights |
| IoCostTheorems.SoleGroupHasAll | software/firemarshal/boards/default/linux/block/blk-iocost.c:978-1000 | a group that alone issues IO has share 65536, however deep it lies |
| IoCostTheorems.InUseInRatio | software/firemarshal/boards/default/linux/block/blk-iocost.c:912-922 | after every run that writes no weight of an inner group in use, what an inner group has in use is the part of its children, rounded up |
| IoCostTheorems.ReweighRoundsTwice | software/firemarshal/boards/default/linux/block/blk-iocost.c:1008-1022 | writing the weight of an inner group can leave one unit too much in use |
| IoCostTheorems.StopStartRestores | software/firemarshal/boards/default/linux/block/blk-iocost.c:1024-1111 | a group that stops and starts again has in use what it had |
| IoCostTheorems.FirstStartUsesAll | software/firemarshal/boards/default/linux/block/blk-iocost.c:1024-1111 | a group that starts for the first time has all of its weight in use |
| IoCostTheorems.DonateLeaves | software/firemarshal/boards/default/linux/block/blk-iocost.c:1478-1525 | a donation leaves in use what was asked for, but never more than the weight |
| IoCostTheorems.ReweighScales | software/firemarshal/boards/default/linux/block/blk-iocost.c:1008-1022 | a new weight keeps the part in use of a group, rounded up |
| IoCostController.Controller.constructor | software/firemarshal/boards/default/linux/block/blk-iocost.c:1987-2021 | groups that no bio has activated yet |
| IoCostController.Controller.PropagateActiveWeight | software/firemarshal/boards/default/linux/block/blk-iocost.c:891-934 | the loop on the fields is the recursive walk |
| IoCostController.Controller.CommitActiveWeights | software/firemarshal/boards/default/linux/block/blk-iocost.c:936-946 | nothing is pending afterwards, caches stay true, and a change that was pending makes every cached share out of date |
| IoCostController.Controller.CurrentHweight | software/firemarshal/boards/default/linux/block/blk-iocost.c:954-1006 | the loop from the root returns the cached or freshly walked share |
| IoCostController.Controller.FindListedAncestor | software/firemarshal/boards/default/linux/block/blk-iocost.c:1058-1062 | the loop finds whether an ancestor is active |
| IoCostController.Controller.ActivateGroup | software/firemarshal/boards/default/linux/block/blk-iocost.c:1024-1111 | activation on the fields, refused above or below an active group, keeping the invariant |
| IoCostController.Controller.DeactivateGroup | software/firemarshal/boards/default/linux/block/blk-iocost.c:1382-1387 | deactivation on the fields |
| IoCostController.Controller.WeightUpdated | software/firemarshal/boards/default/linux/block/blk-iocost.c:1008-1022 | a weight change on the fields |
| IoCostBudget.CostCovers | software/firemarshal/boards/default/linux/block/blk-iocost.c:656-659 | the scaled cost is the least number covering the cost at this share |
| IoCostBudget.AbsCostCovers | software/firemarshal/boards/default/linux/block/blk-iocost.c:664-667 | the same for the conversion back |
| IoCostBudget.ScaleRoundTrip | software/firemarshal/boards/default/linux/block/blk-iocost.c:656-667 | converting there and back never loses and gains at most one |
| IoCostBudget.LongestPrefix | software/firemarshal/boards/default/linux/block/blk-iocost.c:1113-1137 | a prefix of waiters is woken if and only if its total cost fits the budget |
| IoCostBudget.FittingFits | software/firemarshal/boards/default/linux/block/blk-iocost.c:1113-1137 | what is woken fits, and nothing is woken on a negative budget |
| IoCostBudget.DebtShrinks | software/firemarshal/boards/default/linux/block/blk-iocost.c:1139-1179 | debt never grows and never turns negative |
| IoCostBudget.DebtBlocksWaking | software/firemarshal/boards/default/linux/block/blk-iocost.c:1139-1179 | nobody is woken while debt remains |
| IoCostBudget.CoveredDebtIsCleared | software/firemarshal/boards/default/linux/block/blk-iocost.c:1139-1179 | a budget covering the scaled debt clears it |
| IoCostBudget.DebtClearedIff | software/firemarshal/boards/default/linux/block/blk-iocost.c:1139-1179 | exactly when debt is cleared |
| IoCostBudget.TinyBudgetClearsDebt | software/firemarshal/boards/default/linux/block/blk-iocost.c:1139-1179 | a budget of one clears a debt whose scaled cost is 65536 |
| IoCostBudget.VtimeBounded | software/firemarshal/boards/default/linux/block/blk-iocost.c:1139-1179 | the group time never passes the current time and advances by what was paid and charged |
| IoCostBudget.ScaledDebtFalls | software/firemarshal/boards/default/linux/block/blk-iocost.c:1154-1167 | what is paid off comes off the scaled debt as well |
| IoCostBudget.DebtPaidExactly | software/firemarshal/boards/default/linux/block/blk-iocost.c:1154-1167 | a kick pays all of the budget but no more than the debt costs, and the remaining debt is what was not paid for, to the unit |
| IoCostBudget.WokenInOrder | software/firemarshal/boards/default/linux/block/blk-iocost.c:1113-1137 | the woken are the first waiters in order of arrival, each charged the least that covers its cost |
| IoCostBudget.NextKickWakes | software/firemarshal/boards/default/linux/block/blk-iocost.c:1173-1182 | once virtual time has advanced by the shortage, the next kick wakes the first waiter |
| IoCostBudget.TimerSuffices | software/firemarshal/boards/default/linux/block/blk-iocost.c:1181-1194 | whether newly set or left as it was, the timer is late enough for the next kick to wake a waiter |
| IoCostBudget.NoEarlierWake | software/firemarshal/boards/default/linux/block/blk-iocost.c:1173-1182 | before virtual time has advanced by the shortage nobody is woken, if the budget covered the debt |
| IoCostBudget.TimerPrompt | software/firemarshal/boards/default/linux/block/blk-iocost.c:1181-1194 | any instant earlier than the timer by more than half the margin is too early for the first waiter |
| IoCostBudget.WaitQueue.WakeUp | software/firemarshal/boards/default/linux/block/blk-iocost.c:1113-1137 | the queue walk wakes the longest fitting prefix, charges each waiter, and returns what the next one lacks |
| IoCostBudget.WaitQueue.KickWaitq | software/firemarshal/boards/default/linux/block/blk-iocost.c:1139-1195 | debt first, paid exactly, then waking with what is left, then the timer for the first that still waits |
| Submit.MakeRequest | software/firemarshal/boards/default/linux/block/blk-core.c:1072-1077 | the driver call queues exactly the accepted children, in order, and refuses the others |
| Submit.Partition | software/firemarshal/boards/default/linux/block/blk-core.c:1079-1088 | children are split into other queues and the same queue so that the two parts merge back into the list in its order |
| Submit.AcceptedMerge | software/firemarshal/boards/default/linux/block/blk-core.c:1079-1088 | sorting loses no order: the two parts can be merged back |
| Submit.HandleOne | software/firemarshal/boards/default/linux/block/blk-core.c:1064-1100 | one round of the loop: what it does plus the visit of what waits is the visit before |
| Submit.GenericMakeRequest | software/firemarshal/boards/default/linux/block/blk-core.c:1042-1102 | the loop logs exactly the recursive depth-first visit |
| Submit.HandledExactlyOnce | software/firemarshal/boards/default/linux/block/blk-core.c:1042-1102 | every bio of the tree is handled or refused exactly once |
| SubmitOrder.SiblingsInOrder | software/firemarshal/boards/default/linux/block/blk-core.c:1072-1094 | in the log, all that a child sets off comes before all that a later child of the same bio sets off: refused ones first, then those for other queues, then those for the same queue, each in the order of submission |
| SubmitOrder.ParentFirst | software/firemarshal/boards/default/linux/block/blk-core.c:1064-1077 | a bio is handled before all that its children set off |
| SubmitOrder.Outcome | software/firemarshal/boards/default/linux/block/blk-core.c:1042-1102 | each bio is refused, failed or made as its checks and its queue say |
| BioChainProofs.ArriveWaits | software/firemarshal/boards/default/linux/block/bio.c:1355-1373 | an arrival that is not the last keeps all counts |
| BioChainProofs.ArriveEnds | software/firemarshal/boards/default/linux/block/bio.c:305-313 | the last arrival passes the status up and becomes an arrival at the parent |
| BioChainProofs.EndIoKeeps | software/firemarshal/boards/default/linux/block/bio.c:1388-1423 | the climb keeps the invariant |
| BioChainProofs.ChainKeeps | software/firemarshal/boards/default/linux/block/bio.c:331-339 | chaining keeps it |
| BioChainProofs.RunKeeps | software/firemarshal/boards/default/linux/block/bio.c:305-339 | every run keeps it |
| BioChainProofs.EndsAtMostOnce | software/firemarshal/boards/default/linux/block/bio.c:1388-1423 | no bio ends twice, and the counter check never fires |
| BioChainProofs.CountIsExact | software/firemarshal/boards/default/linux/block/bio.c:1355-1373 | the remaining count is its own completion if pending plus its unfinished children |
| BioChainProofs.EndsAfterChildren | software/firemarshal/boards/default/linux/block/bio.c:305-339 | a bio ends after its completion and after every bio chained to it |
| BioChainProofs.ErrorsRise | software/firemarshal/boards/default/linux/block/bio.c:305-313 | an error anywhere below reaches the ended bio |
| BioChainProofs.ErrorsHaveSource | software/firemarshal/boards/default/linux/block/bio.c:305-313 | an error status was reported by some bio below |
| BioChainProofs.ErrorExactlyWhenReported | software/firemarshal/boards/default/linux/block/bio.c:305-313 | an ended bio has an error if and only if one below it reported one |
| BioChainProofs.StatusIsFirstError | software/firemarshal/boards/default/linux/block/bio.c:305-313 | the status of a bio is the error of its own completion, and without one that of the first child to end with an error |
| BioChainProofs.AllEnd | software/firemarshal/boards/default/linux/block/bio.c:1388-1423 | once every completion has happened every bio of an acyclic forest has ended |
| BioPoolObject.BioPool.New | software/firemarshal/boards/default/linux/block/bio.c:271-280 | a fresh bio with its completion pending |
| BioPoolObject.BioPool.ChainTo | software/firemarshal/boards/default/linux/block/bio.c:331-339 | chaining on the fields |
| BioPoolObject.BioPool.RemainingDone | software/firemarshal/boards/default/linux/block/bio.c:1355-1373 | the counter step on the fields |
| BioPoolObject.BioPool.BioEndIo | software/firemarshal/boards/default/linux/block/bio.c:1388-1423 | the loop up the chain is the recursive climb, keeping the invariant |
| BioPoolObject.BioPool.CompleteBio | software/firemarshal/boards/default/linux/block/bio.c:1388-1423 | a completion with a status |
| Crc16.Crc16Round | fpga/src/main/resources/zcu102/sdboot/sd.c:151-158 | the shift and xor byte step equals eight steps of bit-serial division |
| Crc16.DividerDivides | fpga/src/main/resources/zcu102/sdboot/sd.c:151-158 | bit-serial division yields quotient and remainder of polynomial division by x^16+x^12+x^5+1 after multiplication by x^16 |
| Crc16.DivisionUnique | fpga/src/main/resources/zcu102/sdboot/sd.c:151-158 | that quotient and remainder are unique |
| Crc16.RemainderAppend | fpga/src/main/resources/zcu102/sdboot/sd.c:151-158 | dividing a concatenation is dividing its parts in turn |
| Crc16.AppendedCrcIsZero | fpga/src/main/resources/zcu102/sdboot/sd.c:151-158 | a message followed by its CRC has CRC zero |
| Crc16.BurstDetected | fpga/src/main/resources/zcu102/sdboot/sd.c:151-158 | two messages differing only within 16 adjacent bits have different CRCs |
| Crc16.OddErrorsDetected | fpga/src/main/resources/zcu102/sdboot/sd.c:151-158 | an odd number of flipped bits in data and CRC is detected |
| SdCopy.SkipToToken | fpga/src/main/resources/zcu102/sdboot/sd.c:190 | everything up to the start token is skipped |
| SdCopy.ReadData | fpga/src/main/resources/zcu102/sdboot/sd.c:188-195 | 512 bytes are stored and their CRC computed |
| SdCopy.ReadNext | fpga/src/main/resources/zcu102/sdboot/sd.c:185-198 | one sector is read with its two CRC bytes |
| SdCopy.Copy | fpga/src/main/resources/zcu102/sdboot/sd.c:166-217 | what is in memory and what is returned, for every input, also a truncated or damaged one |
| SdCopy.GoodSectorLoads | fpga/src/main/resources/zcu102/sdboot/sd.c:184-210 | an intact sector is loaded and reading goes on |
| SdCopy.StreamLoads | fpga/src/main/resources/zcu102/sdboot/sd.c:184-210 | any number of intact sectors is loaded in order |
| SdCopy.AdjacentBytesDetected | fpga/src/main/resources/zcu102/sdboot/sd.c:151-158 | damage within two adjacent bytes changes the CRC |
| SdCopy.DamagedSectorRejected | fpga/src/main/resources/zcu102/sdboot/sd.c:197-204 | after any number of intact sectors such a damaged one makes the copy fail |
| SdCopy.ReturnExplained | fpga/src/main/resources/zcu102/sdboot/sd.c:184-217 | the copy returns 0 only if the input begins with that many frames with right checksums, whose data is in memory, and 1 only if it begins with fewer such frames and then one whose checksum is wrong |
| SdCopy.ShortStreamWaits | fpga/src/main/resources/zcu102/sdboot/sd.c:184-198 | a stream that stops short leaves the loader waiting, with what came in memory |

## Left out

- Locks, RCU, sequence-lock retries, memory barriers, timers and per-CPU data: each locked section is one step.
- blk-flush.c: the legacy and scheduler details of requeueing, tags and the per-queue allocation.
- badblocks.c: badblocks_show and badblocks_store, which print and parse; memory allocation failure; the page size, which is any capacity.
- BadBlocksTable.BadBlocks.Set: does not state the flag of every sector inside an acknowledged range, because a merged entry takes over the flag of an unacknowledged neighbour.
- BadBlocksTable.BadBlocks.InsertAt: entries are stored unpacked, so a combined length outside 1 to 512, which the 9-bit field would truncate, is kept as a number; the condition for set excludes it.
- bfq-wf2q.c: the relinking that rebalancing does, because the code of the tree library is not part of this model. What its rotations do to the order and to the minima is, for insertion and for removal.
- BfqHeap.ServiceTree.InsertEntity: does not rebalance; `RefreshInserted` starts from any tree that rebalancing leaves.
- BfqHeap.ServiceTree.ActiveInsert: is the case in which no rotation is needed.
- BfqExtract.ActiveExtract: is the case in which no rotation is needed; `RefreshExtracted` starts from any tree that rebalancing leaves.
- BfqExtract.Perform: is about runs without rotations, for the same reason.
- BfqLevelObject.SchedData.SumIsLinkedWeight: a root is a set of entities; it is not tied to the linked nodes of BfqHeap.
- BfqHeap.ServiceTree.LookupNextEntity: does not evict an entity from the idle tree when the time advances.
- bfq-wf2q.c: the propagation between levels (next_in_service, parent budgets), reference counts, weight counters, first_idle and last_idle; the virtual time of a class may change to anything between steps.
- bfq-iosched.c and bfq-cgroup.c: heuristics and cgroup plumbing.
- blk-iocost.c: truncation of weight sums to 32 bits, wrap-around of the generation and of 64-bit costs, the periodic adjustment of the device rate, delays and statistics. Weights are at least 1 and so is a donated inuse.
- BfqTimes.ServedEntity: whether an entity is still a candidate (bfq_no_longer_next_in_service) is a parameter.
- bio.c: integrity, tracing and throttling hooks, and the callbacks of bios that are not chained.
- blk-core.c: the byte counts of partly completed requests (blk_update_request); plugging; why a queue cannot be entered.
- sd.c: UART and SPI registers, the command handshakes before the read, and the copies for the other boards. The destination is an array rather than fixed memory.
