# Three stateful exercises, modelled and proved

The repository holds operating-systems exercises in C++. Three of them keep state that must stay
consistent over arbitrary runs, and this project models those three in Dafny and proves what they
are for:

- **User-level threads** (`ex2`). Three ready queues (RED before ORANGE before GREEN), a blocked
  list, a running thread, a table from thread ids to threads, and quantum counters. Steps are the
  timer tick and the calls spawn, terminate, suspend and resume; each is atomic, since SIGVTALRM is
  masked, and ends when the chosen thread's context is loaded.
- **Block chain manager** (`ex3`). A map of attached blocks that form a tree under the genesis
  block, a queue of pending blocks, a list of used block numbers, and a daemon that attaches the
  pending blocks one by one. Steps are the API calls and the rounds of the daemon and of the closing
  thread, in any order.
- **Caching file system** (`ex4`). A fixed number of slots, each with one block of one file and a
  use counter; a read loop that mixes slots and disk and overwrites the least used slot; renames.

## How it is built

Each exercise appears twice. Once as a state machine over values (`SchedulerModel`, `ChainModel`,
`CacheModel`), on which the run-level theorems are proved. And once in the form the C++ has: classes
whose methods change queues, maps, lists and objects in place, with the loops of the source
(`Uthreads`, `Blockchain`, `CachingFileSystem`). Each API method is proved to take exactly one step
of the state machine (or, for a read, to compute exactly the modelled read), so that the theorems
hold of the classes too. Long C++ functions are cut into several methods where the proof needs it;
the order of effects is kept.

| file | what it holds |
|---|---|
| `Collections.dfy` | duplicate-free lists, erasing, sorting, the least free number |
| `SchedulerModel.dfy`, `SchedulerRuns.dfy`, `SchedulerFairness.dfy`, `SchedulerEffects.dfy` | the thread library as a state machine: the partition invariant; size test and quantum accounting; bounded waiting, round-robin, starvation; the order of priorities, and what each step changes |
| `Uthreads.dfy` | the thread library as a class |
| `ChainModel.dfy`, `ChainPrune.dfy`, `ChainRuns.dfy`, `ChainCalls.dfy`, `ChainStaleNumber.dfy`, `ChainEffects.dfy` | the chain as a state machine: the tree invariant; pruning; depth, queue order, counting, closing; what each event changes, and what becomes of a block's data; when `attach_now` keeps its promise, and a run in which it does not |
| `Blockchain.dfy` | the chain manager as a class |
| `CacheModel.dfy`, `CacheReads.dfy`, `CacheMisses.dfy`, `CacheShortReads.dfy`, `CacheRuns.dfy`, `CacheLfu.dfy` | slots and the read loop as functions; reads up to the end of a file; which reads miss throughout; shorter reads; renames, and whole runs against a file system with no cache; the replacement policy |
| `CachingFileSystem.dfy` | the file system as a class over slot objects |

## Where the code falls short of its documentation

The model follows the code. Five promises do not hold of it; for each there is an exact
condition or a concrete counterexample, mostly both.

- `attach_now` promises to attach its block before all others. `ChainCalls.AttachNowKept` says, for any
  run from the call to the next attachment, exactly when that is so: later calls for other blocks
  overtake it, and a call whose number equals that of the block the daemon attached last moves
  nothing. That number may have been pruned and given out again: `ChainStaleNumber.StaleNumberIsNotMoved`
  gives a run from init, with no call before another has returned, in which the promise is broken.
- A read should return what was asked for. The read loop's bound is misparsed
  (`ex4/CachingFileSystem.cpp:424`: the sum `offset + cond` is the whole condition of the
  conditional expression), and the number of bytes left to ask for drops on misses only.
  `CacheReads.AlignedReadExactly`, `CacheShortReads.ShortReadExactly` and
  `CacheShortReads.LaterReadExactly` say exactly which reads that start at a block of a NUL-free file
  are right, from sizes and from what is in the slots before the read. A read from a block past
  the middle of a file, for one, returns nothing.
- A read from the start that ends inside a block can store a truncated block as if it were whole;
  `CacheShortReads.TruncatedBlockIsServed` shows a later read of the whole file returning wrong bytes.
- A file with NUL bytes in it is never read whole (`CacheReads.WholeFileReadExactly`): a short file is cut
  at its first NUL (`CacheReads.SmallFileUpToNul`), and a NUL inside a whole block makes the loop come
  to that block again (`CacheReads.NulRepeatsBlock`).
- A rename onto a name with cached blocks leaves those blocks under the name.
  `CacheRuns.RenameTruthful` says exactly when every slot still holds what its file has, which is what
  the theorems on reads start from; `CacheRuns.StaleAfterRename` shows a stale read.

## Model

| member | source | states |
|---|---|---|
| SchedulerModel.InitInv | ex2/uthreads.cpp:314-322 | after init the main thread runs alone, and the partition invariant holds |
| SchedulerModel.NextIsReady | ex2/uthreads.cpp:174-196 | whatever the queues hold, the thread picked is live, READY, not the running one, and from the highest priority that has one |
| SchedulerModel.MainWaits | ex2/uthreads.cpp:398-402 | while any other thread runs, main sits in the ORANGE queue, so there is always someone to hand the processor to |
| SchedulerModel.TickInv | ex2/uthreads.cpp:246-272 | a tick keeps every live thread in just one of running, the queue of its priority, or blocked, as its state field says |
| SchedulerModel.SpawnInv | ex2/uthreads.cpp:326-350 | so does spawning, with a full table or not |
| SchedulerModel.TerminateInv | ex2/uthreads.cpp:353-393 | so does terminating a missing, running, ready or blocked thread |
| SchedulerModel.SuspendInv | ex2/uthreads.cpp:396-431 | so does suspending, main and blocked threads included, which are refused |
| SchedulerModel.ResumeInv | ex2/uthreads.cpp:434-457 | so does resuming a blocked thread or one that is not |
| SchedulerModel.StepInv | ex2/uthreads.cpp:246-457 | the partition invariant survives every step that does not exit the process |
| SchedulerModel.TableSize | ex2/uthreads.cpp:88-100 | at most 100 threads live, and unless the table is full the next id is below 100 |
| SchedulerEffects.LevelsInOrder | ex2/uthreads.cpp:111-127 | the queues are those of RED, ORANGE and GREEN in this order, one each |
| SchedulerEffects.BestIsPromoted | ex2/uthreads.cpp:174-196 | at a tick, a self-suspend and a self-terminate, no ready thread has a priority served before that of the thread chosen (RED before ORANGE before GREEN), which was first in its queue |
| SchedulerEffects.SpawnEffect | ex2/uthreads.cpp:326-350 | below 100 threads a thread with the least free id appears, ready, of that priority, without a quantum and last in its queue; nothing else changes, and with 100 nothing at all |
| SchedulerEffects.ResumeEffect | ex2/uthreads.cpp:434-457 | a blocked thread becomes ready, last in its queue, and leaves the blocked list, priority and quanta kept; nothing else changes; any other thread is left as it is |
| SchedulerEffects.ResumedRuns | ex2/uthreads.cpp:447-451 | a resumed RED thread runs no later than one decision after as many as there were threads in its queue |
| SchedulerEffects.SuspendEffect | ex2/uthreads.cpp:418-430 | a ready thread leaves its queue and is blocked, last on the list; nothing else changes; main, missing and blocked threads are left as they are |
| SchedulerEffects.SuspendSelfEffect | ex2/uthreads.cpp:409-417 | the running thread is blocked with its quanta, and the front of a queue runs in its place with one quantum more; nothing else changes |
| SchedulerEffects.TerminateEffect | ex2/uthreads.cpp:380-392 | another thread leaves the table and the one list it is on; nothing else changes |
| SchedulerEffects.TerminateSelfEffect | ex2/uthreads.cpp:371-379 | the running thread leaves the table, and the front of a queue runs in its place with one quantum more; nothing else changes |
| SchedulerEffects.TickEffect | ex2/uthreads.cpp:246-260 | with a ready thread, the front of a queue takes over with one quantum more and the thread that ran is ready, last in its own queue, its quanta kept; nothing else changes |
| SchedulerEffects.TickAloneEffect | ex2/uthreads.cpp:147-158 | with none, the running thread gets one quantum more and nothing else changes |
| SchedulerRuns.TableCount | ex2/uthreads.cpp:246-260 | the table's size is one plus the lengths of the three queues and the blocked list: nobody is lost or listed twice |
| SchedulerRuns.SizeTest | ex2/uthreads.cpp:254-259 | the guard that compares table size and blocked count holds exactly when some thread was ready before the switch |
| SchedulerRuns.TickSwitches | ex2/uthreads.cpp:246-260 | a tick changes the running thread if and only if another is ready |
| SchedulerRuns.SelfLeaveSwitches | ex2/uthreads.cpp:371-378 | a thread that suspends or terminates itself always leaves a different live thread running; no null is dereferenced |
| SchedulerRuns.QuantumConservation | ex2/uthreads.cpp:147-158 | over any run the global counter grows by one per scheduling decision, and stays in balance with the quanta of live threads plus those taken along by terminated ones |
| SchedulerRuns.QuantumConservationFromInit | ex2/uthreads.cpp:314-322 | from init, the counter equals the live quanta plus the retired quanta |
| SchedulerFairness.WaitStep | ex2/uthreads.cpp:105-196 | under any event not aimed at it, a waiting thread runs or keeps its queue and moves no further back; it moves up at each decision that serves its queue |
| SchedulerFairness.NeverOvertaken | ex2/uthreads.cpp:105-129 | over any run without its own suspension or termination, a ready thread of any priority runs or is still queued, no further from the front |
| SchedulerFairness.BoundedWaitingAt | ex2/uthreads.cpp:105-196 | a thread of any priority with k threads in front runs no later than the (k+1)-st decision taken with nobody of a higher priority ready, whatever else happens in the run |
| SchedulerFairness.BoundedWaiting | ex2/uthreads.cpp:105-196 | so a RED thread with k threads in front runs no later than the (k+1)-st decision of all |
| SchedulerFairness.CircleTick | ex2/uthreads.cpp:246-260 | with one priority runnable, a tick rotates the circle of runnable threads by one and gives the next one a quantum |
| SchedulerFairness.RoundRobinAt | ex2/uthreads.cpp:246-272 | after j ticks the circle has turned j places and just the threads passed have gained one quantum |
| SchedulerFairness.RoundRobin | ex2/uthreads.cpp:246-272 | n ticks over n runnable threads of one priority bring back queues and running thread, each of the n one quantum richer, the others untouched |
| SchedulerFairness.RunsSoon | ex2/uthreads.cpp:174-196 | with at most one runnable thread above it, a thread with k in front runs within 2(k+1) ticks |
| SchedulerFairness.Starves | ex2/uthreads.cpp:174-196 | with two runnable threads above it, a waiting thread keeps its place and never runs, after any number of ticks |
| SchedulerFairness.StarvationExactly | ex2/uthreads.cpp:174-196 | under ticks alone a waiting thread ever runs if and only if at most one runnable thread is strictly above it, and then within 2(k+1) ticks |
| Collections.LeastFree | ex2/uthreads.cpp:88-100 | the id chosen is the least non-negative one not in use |
| Collections.ScanFindsLeastFree | ex3/blockchain.cpp:108-123 | scanning an ascending list for the first entry off its own position finds the least unused number |
| Collections.SortNoDup | ex3/blockchain.cpp:111 | sorting a duplicate-free list gives its members in strictly ascending order |
| Uthreads.SwitchIsTick | ex2/uthreads.cpp:246-260 | marking the running thread READY first, then choosing, then re-queueing is the tick of the state machine |
| Uthreads.SelfTerminateIsPromote | ex2/uthreads.cpp:371-378 | queueing the dying thread and erasing it from queue and table leaves what never having queued it would |
| Uthreads.SelfSuspendIsPromote | ex2/uthreads.cpp:409-416 | blocking the running thread and handing on from a null running thread is the suspend step |
| Uthreads.Library.constructor | ex2/uthreads.cpp:281-287 | nothing runs and nothing is queued before init |
| Uthreads.Library.UthreadInit | ex2/uthreads.cpp:281-323 | refuses a non-positive quantum and changes nothing; otherwise establishes the initial state |
| Uthreads.Library.GetNextId | ex2/uthreads.cpp:88-100 | the scan of the table in id order returns the least free id |
| Uthreads.Library.AddToReady | ex2/uthreads.cpp:105-129 | the thread joins the end of its priority's queue; null is ignored |
| Uthreads.Library.GetReady | ex2/uthreads.cpp:163-168 | the front of the queue is removed and returned |
| Uthreads.Library.PopReady | ex2/uthreads.cpp:174-196 | takes the front of the highest non-empty queue; with nothing ready it returns the sole thread, or null if there are others |
| Uthreads.Library.RunThread | ex2/uthreads.cpp:147-158 | promotes the next thread or lets the running one go on, and counts the quantum once globally and once for the thread |
| Uthreads.Library.RemoveFromReady | ex2/uthreads.cpp:210-225 | erases the thread from its own queue, and says whether it was there |
| Uthreads.Library.RemoveFromBlock | ex2/uthreads.cpp:231-241 | erases the thread from the blocked list if it is there |
| Uthreads.Library.SwitchThreads | ex2/uthreads.cpp:246-260 | in every valid state the switch is the tick step |
| Uthreads.Library.TimeHandler | ex2/uthreads.cpp:265-272 | the signal handler is the tick step and keeps the library valid |
| Uthreads.Library.UthreadSpawn | ex2/uthreads.cpp:326-350 | the spawn step; the result is the least free id, and under it the table has a new ready thread of that priority, last in its queue; or failure with 100 threads, table and queues unchanged |
| Uthreads.Library.UthreadTerminate | ex2/uthreads.cpp:353-393 | the terminate step with its result, the thread gone from the table; for main the process exits with an empty table; a thread that terminates itself does not return |
| Uthreads.Library.UthreadSuspend | ex2/uthreads.cpp:396-431 | the suspend step; fails for main, missing and blocked threads; whichever other thread is named is blocked afterwards |
| Uthreads.Library.UthreadResume | ex2/uthreads.cpp:434-457 | the resume step; succeeds just for blocked threads, which are then ready, last in their queue and off the blocked list |
| Uthreads.Library.UthreadGetTid | ex2/uthreads.cpp:460-463 | the running thread's id, always a live one |
| Uthreads.Library.UthreadGetQuantums | ex2/uthreads.cpp:472-487 | the thread's own count, or failure for a missing one |
| ChainModel.NoOrphans | ex3/blockchain.cpp:144-147 | the branch that drops a block whose father is gone is never taken: the first pending block always becomes attached to its father |
| ChainModel.AttachInv | ex3/blockchain.cpp:125-156 | attaching keeps tree, queue and index bookkeeping: father attached, next pointer to it, depth one more, hash made for the final father |
| ChainModel.AddInv | ex3/blockchain.cpp:266-281 | so does adding a block, whose new number is positive and unused |
| ChainModel.FlagInv | ex3/blockchain.cpp:291-308 | so does flagging a pending block, and no block moves |
| ChainModel.MoveInv | ex3/blockchain.cpp:316-340 | so does calling a block forward |
| ChainRuns.StepInv | ex3/blockchain.cpp:125-437 | the tree invariant and the index bookkeeping survive every event, in any interleaving |
| ChainEffects.InitEffect | ex3/blockchain.cpp:231-253 | init leaves genesis alone in the tree, with number and depth 0 and no father, its number in use, nothing pending; refused, it changes nothing |
| ChainEffects.AddEffect | ex3/blockchain.cpp:266-281 | the last pending block is new, with the caller's data, the least free number, a deepest father, one more than its depth, no hash, no flag; nothing else changes |
| ChainEffects.FlagEffect | ex3/blockchain.cpp:291-308 | only the flag of the pending block with that number is set; in all refused cases nothing changes |
| ChainEffects.CallEffect | ex3/blockchain.cpp:316-337 | only the place of the pending block with that number changes, and only if it is not the one attached last; no block is altered |
| ChainEffects.AttachEffect | ex3/blockchain.cpp:125-156 | the first pending block is attached with its number, data and flag, and a hash of that data for its number and final father; the queue loses it, and only the daemon counts it |
| ChainEffects.DataIsKept | ex3/blockchain.cpp:139-142 | over any run after `add_block` was given some data and returned n, while n stays in use, block n is pending with this data or attached with this data and a hash of it |
| ChainEffects.PruneEffect | ex3/blockchain.cpp:389-437 | beside the tree and the numbers in use, whose order is kept, a prune changes nothing |
| ChainEffects.CloseEffect | ex3/blockchain.cpp:446-453 | closing sets its flag exactly on an initialised chain and changes nothing else |
| ChainEffects.ResetEffect | ex3/blockchain.cpp:202-210 | the reset empties tree, numbers and counter and takes both flags off |
| ChainEffects.RefusedUnlessOpen | ex3/blockchain.cpp:318-321 | before init and while closing nothing is added, called forward or pruned |
| ChainPrune.PathAt | ex3/blockchain.cpp:398-404 | the walk along next pointers reaches genesis after exactly depth steps, each step to the father |
| ChainPrune.PathIsAncestors | ex3/blockchain.cpp:398-404 | the blocks marked are exactly the ancestors of the deepest block chosen |
| ChainPrune.PruneLeavesOnePath | ex3/blockchain.cpp:389-437 | pruning keeps one block per depth 0..D and none deeper, each as it was; exactly the ancestors of a deepest block; the numbers in use are exactly the kept ones |
| ChainPrune.SomeDeepest | ex3/blockchain.cpp:83-106 | a tree that is not empty always has a deepest block to return |
| ChainRuns.AttachOne | ex3/blockchain.cpp:125-156 | one attachment adds the first pending block below its father, a deepest block of the moment if it is flagged, and changes nothing else in the tree |
| ChainRuns.AttachDepth | ex3/blockchain.cpp:129-138 | the longest chain grows by at most one per attachment, by exactly one for a flagged block |
| ChainRuns.DepthNeverDrops | ex3/blockchain.cpp:125-156 | over any run between init and the end of closing, prunes included, the longest chain never gets shorter and grows by at most one per attachment |
| ChainRuns.ToLongestIsHonoured | ex3/blockchain.cpp:291-308 | whatever happens between the call and the attachment, the block ends the longest chain, exactly one longer than it was |
| ChainRuns.FlagSticks | ex3/blockchain.cpp:291-308 | a flag stays on its block until the block is attached |
| ChainCalls.FrontAfterCalls | ex3/blockchain.cpp:316-340 | until the next attachment the front of the queue is the block moved there last, or the one that was there before; no pending block is lost |
| ChainCalls.AttachNowKept | ex3/blockchain.cpp:310-340 | over any run from `attach_now(n)` to the next attachment, that attachment is of n if and only if the last call of the run that moved a block moved n, or none did and n was first |
| ChainCalls.AttachNowAlone | ex3/blockchain.cpp:326-338 | with no call for another block meanwhile, n is the next attached if and only if it is not the number attached last, or is first anyway |
| ChainRuns.AttachNowIsNext | ex3/blockchain.cpp:331-336 | right after the call n is first if and only if it is not the number attached last or was first, and all other pending blocks keep their order |
| ChainStaleNumber.StaleNumberIsNotMoved | ex3/blockchain.cpp:326-330 | a run from init with no earlier `attach_now`, after which `attach_now(3)` with 2 and 3 pending moves nothing and 2 is attached while 3 is not |
| ChainRuns.MoveKeepsOrder | ex3/blockchain.cpp:336 | a block ahead of another stays ahead when any third block, or it itself, is called forward |
| ChainRuns.FirstInFirstOut | ex3/blockchain.cpp:161-189 | over any run in which y waits and is not called forward, a block ahead of y stays ahead or is attached; so it is attached before y |
| ChainRuns.ChainSizeCounts | ex3/blockchain.cpp:375-382 | while open, the counter grows by the attachments, which are the change of the tree plus what was pruned |
| ChainRuns.ChainSizeFromInit | ex3/blockchain.cpp:375-382 | from init, `chain_size` is the number of attached blocks but genesis plus the number pruned |
| ChainRuns.ClosingAttachesAll | ex3/blockchain.cpp:191-201 | while closing no block enters or is lost; after as many drain rounds as blocks were pending, all are attached |
| ChainRuns.NextIndexIsLeast | ex3/blockchain.cpp:108-123 | the number of a new block is the least one not in use, and positive |
| ChainRuns.IndicesAscend | ex3/blockchain.cpp:266-281 | between prunes numbers are given out in ascending order, so freed numbers come back lowest first |
| Blockchain.Manager.constructor | ex3/blockchain.cpp:30-37 | the globals as they start make a valid, uninitialised chain |
| Blockchain.Manager.InitBlockchain | ex3/blockchain.cpp:231-253 | the init step, refused when initialised or closing |
| Blockchain.Manager.ExistBlock | ex3/blockchain.cpp:60-72 | the place of the pending block with that number, or failure if there is none |
| Blockchain.Manager.MaxLength | ex3/blockchain.cpp:89-92 | the depth found is that of some block and no block is deeper |
| Blockchain.Manager.WithLength | ex3/blockchain.cpp:94-102 | exactly the blocks of that depth are collected |
| Blockchain.Manager.FindFather | ex3/blockchain.cpp:83-106 | returns a deepest block, any of them, and fails only on an empty map |
| Blockchain.Manager.FindMinIdx | ex3/blockchain.cpp:108-123 | sorts the list in place and returns the least number not in it |
| Blockchain.Manager.ChooseFather | ex3/blockchain.cpp:127-138 | an unflagged block keeps father and depth; a flagged one gets a deepest father and one more than its depth |
| Blockchain.Manager.AddAndHash | ex3/blockchain.cpp:125-156 | remembers the number, settles the father, hashes for that father and hangs the block there; fails only with an empty map |
| Blockchain.Manager.PopBlock | ex3/blockchain.cpp:161-173 | takes the block with that number out of the queue, the others in order; null if it is not there |
| Blockchain.Manager.DaemonRound | ex3/blockchain.cpp:175-189 | the daemon step of the state machine, or nothing while closing or with nothing pending |
| Blockchain.Manager.AddBlock | ex3/blockchain.cpp:266-281 | the add step; the queue gains one new object with the caller's data, the returned number, a deepest father and one more than its depth; the number is the least free one, or failure unless open |
| Blockchain.Manager.ToLongest | ex3/blockchain.cpp:291-308 | the flag step, with a different result for uninitialised, attached, pending and unknown |
| Blockchain.Manager.AttachNow | ex3/blockchain.cpp:316-340 | the calling-forward step, with its result |
| Blockchain.Manager.WasAdded | ex3/blockchain.cpp:347-367 | found if attached, not found if pending or last with the daemon, else unknown |
| Blockchain.Manager.ChainSize | ex3/blockchain.cpp:375-382 | the counter, or failure before init |
| Blockchain.Manager.MarkPath | ex3/blockchain.cpp:397-404 | the walk ends, and marks exactly the path from a deepest block to genesis |
| Blockchain.Manager.SweepIndices | ex3/blockchain.cpp:406-416 | erasing while iterating leaves the marked numbers in order; it throws exactly when some number in use is not attached, with the entries before that number swept and the rest as it was |
| Blockchain.Manager.SweepMap | ex3/blockchain.cpp:418-428 | erasing while iterating leaves exactly the marked blocks |
| Blockchain.Manager.ClearMarks | ex3/blockchain.cpp:430-433 | no mark is left on any block |
| Blockchain.Manager.PruneChain | ex3/blockchain.cpp:389-437 | the prune step; throws exactly when the chain is open with blocks pending, and then leaves the path marked, the tree otherwise whole, and the indices swept up to the first pending one; fails when not open |
| Blockchain.PendingIsUnattached | ex3/blockchain.cpp:406-408 | a number in use is missing from the map exactly when its block is pending |
| Blockchain.PrunedTree | ex3/blockchain.cpp:397-433 | marking a path, keeping the marked blocks and clearing the marks gives the blocks of the path unchanged |
| Blockchain.Manager.CloseChain | ex3/blockchain.cpp:446-470 | an initialised chain becomes closing; otherwise nothing changes |
| Blockchain.Manager.CloseChainThread | ex3/blockchain.cpp:191-215 | performs one drain step for each pending block and then the reset, and prints for each pending block, in order, the hash it was attached with, made from its data |
| Blockchain.Manager.ReturnOnClose | ex3/blockchain.cpp:477-496 | succeeds only while closing |
| CacheModel.CStringWhole | ex4/CachingFileSystem.cpp:152-154 | copying as a C string keeps the bytes if and only if there is no NUL among them |
| CacheModel.CStringIsPrefix | ex4/CachingFileSystem.cpp:152-154 | the copy is a prefix without a NUL, and either all of the bytes or followed by a NUL |
| CacheModel.PreadBytes | ex4/CachingFileSystem.cpp:434 | the bytes at the offset, as many as were asked for or as there are |
| CacheModel.ToInt32IsCast | ex4/CachingFileSystem.cpp:424 | the cast gives the 32-bit value equal to the argument up to multiples of 2^32 |
| CacheModel.RenameFilesEffect | ex4/CachingFileSystem.cpp:611-616 | the file has the new name and not the old one, whatever had the new name is replaced, all other files are untouched |
| CacheModel.LookupFinds | ex4/CachingFileSystem.cpp:207-222 | the lookup finds the first slot with that path and number, and fails only if there is none |
| CacheModel.VictimIsMinimal | ex4/CachingFileSystem.cpp:255-267 | the slot overwritten is the first of those with the least counter |
| CacheReads.PlaceOfIs | ex4/CachingFileSystem.cpp:427 | the block number asked for, found by repeated subtraction in the model, is the quotient of offset and block size |
| CacheReads.BoundIs | ex4/CachingFileSystem.cpp:424 | what the misparsed loop bound amounts to: the bytes to the end of the file after a positive offset, and the lesser of size and length from the start |
| CacheReads.LimitAnySize | ex4/CachingFileSystem.cpp:424 | the misparsed limit for any width of size: the rest of the file after a positive offset; from the start the length just when the low 32 bits of the size are above it |
| CacheReads.TurnEffect | ex4/CachingFileSystem.cpp:424-457 | one turn for any bytes and any offset: which block it asks for, what a hit and a miss deliver and leave in the slots, what is left to ask for, and when the loop ends |
| CacheReads.TouchTruthful | ex4/CachingFileSystem.cpp:427-454 | a hit, or loading a block's true bytes over any slot, leaves every slot with what its file has |
| CacheReads.ReadNoTwice | ex4/CachingFileSystem.cpp:424-457 | no read, of any kind, puts a block into two slots |
| CacheReads.AlignedLoop | ex4/CachingFileSystem.cpp:424-457 | the loop on true slots with enough to ask for collects the file's bytes up to a place that depends on sizes only, whatever it hits, misses or evicts, its own blocks included |
| CacheReads.WholeFileRead | ex4/CachingFileSystem.cpp:412-460 | a read from the start of at least the file's length returns exactly the file's bytes and leaves the slots true, even if a block is cached twice |
| CacheReads.ReadNulFree | ex4/CachingFileSystem.cpp:152-154 | from slots without NULs, as they start, no read of any kind returns a NUL or puts one into a slot |
| CacheReads.WholeFileReadExactly | ex4/CachingFileSystem.cpp:412-460 | so on true slots a whole-file read returns the file if and only if there is no NUL in it |
| CacheReads.SmallFileUpToNul | ex4/CachingFileSystem.cpp:445-455 | a file shorter than a block, not cached, is read exactly up to its first NUL, and that is what its slot then has |
| CacheReads.NulRepeatsBlock | ex4/CachingFileSystem.cpp:454-456 | with blocks of two, a file of an 'a' and a NUL is read as "aa" |
| CacheReads.UnalignedMislabels | ex4/CachingFileSystem.cpp:427-452 | a read from byte 1 stores bytes 1 and 2 as the first block of two |
| CacheReads.LaterStop | ex4/CachingFileSystem.cpp:424-457 | a later aligned read reaches the end of the file exactly from the second block of a file of whole blocks |
| CacheReads.ReadPastEnd | ex4/CachingFileSystem.cpp:446-450 | an aligned read at or past the end returns nothing and changes nothing |
| CacheReads.AlignedReadExactly | ex4/CachingFileSystem.cpp:412-460 | an aligned read up to the end of the file returns the direct read's bytes if and only if it starts at the beginning, at or past the end, or one block into a file of whole blocks; always a prefix of them; the slots stay true |
| CacheMisses.AllMissExactly | ex4/CachingFileSystem.cpp:427-452 | consecutive blocks asked for in turn all miss if and only if each slot that holds one is the spare slot and more places come before its block than slots are unused; nothing of the loop is replayed |
| CacheShortReads.ShortReadExactly | ex4/CachingFileSystem.cpp:412-460 | a read from the start that ends before the end is exact if and only if that condition holds of its blocks, and longer than asked otherwise; it leaves the slots true unless the condition holds and it ends inside a block |
| CacheShortReads.LaterReadExactly | ex4/CachingFileSystem.cpp:412-460 | a read from a later block that ends before the end of the file: past the middle it returns nothing and changes nothing; if the loop's bound stops it, a prefix, exact only if it stops where asked; otherwise exact if and only if none of its blocks will be served from its slot, and longer if one is; it keeps the slots true if it asks for whole blocks or is stopped |
| CacheShortReads.ShortReadByFirstBlock | ex4/CachingFileSystem.cpp:427-440 | such a read is exact when none of its blocks is cached, and never when the file's first block is |
| CacheShortReads.TruncatedBlockIsServed | ex4/CachingFileSystem.cpp:430-452 | after a one-byte read of a two-byte file, a read of all of it returns its first byte twice |
| CacheRuns.RenameTruthful | ex4/CachingFileSystem.cpp:606-624 | a rename leaves every slot with what its file has if and only if the names are equal or the replaced file's cached blocks are those of the renamed file |
| CacheRuns.RenameNoTwice | ex4/CachingFileSystem.cpp:617-623 | a rename leaves each block in at most one slot if and only if the names are equal or no block is cached for both files |
| CacheRuns.RenameSound | ex4/CachingFileSystem.cpp:606-624 | both at once, if and only if both conditions hold |
| CacheRuns.StaleAfterRename | ex4/CachingFileSystem.cpp:617-623 | after a rename onto a cached name, a read of the new file returns the replaced file's byte |
| CacheRuns.StepRefines | ex4/CachingFileSystem.cpp:412-624 | one read or rename keeps the slots true, does to the files what it does without a cache, and answers the same exactly when it is of an exact kind |
| CacheRuns.StepNoTwice | ex4/CachingFileSystem.cpp:412-624 | a read or rename keeps each block in at most one slot if and only if it is no rename of two files with a block cached for both |
| CacheRuns.RunRefines | ex4/CachingFileSystem.cpp:412-624 | over any run of reads and renames all answers are those of a file system with no cache if and only if every event was of an exact kind |
| CacheRuns.CacheIsTransparent | ex4/CachingFileSystem.cpp:412-624 | from empty slots, however few, every run of whole-file reads and renames that leave no stale slot answers as if there were no cache |
| CacheRuns.RunSound | ex4/CachingFileSystem.cpp:412-624 | over runs whose renames bring no block together twice, every slot stays true and every block in at most one slot |
| CacheLfu.ReadsAreUses | ex4/CachingFileSystem.cpp:424-457 | what any run of reads does to the slots is one sequence of block uses, whatever the offsets and sizes, with block numbers unbounded |
| CacheLfu.CounterIsUsesSinceLoad | ex4/CachingFileSystem.cpp:227-233 | after any sequence of uses from empty slots, a slot holds the block loaded into it last, and its counter is the number of uses of that block since |
| CacheLfu.CounterSurvivesRenames | ex4/CachingFileSystem.cpp:617-623 | with renames among the uses, the counter is still the number of uses of the slot's block since its load, under whatever name it had |
| CacheLfu.VictimOverRuns | ex4/CachingFileSystem.cpp:255-267 | after any run below INT_MAX uses the slot overwritten is the first empty one if any, else the first of the least used |
| CacheLfu.MissesShareTheColdSlot | ex4/CachingFileSystem.cpp:451-454 | with one slot used once and the others twice or more, any number of consecutive misses changes that one slot only |
| CacheLfu.ThrashingExactly | ex4/CachingFileSystem.cpp:451-454 | in that state a run of uses misses every time if and only if it never asks for a block of another slot nor for the same block twice in a row |
| CachingFileSystem.FileSystem.constructor | ex4/CachingFileSystem.cpp:637-647 | fresh, distinct slots, none of them used |
| CachingFileSystem.FileSystem.IsInCache | ex4/CachingFileSystem.cpp:207-222 | the scan, which skips unused slots, agrees with the lookup |
| CachingFileSystem.FileSystem.SearchMinCounter | ex4/CachingFileSystem.cpp:255-267 | the scan returns the slot that `CacheModel.VictimIsMinimal` describes |
| CachingFileSystem.FileSystem.UpdateBlock | ex4/CachingFileSystem.cpp:227-233 | one slot gets path, number and the bytes before the first NUL, its counter 0; no other slot changes |
| CachingFileSystem.FileSystem.ReadBlocks | ex4/CachingFileSystem.cpp:424-457 | the loop over slot objects collects the bytes and leaves the slots that the modelled loop does |
| CachingFileSystem.FileSystem.CachingRead | ex4/CachingFileSystem.cpp:412-460 | the read leaves slots and returns bytes as modelled; so on true slots an aligned read up to the end returns a prefix of the file's bytes there, all of them exactly in the cases of `CacheReads.AlignedReadExactly` |
| CachingFileSystem.FileSystem.CachingRename | ex4/CachingFileSystem.cpp:606-624 | on success the file and all its slots have the new name and nothing else changes; on failure nothing changes |

## Left out

Thread library:

- Contexts, stacks, `sigsetjmp`/`siglongjmp`, signal masks and timer system calls: machine level. A step ends where a context is loaded, so nothing is said of what a thread's own code does afterwards; code after a self-terminate is not reached, and a self-suspend has no result.
- Uthreads.Library.UthreadInit: describes the one call that comes before all others; a second init is not part of this model.
- Uthreads.Library.UthreadSpawn: the branch for a null running thread (`ex2/uthreads.cpp:340-343`) is absent, since between steps some thread is always running.
- Integer width of quantum counters: they are unbounded here.
- Error messages and the total-quantums getter.

Block chain manager:

- Mutexes, thread creation, spin waits and data races: each API call and each daemon round is one atomic step, and a library call starts from a completed init or from none.
- Blockchain.Manager.AttachNow: ends where the C++ starts waiting for the attachment; nothing is said about when the wait ends, which for a pruned number still held as the last attached it never does.
- Blockchain.Manager.PruneChain: the loop ends are `iter != end()`; the C++ compares what the two iterators point at (`ex3/blockchain.cpp:406`, `ex3/blockchain.cpp:418`). No call after a throw is modelled.
- Blockchain.Manager.WasAdded: states the code's answer, which for the pruned number last attached is "not yet added".
- Blockchain.Manager.ReturnOnClose: states the code only; the join that waits for the closing thread is absent.
- Hashing and nonces: uninterpreted; a hash is known by data, block, father and a random part. `random_shuffle` is any choice among the deepest blocks.
- Memory management (`new`, `delete`) and the printing of the tree.
- A second `close_chain` while closing starts a second closing thread; one is modelled.

Caching file system:

- CacheReads.AlignedReadExactly: offsets that are not multiples of the block size have no exactness theorem; `CacheReads.TurnEffect` and the replacement-policy theorems cover them, and `CacheReads.UnalignedMislabels` shows what they can do to the slots.
- CacheShortReads.LaterReadExactly: when one of its blocks is served from its slot and it ends inside a block, nothing is said about whether it leaves a truncated block.
- CacheReads.WholeFileRead: holds where the code's casts to 32 bits are exact (offset + size below 2^32, block numbers below 2^31) and for contents without NUL bytes, which `strcpy` would cut (`CacheReads.WholeFileReadExactly`).
- CacheRuns.RunRefines: its runs contain reads of NUL-free files that start at a block, and renames, except those that can leave a truncated or stale slot behind, which the single-call theorems single out. A rename is of a file; renaming a directory leaves the slots of the files in it under their old names, which is not modelled.
- CacheRuns.RenameTruthful: exact for every slot being true, which all later reads can rely on; a stale slot may happen to be overwritten before it is asked for.
- CacheLfu.CounterIsUsesSinceLoad: counters are unbounded, and `CacheLfu.VictimOverRuns` names the bound below which that makes no difference.
- CacheLfu.ReadsAreUses: block numbers are unbounded; the C++ stores a number as `int` and compares it with an `off_t` (`ex4/CachingFileSystem.cpp:207`, `ex4/CachingFileSystem.cpp:227`), so a block numbered 2^31 or more is stored under another number, which is not modelled.
- Writers outside the file system: file contents never change (the file system itself has no write operation). `pread` is a slice of the contents and never fails.
- Logging, FUSE wiring, directories, attributes, `ioctl`, and the sizes of the fixed path and data buffers.

Other exercises: `ex1` (timing measurements) and `ex5` (sockets) would only add easy members.
