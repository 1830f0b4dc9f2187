# Verification of the crash investigator's trackers

The library replaces `malloc`, `free`, `new` and `delete` and watches what the program does with them.
This project models its stateful parts in Dafny and proves what they keep over whole runs.

| file | part of the library |
|---|---|
| `tracker_spec.dfy`, `tracker.dfy` | the allocation tracker: a table from address to type, status and stack, and a table from stack to number of live allocations; first as values with whole runs and their history, then as the object with its two tables, mutex and thread-local flag |
| `tracker_threads.dfy`, `tracker_debts.dfy`, `tracker_wild.dfy`, `tracker_mismatch.dfy` | the same tracker under any number of threads: raw malloc, taking the mutex, table updates, giving it back, raw realloc, raw free and reports are separate steps; what threads owe after their verdicts, and calls that run to their end |
| `leak_only.dfy`, `leak_threads.dfy`, `leak_blocks.dfy` | the leak-only tracker, with its `Backtrace` objects on the heap, its interleavings, and where its blocks are |
| `hash_links.dfy`, `hash_runs.dfy`, `hash_items.dfy` | `HashItemsByPtr`: 4096 chains and one list through the same nodes, first as link maps, with whole runs, then as the object |
| `stack_items.dfy` | the tracker's stack table as such an object, with line 84 as written and repaired |
| `pool_spec.dfy`, `memory_pool.dfy`, `words.dfy` | the bootstrap pool, first as a list of blocks, then as headers of 64-bit words inside a byte buffer |
| `routing.dfy` | which allocator a call reaches while the original libc functions are being looked up |
| `stacks.dfy`, `aligned_new.dfy` | stack equality and stack hash; the alignment arithmetic of aligned `new` |

The pattern is the same throughout. A pure model says what one operation does; lemmas about it, over all
inputs and all runs, say what that is worth; and the methods of a class, written with the same branches and
updates as the source, are proved to change their object exactly as the pure model says. The verdicts of the
tracker are compared with a history that is built from calls and answers alone (`TrackerSpec.Events`), never
with the tables.

`dafny verify dfyconfig.toml` checks everything.

## Where the code departs from its evident intent

The model follows the code. Each departure has a lemma that says exactly when the code is right, and where
it helps a concrete run on which it is not.

- Line 84 of `hashitemsbyptr.impl.hpp` writes `prev` of the old first item instead of `prevInTheList`. Adding
  and finding are not affected, which is all that the address table does. Removal is, and the stack table
  removes (lines 245 and 356 of the analyzer): a removal may lose keys of other buckets
  (`HashItems.HashItemsByPtr.RemoveEntry`, `HashItems.Line84LosesAKey`), may leave links to the freed item
  (`HashLinks.WrittenRemoveCleanIff`, `HashRuns.CleanIffSafe`, `HashItems.Line84LeavesALink`), and so a correct
  program can fail the assertion of line 244 (`StackItems.StacksFoundIff`, `StackItems.Line84FailsTheAssertion`).
- A limit of 0 stops counting (`TrackerSpec.RegisterConservesIff`, `TrackerSpec.LimitZeroFails`).
- A mismatching delete lowers the count before it looks at the type (`TrackerSpec.DeleteKeepsGood`,
  `TrackerSpec.ContinuingAfterMismatchFails`). Between threads that matters even under the default callback,
  because others go on until the report ends the process (`TrackerThreads.AssertionFailsIff`,
  `TrackerMismatch.MismatchThenDelete`).
- A failed raw realloc is recorded as a move to null (`TrackerSpec.FailedReallocIff`,
  `TrackerSpec.FailedReallocThenFree`).
- An address that the tracker does not know is handed to libc after the mutex has been given back
  (`TrackerWild.UnknownFreeIff`, `TrackerWild.WildFreeOverwrites`).
- Aligned `new` registers the raw address and returns the aligned one (`AlignedNew.ReturnedIsRegisteredIff`).
- The pool's size computations wrap around (`PoolSpec.AllocGuardExact`, `PoolSpec.HugeRequestGranted`,
  `PoolSpec.GrowGuardExact`, `PoolSpec.HugeGrowthGranted`).
- The pool's `Realloc` moves a block without copying it (`MemoryPool.ReallocKeepsBytesIff`,
  `MemoryPool.MovedBlockLosesItsByte`) and gives it up even if there is no room for the new one
  (`PoolSpec.ReallocGrants`, `PoolSpec.ReallocTouchesOne`), unlike section 7.22.3.5 of ISO/IEC 9899:2011.
- A pool block freed or reallocated from inside a tracked call after initialisation goes to libc
  (`Routing.Process.TestOperatorDelete`, `Routing.PoolBlockGoesToLibc`); and a thread that allocates while another
  one is initialising gets a pool block as a tracked one (`Routing.Process.AllocInOtherThread`).
- Empty stacks are not equal to themselves (`Stacks.SameStackReflexiveIff`).

## Assumptions

- The raw allocator hands out only blocks that nobody holds, and never addresses inside the pool's static
  buffer. What it answers, which stack was captured, and whether the pool accepts an address are parameters.
- `TrackerSpec`, `TrackerThreads`, `TrackerWild` and `TrackerMismatch` use a map for the stack table, that is, they
  take line 84 of the hash table as repaired. The object in `tracker.dfy` uses the hash table itself in both forms:
  repaired it always agrees with them, as written as long as every removal is safe
  (`Tracker.CrashInvestAnalizer.PerformWhileSafe`).
- Captured stacks are not empty, the limit does not change during a run, assertions are compiled in, and the
  tracker's own bookkeeping memory is always available. The leak-only tracker is modelled in the builds that
  assert and in the MSVC release build, which removes a stale entry instead; a build elsewhere with NDEBUG does
  neither, and differs only where an address that has an entry is allocated again, which
  `LeakThreads.AssertNeverFires` excludes for its clients.
- `size_t` has 64 bits, and a word is stored in the pool's buffer with its lowest byte first.
- Clients of the leak-only tracker delete only what they own, in the interleavings of `leak_threads.dfy`.

## Model

| member | source | states |
|---|---|---|
| TrackerSpec.TableIsHistory | src/core/basic/crash_investigator_alloc_dealloc_analyze.cpp:152-365 | After any sequence of alloc, calloc, realloc and delete, for any callback, limit and raw allocator, the address table holds exactly what callers saw: type, stack and status of each address's last registration and release, with the releasing stack for a delete and none for a move |
| TrackerSpec.EveryRunConserves | src/core/basic/crash_investigator_alloc_dealloc_analyze.cpp:152-179 | With line 84 of the hash table repaired, so that the stack table is a map: Default callback, positive limit, raw allocator that hands out only free blocks: no assertion fails, and while the process runs each stack's count is the number of its Allocated entries, never 0, never above the limit; every Allocated entry is a block the raw allocator has handed out |
| TrackerSpec.DeleteVerdictExact | src/core/basic/crash_investigator_alloc_dealloc_analyze.cpp:197-261 | With line 84 of the hash table repaired, so that the stack table is a map: After every legal run delete reports DoubleFree iff the address's last event is a release, FreeMissmatch iff it is an allocation of another type, frees iff it is an allocation of the expected type, passes the address on iff it was never registered; a double free is reported with the stacks of the last allocation and of the release; the freed block is the one named |
| TrackerSpec.ReallocVerdictExact | src/core/basic/crash_investigator_alloc_dealloc_analyze.cpp:296-365 | With line 84 of the hash table repaired, so that the stack table is a map: After every legal run realloc reports BadReallocCreatedByWrongAlloc iff the last registration has another type than Malloc, BadReallocDeletedMem iff it has type Malloc and was released since, succeeds iff it has type Malloc and was not, passes the address on iff it was never registered |
| TrackerSpec.ReallocToNothingExact | src/core/basic/crash_investigator_alloc_dealloc_analyze.cpp:303-306 | After every legal run realloc of a non-null address to size 0 is Freed iff the address's last event is a registration of type Malloc, FreeMissmatch iff one of another type, DoubleFree iff a release, passed on iff there is none |
| TrackerSpec.RequestOutcome | src/core/basic/crash_investigator_alloc_dealloc_analyze.cpp:264-302 | In every state and for any callback: alloc, calloc and realloc of null are refused iff the size asked for (for calloc the product modulo 2^64) is 0 or the raw block is null, and then nothing changes; otherwise they answer with the raw block, which is a live entry of the call's type and stack, and no other entry changes |
| TrackerSpec.ReportNamesLastUse | src/core/basic/crash_investigator_alloc_dealloc_analyze.cpp:234-252 | After every run, for any callback and limit: the failure callback gets the item of the address the call was given, with the type and stack of its last registration and, if it was released, the stack of that release |
| TrackerSpec.LeakReportExact | src/core/basic/crash_investigator_alloc_dealloc_analyze.cpp:167-176 | With line 84 of the hash table repaired, so that the stack table is a map: After every legal run an allocating call reports a leak iff, counting this allocation and not the block a realloc just released, the simultaneously live allocations from an equal stack exceed the limit; liveness is read off the history, not off the counts |
| TrackerSpec.CallKeepsGood | src/core/basic/crash_investigator_alloc_dealloc_analyze.cpp:243-256 | With line 84 of the hash table repaired, so that the stack table is a map: One call of any kind, any callback, from a state with right counts under a positive limit: no assertion fails, the counts stay right iff the call does not report a mismatch, and stay within the limit iff it does not report a leak |
| TrackerSpec.RegisterConservesIff | src/core/basic/crash_investigator_alloc_dealloc_analyze.cpp:167-172 | Registering at a non-live address keeps counts and table in step iff the limit is positive or the stack is new: with limit 0 a second allocation is not counted |
| TrackerSpec.ReleaseConserves | src/core/basic/crash_investigator_alloc_dealloc_analyze.cpp:242-257 | Marking an Allocated entry together with lowering its stack's count keeps counts and table in step, and that count was not 0 |
| TrackerSpec.DeleteKeepsGood | src/core/basic/crash_investigator_alloc_dealloc_analyze.cpp:243-252 | With line 84 of the hash table repaired, so that the stack table is a map: delete keeps the counts right iff it does not name a live entry with the wrong type, because the decrement precedes the type check and the entry stays Allocated |
| TrackerSpec.MoveKeepsGood | src/core/basic/crash_investigator_alloc_dealloc_analyze.cpp:350-359 | With line 84 of the hash table repaired, so that the stack table is a map: A moving realloc lowers the old stack's count, marks the old entry and registers the new one, and leaves the counts right and the entries backed |
| TrackerSpec.FatalReports | src/core/basic/crash_investigator_alloc_dealloc_analyze.cpp:617-676 | Under the default callback the process ends exactly at a reported failure or leak report, with that failure as its reason |
| TrackerSpec.ProcessOutcome | src/core/basic/crash_investigator_alloc_dealloc_analyze.cpp:617-676 | For any callback: a reported failure and a leak report end the process with that failure as its reason unless the callback lets it go on after it, a failed assertion ends it, and nothing else does |
| TrackerSpec.FailedReallocIff | src/core/basic/crash_investigator_alloc_dealloc_analyze.cpp:350-359 | For a live Malloc block every Allocated entry stays backed by a block iff the raw realloc succeeds: a failed one is recorded as a move to null |
| TrackerSpec.FailedReallocThenFree | src/core/basic/crash_investigator_alloc_dealloc_analyze.cpp:350-359 | A concrete run: realloc fails, the caller frees the block it still owns, and a double free is reported |
| TrackerSpec.LimitZeroFails | src/core/basic/crash_investigator_alloc_dealloc_analyze.cpp:172 | A concrete legal run with limit 0, two allocations from one stack and two correct deletes, that fails an assertion |
| TrackerSpec.ContinuingAfterMismatchFails | src/core/basic/crash_investigator_alloc_dealloc_analyze.cpp:243-253 | A concrete legal run with a callback that continues after a mismatch, in which repeating the delete correctly fails an assertion |
| TrackerSpec.OwnedOutcome | src/core/basic/crash_investigator_alloc_dealloc_analyze.cpp:197-365 | What each call does to the set of blocks that the raw allocator has handed out, by the call and its answer |
| TrackerSpec.OwnedDoesNotMatter | src/core/basic/crash_investigator_alloc_dealloc_analyze.cpp:197-365 | Neither tables nor answers depend on which blocks the raw allocator has handed out |
| Tracker.CrashInvestAnalizer.constructor | src/core/basic/crash_investigator_alloc_dealloc_analyze.cpp:95-109 | An empty tracker, with line 84 as written or repaired in its stack table, with the flag clear and the mutex free |
| Tracker.CrashInvestAnalizer.Perform | src/core/basic/crash_investigator_alloc_dealloc_analyze.cpp:197-365 | Any call with any tree of calls provoked before, under and after the lock, with line 84 repaired or, as written, when the removal is safe: tables, process and raw calls change exactly as by this call alone, provoked calls change nothing, flag and mutex are as before; with the flag set nothing is tracked |
| Tracker.CrashInvestAnalizer.Lock | src/core/basic/crash_investigator_alloc_dealloc_analyze.cpp:209 | The non-recursive mutex is taken only while the thread does not hold it, in every nesting |
| Tracker.CrashInvestAnalizer.Freen | src/core/basic/crash_investigator_alloc_dealloc_analyze.cpp:260 | The raw free of a tracked block comes only after the mutex has been given back |
| Tracker.CrashInvestAnalizer.CallClbk | src/core/basic/crash_investigator_alloc_dealloc_analyze.cpp:700-933 | The failure callback runs without the mutex, and the process ends unless the callback lets it go on |
| Tracker.CrashInvestAnalizer.TakeOutOfStack | src/core/basic/crash_investigator_alloc_dealloc_analyze.cpp:243-245 | Over the hash table, with line 84 repaired or, as written, when the removal is safe: the decrement asserts a present, non-zero count, the item goes with its last count, and the table stays in order and equal to the map |
| Tracker.CrashInvestAnalizer.AddNewAllocatedMemoryAndCleanOldEntryNoLock | src/core/basic/crash_investigator_alloc_dealloc_analyze.cpp:152-179 | Adds or overwrites the entry, counts the stack in the hash table, with line 84 as written or repaired, and gives the mutex back before a leak report; the freeing of the old traces is left out |
| Tracker.CrashInvestAnalizer.PerformWhileSafe | src/core/basic/crash_investigator_alloc_dealloc_analyze.cpp:197-365 | Whole runs over the hash table, with line 84 as written or repaired: tables and answers are those of TrackerSpec.Run up to the end of the process or, as written, the first call whose removal is not safe; and each address was passed to raw free as often as the history says that a delete released it |
| Tracker.CrashInvestAnalizer.TestRemoval | src/core/basic/crash_investigator_alloc_dealloc_analyze.cpp:243-245 | The test on which that depends can be made before the call |
| Tracker.CrashInvestAnalizer.DeleteAllocated | src/core/basic/crash_investigator_alloc_dealloc_analyze.cpp:242-260 | For an Allocated entry (line 84 repaired, or a safe removal): decrement, then the type check, then the mark, the mutex given back and the raw free; raw free gets exactly this address, once, iff the answer is Freed |
| Tracker.CrashInvestAnalizer.DeleteTracked | src/core/basic/crash_investigator_alloc_dealloc_analyze.cpp:201-260 | The tracked delete of an address from the lock on, with its raw free |
| Tracker.CrashInvestAnalizer.DeleteKnown | src/core/basic/crash_investigator_alloc_dealloc_analyze.cpp:234-260 | For an address of the table: double free, or the release of an Allocated entry, with the raw free iff it is Freed |
| Tracker.CrashInvestAnalizer.ReallocNonEmpty | src/core/basic/crash_investigator_alloc_dealloc_analyze.cpp:308-364 | With line 84 repaired or a safe removal: realloc of a non-null pointer to a positive size, as the specification says |
| Tracker.CrashInvestAnalizer.ReallocKnown | src/core/basic/crash_investigator_alloc_dealloc_analyze.cpp:338-364 | For an address of the table: type, then status, then raw realloc of the block |
| Tracker.CrashInvestAnalizer.RegisterMoved | src/core/basic/crash_investigator_alloc_dealloc_analyze.cpp:353-359 | With line 84 repaired or a safe removal, after a move: decrement for the old stack, mark, registration of the new block, as the specification says |
| Tracker.CrashInvestAnalizer.TestOperatorAlloc | src/core/basic/crash_investigator_alloc_dealloc_analyze.cpp:264-278 | With the flag clear: refused iff the size is 0 or the raw block is null, otherwise registered, with the whole new state given by the specification; raw malloc is called exactly once, with this size, iff it is not 0. With the flag set the request is handed on untracked |
| Tracker.CrashInvestAnalizer.TestOperatorCalloc | src/core/basic/crash_investigator_alloc_dealloc_analyze.cpp:281-292 | As alloc; raw calloc is called exactly once iff the product of the sizes is not 0 modulo 2^64 |
| Tracker.CrashInvestAnalizer.TestOperatorDelete | src/core/basic/crash_investigator_alloc_dealloc_analyze.cpp:197-261 | With line 84 repaired or a safe removal: verdict and new tables are those of the specification, with status checked before the decrement and the type after it; raw free gets exactly this address, once, iff the answer is Freed, libc's free iff the address is unknown and not the pool's, and otherwise nothing is freed |
| Tracker.CrashInvestAnalizer.TestOperatorReAlloc | src/core/basic/crash_investigator_alloc_dealloc_analyze.cpp:296-365 | With line 84 repaired or a safe removal: null is alloc, size 0 is delete; otherwise type, then status, then raw realloc under the mutex, and re-registration if the block moved; raw realloc gets exactly this address and size, once, iff the verdict lets it |
| TrackerThreads.RegistrationOverwritesOnlyDead | src/core/basic/crash_investigator_alloc_dealloc_analyze.cpp:152-187 | For every interleaving of any number of threads, the address a thread is about to register, after raw malloc or a moving raw realloc, has no entry or one that is not Allocated |
| TrackerThreads.FreesAreRegistrations | src/core/basic/crash_investigator_alloc_dealloc_analyze.cpp:208-260 | For every interleaving, registrations of an address = raw frees by deletes + frees still owed + moves + 1 if it is live now; so raw frees never outnumber registrations |
| TrackerThreads.DoubleFreeIffUsedUp | src/core/basic/crash_investigator_alloc_dealloc_analyze.cpp:234-239 | For every interleaving, a delete holding the mutex reports DoubleFree iff the address was registered and its registrations are all used up by deletes and moves |
| TrackerThreads.OneWinner | src/core/basic/crash_investigator_alloc_dealloc_analyze.cpp:208-260 | Of n > 0 deletes that get their verdict on one live block, as long as it is not registered again, moved or named with another type, exactly one reaches raw free (or owes it) and n - 1 report DoubleFree |
| TrackerThreads.CountsLackMismatches | src/core/basic/crash_investigator_alloc_dealloc_analyze.cpp:243-252 | For every interleaving under a positive limit (stack table as a map): live entries of a stack = its count + the mismatches reported on it |
| TrackerThreads.CountsAreRightIffNoMismatch | src/core/basic/crash_investigator_alloc_dealloc_analyze.cpp:167-172 | For every interleaving under a positive limit (stack table as a map): the counts are right iff no delete has reported a mismatch, and no assertion failed before one did |
| TrackerThreads.AssertionFailsIff | src/core/basic/crash_investigator_alloc_dealloc_analyze.cpp:243-245 | For every interleaving under a positive limit (stack table as a map): an update fails an assertion iff it takes a live entry out of a stack all of whose live entries have been mismatched |
| TrackerMismatch.MismatchThenDelete | src/core/basic/crash_investigator_alloc_dealloc_analyze.cpp:243-253 | From every world with a free mutex in which one allocation of a stack is counted: a mismatching delete, and before its report ends the process a correct delete by another thread, fail an assertion; no callback lets the process continue |
| TrackerMismatch.MismatchRaceFails | src/core/basic/crash_investigator_alloc_dealloc_analyze.cpp:243-253 | Such an interleaving from the beginning: new, delete[] and delete in three threads |
| TrackerThreads.EveryRunKeeps | src/core/basic/crash_investigator_alloc_dealloc_analyze.cpp:152-365 | Every reachable state: exactly the mutex holder is in a critical section, every raw block has at most one holder (table or one thread) and is owned, a realloc past its verdict still sees a live Malloc block, the tallies balance |
| TrackerThreads.StepKeepsMutex | src/core/basic/crash_investigator_alloc_dealloc_analyze.cpp:185-186 | Each step keeps: a thread is in a critical section iff it holds the mutex |
| TrackerThreads.StepKeepsClaims | src/core/basic/crash_investigator_alloc_dealloc_analyze.cpp:255-260 | Each step keeps: blocks of the table and blocks in flight are owned and have one holder |
| TrackerThreads.StepKeepsBalance | src/core/basic/crash_investigator_alloc_dealloc_analyze.cpp:208-260 | Each step keeps the balance of registrations, marks, raw frees and verdicts of every address |
| TrackerThreads.OnlyHolderTouchesTables | src/core/basic/crash_investigator_alloc_dealloc_analyze.cpp:209 | While one thread holds the mutex, no step of another thread changes the tables |
| TrackerThreads.DeleteIsAtomic | src/core/basic/crash_investigator_alloc_dealloc_analyze.cpp:208-258 | delete's critical section changes the tables as the whole sequential call does, and leaves towards raw free, callback or libc as the sequential answer says |
| TrackerThreads.AllocIsAtomic | src/core/basic/crash_investigator_alloc_dealloc_analyze.cpp:182-187 | A registration's critical section is the sequential one, leak report included |
| TrackerThreads.MoveIsAtomic | src/core/basic/crash_investigator_alloc_dealloc_analyze.cpp:350-360 | The steps of a moving realloc's critical section add up to the sequential call, whatever other threads do to raw memory in between |
| TrackerThreads.WithinLimitUntilLeakReport | src/core/basic/crash_investigator_alloc_dealloc_analyze.cpp:167-176 | For every interleaving under a positive limit no count exceeds the limit until some allocation reports a leak (stack table as a map) |
| TrackerThreads.LeakReportIff | src/core/basic/crash_investigator_alloc_dealloc_analyze.cpp:167-176 | For every interleaving (stack table as a map), a registering thread goes on to report a leak iff, with its block, the live entries of an equal stack outnumber the limit and the mismatches reported on that stack |
| TrackerThreads.ReallocVerdictIsAtomic | src/core/basic/crash_investigator_alloc_dealloc_analyze.cpp:320-348 | realloc's verdict under the mutex is the sequential one and changes no table |
| TrackerDebts.VerdictsAreReported | src/core/basic/crash_investigator_alloc_dealloc_analyze.cpp:234-252 | For every interleaving, by kind of failure (double free, mismatch, leak, both bad reallocs): verdicts that call for a report = reports made + threads that still owe one; and the process is Exited(what) only at such a report |
| TrackerDebts.MarksAreFreed | src/core/basic/crash_investigator_alloc_dealloc_analyze.cpp:255-260 | For every interleaving: deletes that marked an address = raw frees of it + threads that still owe one; likewise for the calls that pass an unknown address on to libc |
| TrackerDebts.RunKeepsDebts | src/core/basic/crash_investigator_alloc_dealloc_analyze.cpp:200-365 | After every run, everything that threads came to owe when they left the tables has been done once or is owed by one thread each, in step with the tallies of verdicts and frees |
| TrackerDebts.NoReportWhileRunning | src/core/basic/crash_investigator_alloc_dealloc_analyze.cpp:234-252 | Under callbacks that never let the process go on, a running process has made no report: every verdict that calls for one is still owed |
| TrackerDebts.OwedReportEnds | src/core/basic/crash_investigator_alloc_dealloc_analyze.cpp:234-252 | From every running world in which a thread owes a report, that thread's next moves, two at most, end the process with it |
| TrackerDebts.DoubleFreeEndsIff | src/core/basic/crash_investigator_alloc_dealloc_analyze.cpp:234-239 | For every interleaving, a delete that holds the mutex goes on to end the process with a double free iff the address was registered and its registrations are all used up |
| TrackerDebts.LeakReportEndsIff | src/core/basic/crash_investigator_alloc_dealloc_analyze.cpp:167-176 | For every interleaving (stack table as a map), a registering thread goes on to end the process with a leak report iff, with its block, the live entries of an equal stack outnumber the limit and the mismatches reported on that stack |
| TrackerDebts.BadReallocEndsIff | src/core/basic/crash_investigator_alloc_dealloc_analyze.cpp:338-348 | For every interleaving, a realloc that holds the mutex goes on to end the process with BadReallocDeletedMem iff the address has type Malloc and its registrations are used up, with BadReallocCreatedByWrongAlloc iff it has another type |
| TrackerDebts.OwedFreeFrees | src/core/basic/crash_investigator_alloc_dealloc_analyze.cpp:255-260 | From every running world in which a delete owes the raw free of a block, its next moves give that block back |
| TrackerDebts.OwedUnknownFreeFrees | src/core/basic/crash_investigator_alloc_dealloc_analyze.cpp:217-230 | The same for an address that the table does not know, unless the pool takes it |
| TrackerDebts.OwedUnknownReallocTrades | src/core/basic/crash_investigator_alloc_dealloc_analyze.cpp:321-335 | A realloc of such an address trades the block for libc's answer, if there is one |
| TrackerDebts.BlocksAccountedFor | src/core/basic/crash_investigator_alloc_dealloc_analyze.cpp:152-365 | For every interleaving, a block that the raw allocator has handed out is live in the table or in the hands of one thread, unless a client has it from outside the tracker |
| TrackerDebts.AllocCompletes | src/core/basic/crash_investigator_alloc_dealloc_analyze.cpp:264-278 | From every world with a free mutex, an idle thread allocates any free block with any type and stack: live, counted, owned, and reported iff the count exceeds the limit |
| TrackerDebts.DeleteCompletes | src/core/basic/crash_investigator_alloc_dealloc_analyze.cpp:208-260 | From every world with a free mutex, an idle thread deletes a live, counted block with the right type: dead entry, lowered count, block back with the raw allocator, nothing else changed |
| TrackerDebts.MoveCompletes | src/core/basic/crash_investigator_alloc_dealloc_analyze.cpp:350-360 | From every world with a free mutex, an idle thread reallocates such a block of type Malloc to a free place: old block gone and dead, new one live and counted |
| TrackerDebts.InPlaceCompletes | src/core/basic/crash_investigator_alloc_dealloc_analyze.cpp:350-364 | A realloc that leaves its block where it is changes nothing |
| TrackerDebts.BlockIsReused | src/core/basic/crash_investigator_alloc_dealloc_analyze.cpp:152-260 | From every world with a free mutex, three idle threads allocate, delete and again allocate one address: live, then unowned and dead, then live |
| TrackerWild.UnknownFreeIff | src/core/basic/crash_investigator_alloc_dealloc_analyze.cpp:217-230 | In every reachable world with a free mutex, when an unknown address goes to libc: some continuation brings a thread to overwrite an Allocated entry iff that block is tabled or in flight |
| TrackerWild.ClaimedIsOverwritten | src/core/basic/crash_investigator_alloc_dealloc_analyze.cpp:217-230 | The continuation that does so, from every such world |
| TrackerWild.WildFreeOverwrites | src/core/basic/crash_investigator_alloc_dealloc_analyze.cpp:217-230 | A concrete interleaving that reaches such a world: a client frees an address whose malloc is still in flight |
| HashItems.HashItemsByPtr.constructor | src/include/cpputilsm/hashitemsbyptr.impl.hpp:20-34 | An empty, well-formed table of 4096 empty buckets |
| HashItems.HashItemsByPtr.FindEntry | src/include/cpputilsm/hashitemsbyptr.impl.hpp:135-147 | Walks bucket hash % 4096 and returns the item of that chain with the key, null iff there is none |
| HashItems.HashItemsByPtr.Lookup | src/include/cpputilsm/hashitemsbyptr.impl.hpp:135-166 | On a table whose forward links are intact, find is the lookup of the map |
| HashItems.HashItemsByPtr.AddEntryWithKnownHash | src/include/cpputilsm/hashitemsbyptr.impl.hpp:58-90 | As written, adding a fresh key keeps the forward half of the table, sets exactly that key of the map and puts the item first in the iteration; every run of add and find thus agrees with a map |
| HashItems.HashItemsByPtr.AddEntryRepaired | src/include/cpputilsm/hashitemsbyptr.impl.hpp:58-90 | With line 84 writing prevInTheList, adding a fresh key keeps both doubly linked structures well formed and sets exactly that key of the map |
| HashItems.HashItemsByPtr.InsertAsWritten | src/include/cpputilsm/hashitemsbyptr.impl.hpp:67-89 | The pointer writes of lines 67-89, line 84 included, as one update of all link maps |
| HashItems.HashItemsByPtr.RemoveEntry | src/include/cpputilsm/hashitemsbyptr.impl.hpp:112-130 | On a well-formed table removal deletes exactly that key and item and keeps the table well formed; on a table built as written, the next lookups are right iff the item is Harmless, the next iteration iff it was the first item, and no live item keeps a link to the freed one, so that the table stays one built as written, iff it is SafeToRemove: the newest item, with the next newest in the same bucket or absent |
| HashItems.HashItemsByPtr.UnlinkItem | src/include/cpputilsm/hashitemsbyptr.impl.hpp:119-127 | The pointer writes of removal as one update of all link maps |
| HashItems.HashItemsByPtr.Traverse | src/include/cpputilsm/hashitemsbyptr.impl.hpp:104-187 | begin and ++ visit every live item exactly once, in insertion order from the newest |
| HashItems.HashItemsByPtr.Destroy | src/include/cpputilsm/hashitemsbyptr.impl.hpp:37-53 | The destructor frees every item exactly once and reads none that it has freed |
| HashItems.Line84LosesAKey | src/include/cpputilsm/hashitemsbyptr.impl.hpp:84 | A checked trace: three keys added as written, the middle one removed, and find no longer finds a key of another bucket that the map still holds |
| HashLinks.InsertKeepsCore | src/include/cpputilsm/hashitemsbyptr.impl.hpp:58-90 | Insertion keeps chains, list, keys and map in agreement, whichever back link line 84 writes |
| HashLinks.RepairedInsertKeepsWellFormed | src/include/cpputilsm/hashitemsbyptr.impl.hpp:58-90 | Repaired insertion keeps forward and backward links of all chains and of the list |
| HashLinks.WrittenInsertKeepsBack | src/include/cpputilsm/hashitemsbyptr.impl.hpp:84 | What the back links look like after any number of insertions as written |
| HashLinks.RemoveKeepsWellFormed | src/include/cpputilsm/hashitemsbyptr.impl.hpp:112-130 | Removal from a well-formed table unlinks exactly that item from chain and list and deletes exactly its key |
| HashLinks.WrittenRemoveChains | src/include/cpputilsm/hashitemsbyptr.impl.hpp:112-130 | From any table built as written, also after removals that passed the test: the exact chains after a removal |
| HashLinks.WrittenRemoveFindsIff | src/include/cpputilsm/hashitemsbyptr.impl.hpp:112-147 | From any such table: after a removal every lookup still answers as the map iff the removed item was Harmless, a test that can be made before the call |
| HashLinks.WrittenRemoveListIff | src/include/cpputilsm/hashitemsbyptr.impl.hpp:123-125 | From any such table: after a removal the walk from the first item meets exactly the remaining items iff the removed one was first; otherwise it runs into the removed node |
| HashLinks.WrittenRemoveCleanIff | src/include/cpputilsm/hashitemsbyptr.impl.hpp:112-130 | From any such table: after a removal no live item links to the freed one iff it was SafeToRemove, a test that can be made before the call |
| HashLinks.WrittenRemoveStaysIff | src/include/cpputilsm/hashitemsbyptr.impl.hpp:112-130 | From any such table: the pointers after a removal can still be read as a table built as written iff the removed item was SafeToRemove |
| HashLinks.SafeRemoveKeepsWritten | src/include/cpputilsm/hashitemsbyptr.impl.hpp:112-130 | A removal that passes the test takes away exactly that item and its key |
| HashRuns.SafeRunAgrees | src/include/cpputilsm/hashitemsbyptr.impl.hpp:58-147 | As written: after every run of additions of new keys and removals that pass the test, the pointers are those of a table built as written, and every lookup answers as the map of the run |
| HashRuns.CleanIffSafe | src/include/cpputilsm/hashitemsbyptr.impl.hpp:58-147 | As written: a run never leaves a live item with a link to a freed one iff every removal of it passes the test |
| HashItems.Line84LeavesALink | src/include/cpputilsm/hashitemsbyptr.impl.hpp:84-121 | A checked trace: two keys added as written, the newest removed; lookups and iteration survive, but the other item's prev points at the freed one, so that its removal would write there |
| HashItems.HashItemsByPtr.SetValue | src/include/cpputilsm/hashitemsbyptr.impl.hpp:164-187 | Assignment through an iterator changes exactly that key of the map and keeps all links |
| StackItems.CountStack | src/core/basic/crash_investigator_alloc_dealloc_analyze.cpp:167-176 | The registration's part of the stack table, with line 84 as written or repaired, on a table in order: the map gets the raised count, the table stays in order, and the leak test is exact |
| StackItems.TakeOutOfStack | src/core/basic/crash_investigator_alloc_dealloc_analyze.cpp:242-245 | The decrement and removal, on a table in order: the map gets the lowered count; repaired, the table stays well formed; as written, every stack is still found iff the removed item was Harmless, and the table stays in order iff it was SafeToRemove |
| StackItems.TestSafeToTakeOut | src/include/cpputilsm/hashitemsbyptr.impl.hpp:112-130 | As written: whether a removal will be safe can be tested before it, on the pointers of the item |
| StackItems.StacksFoundIff | src/core/basic/crash_investigator_alloc_dealloc_analyze.cpp:242-256 | As written: when the last live allocation of a stack is released, the stacks of all live entries are still found, so that later assertions hold, iff the removed item was Harmless |
| StackItems.FoundIffExact | src/core/basic/crash_investigator_alloc_dealloc_analyze.cpp:242-245 | With right counts, the stack of every live entry is found iff lookups answer as the map |
| StackItems.Line84FailsTheAssertion | src/core/basic/crash_investigator_alloc_dealloc_analyze.cpp:242-245 | A checked trace: five calls that are a legal run without any failure over maps, whose last assertion fails over the stack table as written |
| StackItems.FiveCalls | src/core/basic/crash_investigator_alloc_dealloc_analyze.cpp:197-278 | These five calls are a legal run that ends with the process running, when the stack table is a map |
| Stacks.SameStackReflexiveIff | src/core/backtrace/crash_investigator_backtrace_unix.cpp:29-34 | IsTheSameStack is reflexive exactly on stacks with at least one frame |
| Stacks.HashOfTheStack | src/core/backtrace/crash_investigator_backtrace_unix.cpp:36-44 | The loop computes the sum of frame_i * 1000^i modulo 2^64 |
| Stacks.HashSeesTwentyTwoFrames | src/core/backtrace/crash_investigator_backtrace_unix.cpp:36-44 | The hash depends on no frame after the 22nd, because 1000^22 vanishes modulo 2^64 |
| Stacks.TwentySecondFrameCounts | src/core/backtrace/crash_investigator_backtrace_unix.cpp:36-44 | The 22nd frame still changes the hash |
| Stacks.BucketSeesFourFrames | src/include/cpputilsm/hashitemsbyptr.impl.hpp:139 | The bucket index modulo 4096 depends on no frame after the fourth |
| Stacks.FourthFrameCounts | src/include/cpputilsm/hashitemsbyptr.impl.hpp:139 | The fourth frame still changes the bucket |
| Stacks.SameStackSameBucket | src/include/cpputilsm/hashitemsbyptr.impl.hpp:139 | Equal stacks meet in one bucket |
| AlignedNew.RoundAlignment | src/core/basic/crash_investigator_alloc_dealloc_analyze.cpp:380-400 | The smearing steps compute the final alignment, a least power of two |
| AlignedNew.LeastPowerOfTwo | src/core/basic/crash_investigator_alloc_dealloc_analyze.cpp:380-400 | For every request up to 2^63 the final alignment is the least power of two that is at least the request and the default |
| AlignedNew.ZeroExactlyBeyondTop | src/core/basic/crash_investigator_alloc_dealloc_analyze.cpp:386-393 | The rounding yields 0 iff the request exceeds 2^63 |
| AlignedNew.AlignSucceedsIff | src/core/basic/crash_investigator_alloc_dealloc_analyze.cpp:402-411 | std::align succeeds for every raw address iff the size sum does not wrap around, and then the aligned address has count bytes inside the block |
| AlignedNew.ReturnedIsRegisteredIff | src/core/basic/crash_investigator_alloc_dealloc_analyze.cpp:411-413 | The returned address is the registered one iff the raw address was already aligned |
| AlignedNew.NewAligned | src/core/basic/crash_investigator_alloc_dealloc_analyze.cpp:370-418 | bad_alloc or null iff the size is 0, the raw block is null or the size sum wraps; asks for (count + align + 8) modulo 2^64 bytes; otherwise the aligned address less than align above the raw one, with count bytes inside the block, while the raw address is registered |
| PoolSpec.EveryRunTiles | src/cpputilsm/cpputilsm_memorypool.cpp:24-171 | After every run of alloc, free and realloc of live blocks the blocks tile [0, m_unOffset) exactly, the last one is in use, and the end is below the buffer size |
| PoolSpec.TilesExactly | src/cpputilsm/cpputilsm_memorypool.cpp:24-45 | Every offset below m_unOffset belongs to exactly one block |
| PoolSpec.HeadersApart | src/cpputilsm/cpputilsm_memorypool.cpp:24-45 | No header byte is a payload byte of any block |
| PoolSpec.LivePayloadsDisjoint | src/cpputilsm/cpputilsm_memorypool.cpp:24-45 | Payloads of different blocks never overlap |
| PoolSpec.AllocAddsOne | src/cpputilsm/cpputilsm_memorypool.cpp:24-45 | Allocation adds exactly one live interval, beyond all others |
| PoolSpec.FreeRemovesOne | src/cpputilsm/cpputilsm_memorypool.cpp:127-171 | Freeing removes exactly one live interval, whether the block is reclaimed or only marked |
| PoolSpec.ReallocTouchesOne | src/cpputilsm/cpputilsm_memorypool.cpp:60-111 | realloc leaves every other live interval alone; the block survives with the new size, stays with the old one, or is lost |
| PoolSpec.ReallocGrants | src/cpputilsm/cpputilsm_memorypool.cpp:66-100 | The exact grant: for count != 0 the last block comes back at its offset iff count is its old size or its payload offset + count lies below the buffer size; an inner block comes back, behind the used part unless it keeps its size, iff count is its old size or the end of the used part + 32 + count lies below the buffer size; the payload that comes back is live with size count |
| PoolSpec.FreeingAllEmpties | src/cpputilsm/cpputilsm_memorypool.cpp:127-171 | Freeing all live blocks in any order returns the pool to its empty state |
| PoolSpec.AllocGuardExact | src/cpputilsm/cpputilsm_memorypool.cpp:26-28 | A request that the guard lets through really fits iff the size computation did not wrap around |
| PoolSpec.GrowGuardExact | src/cpputilsm/cpputilsm_memorypool.cpp:79-91 | An in-place growth that the guard lets through really fits, and leaves m_unOffset at the end of the block, iff payload and size do not wrap around; otherwise m_unOffset falls before the payload |
| PoolSpec.HugeGrowthGranted | src/cpputilsm/cpputilsm_memorypool.cpp:79-91 | A concrete growth to 2^64 - 1 bytes that the guard lets through, moving m_unOffset into the block's own header |
| PoolSpec.HugeRequestGranted | src/cpputilsm/cpputilsm_memorypool.cpp:26-28 | A concrete request of 2^64 - 32 bytes that the guard lets through |
| MemoryPool.MemoryPoolBase.constructor | src/cpputilsm/cpputilsm_memorypool.cpp:15-21 | An empty pool over the given buffer |
| MemoryPool.MemoryPoolBase.Alloc | src/cpputilsm/cpputilsm_memorypool.cpp:24-45 | Answers with the payload behind the used part iff end + 32 + count lies below the buffer size, and null otherwise, in plain numbers; the payload is live with that size; changes no byte of any payload; headers in the buffer keep spelling the blocks, linked both ways |
| MemoryPool.MemoryPoolBase.AllocZeroed | src/cpputilsm/cpputilsm_memorypool.cpp:51-55 | The same with a payload of zeros |
| MemoryPool.MemoryPoolBase.Calloc | src/cpputilsm/cpputilsm_memorypool.cpp:48-56 | As Alloc for the product modulo 2^64, with a payload of zeros |
| MemoryPool.MemoryPoolBase.Realloc | src/cpputilsm/cpputilsm_memorypool.cpp:60-111 | For every size whose computation does not wrap around or is not let through: accepts null and addresses inside the buffer; the returned pointer is the exact grant of PoolSpec.ReallocGrants, in plain numbers; no payload byte changes, and every byte from the returned payload on is the one that stood there before |
| MemoryPool.MemoryPoolBase.ReallocChecked | src/cpputilsm/cpputilsm_memorypool.cpp:66-100 | The five outcomes of realloc, as blocks and as returned pointer in plain numbers: grown or shrunk in place iff the room suffices, moved iff there is room behind the used part; the returned payload holds the bytes that stood there before, so that a moved block does not hold the caller's |
| MemoryPool.ReallocKeepsBytesIff | src/cpputilsm/cpputilsm_memorypool.cpp:73-98 | A realloc that answers with a payload keeps the first min(old, new) bytes for every contents of the buffer iff the block has that size already, is the last one, or has no byte |
| MemoryPool.MovedBlockLosesItsByte | src/cpputilsm/cpputilsm_memorypool.cpp:94-98 | A concrete run: two blocks of 8 bytes, a 7 in the first one, which grows to 16 bytes; the call succeeds and the 7 is not there |
| MemoryPool.MemoryPoolBase.Dealloc | src/cpputilsm/cpputilsm_memorypool.cpp:115-124 | True iff the address lies inside the buffer; then exactly that block is freed |
| MemoryPool.MemoryPoolBase.DeallocCheckedMemory | src/cpputilsm/cpputilsm_memorypool.cpp:127-171 | Marks an inner block, or reclaims the last one with all dead blocks before it, changing no payload byte |
| MemoryPool.MemoryPoolBase.ReclaimTail | src/cpputilsm/cpputilsm_memorypool.cpp:134-163 | The backward walk ends, with decreasing block offset, at the last live block |
| MemoryPool.ClientWriteKeepsHeaders | src/cpputilsm/cpputilsm_memorypool.cpp:24-45 | Whatever clients write into payloads, the headers still spell the same blocks |
| LeakOnlySpec.AllocKeepsCounted | src/core/analyze/crash_investigator_analyze_leak_only_new_delete.cpp:355-404 | Every allocation keeps counts equal to entries per stack, also over a stale entry; the assertion fails iff the address has an entry and assertions are compiled in; a leak is reported iff, counting itself, the stack has more entries than the limit and more than one |
| LeakOnlySpec.FreeKeepsCounted | src/core/analyze/crash_investigator_analyze_leak_only_new_delete.cpp:426-435 | A free keeps counts equal to entries per stack and leaves no entry for the address |
| LeakOnlySpec.TakingOutKeepsCounted | src/core/analyze/crash_investigator_analyze_leak_only_new_delete.cpp:306-325 | The stack of an existing entry is always found, with a count that is not 0 |
| LeakOnlySpec.EveryRunRemembers | src/core/analyze/crash_investigator_analyze_leak_only_new_delete.cpp:331-439 | After every sequence of allocations and frees, as long as the process runs, the table holds exactly the outstanding allocations with their stacks, read off the calls alone, and the counts are right |
| LeakOnlySpec.LeakReportExact | src/core/analyze/crash_investigator_analyze_leak_only_new_delete.cpp:357-403 | After every run the next tracked allocation fails the assertion iff its address is still outstanding and assertions are compiled in; otherwise it reports a leak iff, with itself, more allocations from an equal stack are outstanding than the limit, and more than one |
| LeakOnly.Analyzer.constructor | src/core/analyze/crash_investigator_analyze_leak_only_new_delete.cpp:279-301 | Empty tables that own no Backtrace objects |
| LeakOnly.Analyzer.AllocMem | src/core/analyze/crash_investigator_analyze_leak_only_new_delete.cpp:331-409 | Tables change as specified; exactly the Backtrace objects of entries and keys stay allocated, pairwise distinct; untracked while the flags say so |
| LeakOnly.Analyzer.RecordBlock | src/core/analyze/crash_investigator_analyze_leak_only_new_delete.cpp:354-405 | The critical section, in both builds: assertion, or removal of the stale entry with its objects |
| LeakOnly.Analyzer.FreeMemAnalyze | src/core/analyze/crash_investigator_analyze_leak_only_new_delete.cpp:411-439 | Removes the entry, frees its object once, and its key object once with the last count |
| LeakOnly.Analyzer.FreeMem | src/core/analyze/crash_investigator_analyze_leak_only_new_delete.cpp:442-451 | Every address goes to the raw free exactly once, and only after its entry is gone |
| LeakOnly.Analyzer.FreeBacktraceData | src/core/analyze/crash_investigator_analyze_leak_only_new_delete.cpp:476-482 | An object is freed only while it is still allocated |
| LeakOnly.Analyzer.TakeStackOut | src/core/analyze/crash_investigator_analyze_leak_only_new_delete.cpp:306-325 | Lowers the stack's count, or removes and frees the key with the last one |
| LeakOnly.Analyzer.TakeEntryOut | src/core/analyze/crash_investigator_analyze_leak_only_new_delete.cpp:432-435 | Entry, its object and its share of the count go together |
| LeakOnly.Analyzer.CountStack | src/core/analyze/crash_investigator_analyze_leak_only_new_delete.cpp:374-404 | The first count comes with a clone as its key, later ones raise it; the leak report gives the mutex back |
| LeakOnly.Analyzer.FindStack | src/core/analyze/crash_investigator_analyze_leak_only_new_delete.cpp:203-208 | Lookup by stack equality finds the one key object of that stack |
| LeakThreads.AssertNeverFires | src/core/analyze/crash_investigator_analyze_leak_only_new_delete.cpp:342-372 | For every interleaving of clients that delete only what they own, in both builds: an address from raw malloc has no entry when the mutex is held, so the assertion cannot fail; all table addresses are blocks handed out; counts are right |
| LeakThreads.EveryRunKeeps | src/core/analyze/crash_investigator_analyze_leak_only_new_delete.cpp:331-451 | Every reachable state: mutex holder, single holders of blocks, entries only for blocks of clients or of threads on their way, right counts |
| LeakThreads.StepKeepsClaims | src/core/analyze/crash_investigator_analyze_leak_only_new_delete.cpp:420-449 | Each step keeps: a block belongs to the clients or to one thread, and is owned |
| LeakThreads.StepKeepsEntries | src/core/analyze/crash_investigator_analyze_leak_only_new_delete.cpp:426-435 | Each step keeps: an entry goes before its block goes to raw free |
| LeakThreads.LibraryFreeIff | src/core/analyze/crash_investigator_analyze_leak_only_new_delete.cpp:362-369 | A library that frees a client's block behind the tracker's back leaves the tables right iff the block had no entry |
| LeakThreads.StaleEntryOutcome | src/core/analyze/crash_investigator_analyze_leak_only_new_delete.cpp:359-370 | Reusing such an address fails the assertion iff assertions are compiled in; otherwise the entry is replaced and the counts stay right |
| LeakBlocks.BlocksAccountedFor | src/core/analyze/crash_investigator_analyze_leak_only_new_delete.cpp:331-451 | For every interleaving, a block that the raw allocator has handed out belongs to a client or to one thread, unless it was allocated outside the tracker: none is lost on its way to raw free |
| LeakBlocks.DeleteCompletes | src/core/analyze/crash_investigator_analyze_leak_only_new_delete.cpp:411-451 | From every reachable world with a free mutex, an idle thread deletes a client's block or null: entry gone, then the block back with the raw allocator, nothing else changed |
| LeakBlocks.AllocCompletes | src/core/analyze/crash_investigator_analyze_leak_only_new_delete.cpp:331-409 | From every reachable world with a free mutex, an idle thread allocates a free block: the client gets it, with an entry |
| LeakBlocks.UntrackedCompletes | src/core/analyze/crash_investigator_analyze_leak_only_new_delete.cpp:342-352 | Without a captured stack the client gets the block and the tables do not change |
| LeakBlocks.BlockIsReused | src/core/analyze/crash_investigator_analyze_leak_only_new_delete.cpp:331-451 | From every such world one address is allocated, deleted and allocated again: with an entry, then neither owned nor with an entry, then with an entry |
| LeakBlocks.LeakReportEndsIff | src/core/analyze/crash_investigator_analyze_leak_only_new_delete.cpp:386-403 | For every interleaving, a registering thread goes on to end the process with a leak report iff the block is a late one, an equal stack has an entry already, and with this block its entries outnumber the limit |
| Routing.OffsetGuardExact | src/cpputilsm/cpputilsm_memorypool.cpp:117-118 | The pool's wrapping offset test accepts exactly the addresses inside its buffer |
| Routing.Process.constructor | src/core/basic/crash_investigator_alloc_dealloc_unix.cpp:35-43 | Nothing initialised, empty pool, flag clear |
| Routing.Process.InitFunction | src/core/basic/crash_investigator_alloc_dealloc_unix.cpp:45-61 | Runs once; whatever dlsym calls in between, pthread_once is not entered again, and the original functions are known afterwards |
| Routing.Process.Mallocn | src/core/basic/crash_investigator_alloc_dealloc_unix.cpp:88-95 | During InitFunction memory comes from the pool, and only while the reentrancy flag is set; otherwise from libc, with the original function known |
| Routing.Process.Freen | src/core/basic/crash_investigator_alloc_dealloc_unix.cpp:122-130 | During InitFunction the address is offered to the pool, which ignores foreign ones; otherwise it goes to libc |
| Routing.Process.Reallocn | src/core/basic/crash_investigator_alloc_dealloc_unix.cpp:98-109 | During InitFunction the pool serves the request or answers null; otherwise libc does |
| Routing.Process.PoolDealloc | src/core/basic/crash_investigator_alloc_dealloc_unix.cpp:70-73 | The pool accepts exactly addresses inside its buffer, and frees the block of that payload |
| Routing.Process.PoolRealloc | src/core/basic/crash_investigator_alloc_dealloc_unix.cpp:64-67 | The pool accepts null and addresses inside its buffer, and answers for the block of that payload as PoolSpec says |
| Routing.Process.TestOperatorAlloc | src/core/basic/crash_investigator_alloc_dealloc_analyze.cpp:264-278 | With the flag clear the block is libc's answer, or null for size 0, and becomes a table key if it is not null, so no pool address does; with the flag set the table does not change, and after InitFunction libc answers |
| Routing.Process.TestOperatorDelete | src/core/basic/crash_investigator_alloc_dealloc_analyze.cpp:200-231 | With the flag clear: a live key, and an unknown address outside the pool, end with libc taking exactly this address, and the key is dead; a dead key reaches no allocator; a pool address goes to the pool. With the flag set: everything goes to libc after InitFunction, pool addresses too |
| Routing.Process.DeleteKnown | src/core/basic/crash_investigator_alloc_dealloc_analyze.cpp:234-260 | A live key is marked and ends in libc's free; a dead one does not |
| Routing.Process.DeleteUnknown | src/core/basic/crash_investigator_alloc_dealloc_analyze.cpp:217-230 | An unknown address goes to the pool if it is the pool's, otherwise to libc |
| Routing.Process.TestOperatorReAlloc | src/core/basic/crash_investigator_alloc_dealloc_analyze.cpp:298-336 | With the flag clear: a live key, and an unknown address outside the pool, end with libc taking this address and giving its answer, which takes the key's place if it differs; a dead key gets null; a pool address stays with the pool. With the flag set libc answers after InitFunction |
| Routing.Process.ReallocKnown | src/core/basic/crash_investigator_alloc_dealloc_analyze.cpp:338-360 | A live key ends in libc's realloc, and its answer takes the key's place if it differs; a dead one gets null |
| Routing.Process.ReallocUnknown | src/core/basic/crash_investigator_alloc_dealloc_analyze.cpp:321-336 | An unknown address goes to the pool if it is the pool's, otherwise to libc |
| Routing.Process.AllocInOtherThread | src/core/basic/crash_investigator_alloc_dealloc_unix.cpp:88-95 | s_isInitFunction is shared: a malloc in another thread with its own flag clear makes a pool address a table key iff some thread is inside InitFunction at that time, the size is not 0 and the pool has room; otherwise it answers with libc's block, or null |
| Routing.PoolBlockGoesToLibc | src/core/basic/crash_investigator_alloc_dealloc_unix.cpp:122-130 | A concrete run in which libc is handed a pool block: allocated inside InitFunction, freed later by a call nested in a tracked one |
| Routing.Process.Perform | src/core/basic/crash_investigator_alloc_dealloc_unix.cpp:45-130 | Any tree of calls: table keys are never pool addresses, pool memory is handed out only under the flag, libc is only called once known, flags are restored, and provoked calls change no key |

## Left out

- MemoryPool.MemoryPoolBase.Alloc: requires that the size computation does not wrap around past the guard; what such a request does to the buffer is not described (PoolSpec.AllocGuardExact says which requests these are).
- MemoryPool.MemoryPoolBase.Calloc: the same, for the product of the sizes.
- MemoryPool.MemoryPoolBase.Realloc: the same, for the growth of the last block (PoolSpec.GrowGuardExact) or the allocation that it comes to; sizes that the guards turn down are included.
- MemoryPool.MemoryPoolBase.ReallocChecked: as Realloc.
- MemoryPool.MemoryPoolBase.Dealloc: a pool address that is not the payload of a live block is the caller's error and is not described.
- AlignedNew.NewAligned: requires a non-zero alignment; a request beyond 2^63 rounds to 0 (AlignedNew.ZeroExactlyBeyondTop), for which std::align is not specified.
- TrackerThreads.RegistrationOverwritesOnlyDead: clients that hand libc a tabled or in-flight block through the unknown path are excluded; TrackerWild.UnknownFreeIff says that this exclusion is exact.
- HashItems.HashItemsByPtr.RemoveEntry: a table as written with a link to a freed item left over from an earlier removal is excluded; removing from it may write to freed memory.
- StackItems.CountStack: such a table is excluded here too.
- StackItems.TakeOutOfStack: such a table is excluded here too.
- Tracker.CrashInvestAnalizer.CallClbk: retrying the operation (FailureAction::MakeAction) is not modelled.
- Tracker.CrashInvestAnalizer.AddNewAllocatedMemoryAndCleanOldEntryNoLock: the freeing of the overwritten entry's traces is not modelled.
- LeakOnly.Analyzer.RecordBlock: the build with NDEBUG outside MSVC is not modelled.
- LeakOnly.Analyzer.FreeMemAnalyze: a nested delete, which reads the table without the mutex, is not modelled.
- The address table of the allocation tracker is a map here; as written, HashItemsByPtr behaves as one under the additions, lookups and assignments that this table is used for (HashItems.HashItemsByPtr.AddEntryWithKnownHash, Lookup and SetValue). The contributed hash of the leak-only tracker is not part of this model.
- Stacks are values in the allocation tracker. So neither the freeing of an allocTrace object that is still a key of the stack table (lines 162-164 of the analyzer) is modelled, nor that of an entry's own allocTrace after a leak report that the callback lets continue (lines 706-707 with 174). Backtrace objects are modelled in the leak-only tracker.
- The callback is reduced to whether the process goes on; messages, and the SIGSEGV handler with its report of unknown addresses are not modelled.
- MemoryStatus::DoesNotExistAtAll, which only the SIGSEGV handler uses, and the Windows-only code.
- Aligned new is modelled for its arithmetic; its registration is that of TestOperatorAlloc for the raw address.
- The leak-only tracker's flag g_initOrExitOngoing is taken as clear between initialisation and exit; its unlocked access from a nested call (lines 421-424) touches no entry and is not modelled.
- In Routing one thread runs, apart from AllocInOtherThread; the tracker's table keeps only which addresses are Allocated, and reports end the call.
- Alignment of pool blocks, symbol lookup, printing, stack capture, the shutdown report, and crash_investigator_analyze_leak_only_new_delete_std_hash.cpp, a near copy of the leak-only tracker.
