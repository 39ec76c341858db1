# Redzone: verified model of the race detector and the heap checker

Redzone has two run-time components, each a fast mechanism that must agree with a simple
specification. This project models both in Dafny and proves the agreement.

**The happens-before race detector.** Threads and lock objects carry vector clocks; every
8-byte word keeps up to four recorded access cells in a sharded open-addressing table.

- `HappensBefore` defines the ordering of a recorded run (program order, release to every
  later acquire of the same object, creation to child, child to join) without any clock.
- `VectorClock` and `ClockProtocol` hold the clocks; the main result is that they decide
  exactly that relation, in both directions, for every run.
- `Cells` and `Detection` hold the check and the lossy recording: no report is false; with
  at most four threads on a word the verdicts are exact; with more, the last access and the
  threads in the last three cells are never forgotten.
- `ProbeTable`, `Shards` and `Detector` are the imperative runtime: clock arrays updated in
  place, probing with linear search, 64 shards, the multi-word access loop. Every entry
  point is proved against the recorded run.
- `LockWrappers` and `Atomics` interleave real lock (or memory) steps and recording steps
  of all threads, and prove that disciplined and published data are never reported.

**The shadow-memory heap checker and the pass that thins its checks.**

- `Shadow` gives the byte-per-8 encoding and the layout of red-zoned objects: a byte is
  poisoned exactly when the layout says so, and two endpoints stand for up to 17 bytes.
- `Memory` and `Heap` hold the block table, the headers in the red zones and whole runs of
  the allocator; `Frames` adds stack and global zones and the pass's padding; `Runtime` is
  the imperative runtime over that state.
- `Endpoints` shows, over every reachable state, how far the first and last byte of an
  access speak for the rest: the runtime's check, its inlined form, one check for another.
- `Selective` is the pass's skip analysis over a basic block, with a static condition under
  which it changes no verdict; `SelectiveExact` proves that the condition is exact for every
  block, by building from a real run an execution that tells the two blocks apart.
- `Leaks` is the exit report, collapsed by site, and what it says about a whole run.
- `Bits` gives the masking arithmetic the other modules rely on.

Where the code and its documentation differ, the code is followed:

- A release *joins* into the lock's clock (`runtime/redzone_race.c:156`);
  `docs/design/data-race-detection.md:107` assigns it. The reader-writer result needs the join.
- `runtime/redzone_race_rt.h:20` speaks of one global lock; the code has 64 shadow shards and
  16 sync shards, and the steps of the model are the sections under one of those locks.
- The pass's comment (`src/RedzonePass.cpp:577-582`) calls the redundancy rule free of false
  negatives. Whatever the block, that holds exactly when each access dropped as redundant is
  *sheltered* or never reached (`SelectiveExact.ThinningExact`). Sheltered means: its last
  byte is not in a red zone of its own variable, and no whole poisoned run fits over it
  between the bytes that kept checks test and the slot of its own variable. Never reached
  means: an earlier kept check goes, by its constant offset, into a red zone of its own
  variable. With accesses of at most 17 bytes it always holds
  (`Selective.ShortAccessesAreSound`). One check alone stands for a shorter one at the same
  address exactly when it is of at most 17 bytes, or of the same size, or the shorter access
  is one byte (`Endpoints.RedundancyRuleExact`).
- The comment on bulk operations (`runtime/redzone_rt.c:1003-1005`) calls two endpoints
  sufficient for any contiguous range. They are for up to 17 bytes, and for a longer range
  inside one object's extent; `Endpoints.EndpointsExact` shows that 17 is the exact bound.
- The comment above the header lookup (`runtime/redzone_rt.c:284-286`) calls the header read
  safe once the shadow test passes. The read stays inside a block exactly when the pointer is
  at least 16 bytes above the block's base and not past its end (`Heap.HeaderReadInside`); 8
  bytes above the base it starts outside (`Heap.HeaderReadSpills`). A 16-aligned pointer is
  never too low.

Assumptions, all stated as preconditions or as guards of steps: the runtime's own bookkeeping
allocations succeed; the system allocator returns 16-aligned, mutually disjoint blocks below
2^47; a joined thread records nothing further; thread ids are handed out in order; an access
does not wrap around the address space, and an instrumented one stays below 2^47, because the
inlined check has no range guard; the static allocations of a function come before its first
access, so that no stack enter falls between two accesses of one block.

## Model

| member | source | states |
|---|---|---|
| VectorClock.JoinIsLub | runtime/redzone_race.c:15-19 | joining clocks gives the least upper bound of the entrywise order, so no join order or repetition matters |
| VectorClock.VcInit | runtime/redzone_race.c:8 | the in-place reset leaves the zero clock |
| VectorClock.VcTick | runtime/redzone_race.c:10-13 | the in-place tick is the specification's tick, ids of 64 and above included |
| VectorClock.VcJoin | runtime/redzone_race.c:15-19 | the in-place loop computes the join, also when both arguments are one clock |
| VectorClock.VcCopy | runtime/redzone_race.c:21 | the copy equals its source |
| HappensBefore.HBTransitive | runtime/redzone_race.h:120-125 | happens-before is transitive |
| HappensBefore.HBPrefix | runtime/redzone_race.h:120-125 | what orders two events is fixed when the later one happens |
| ClockProtocol.HBUnfold | runtime/redzone_race.c:152-175 | an event is preceded by exactly what its thread knew and what it imports |
| ClockProtocol.NewEpochThread | runtime/redzone_race.c:152-172 | a new event's epoch is ahead of every other thread's clock except a child it creates |
| ClockProtocol.NewEpochSync | runtime/redzone_race.c:152-158 | a new event's epoch is covered by a lock clock exactly when the event releases that lock |
| ClockProtocol.ClockInvariant | runtime/redzone_race.c:64-68 | after every prefix of every run, each thread and lock clock covers exactly the events that precede it, and nobody has caught up with a running thread's epoch |
| ClockProtocol.ClocksDecideHappensBefore | runtime/redzone_race.c:23-36 | for any two events of any run, the earlier epoch is covered by the later thread's clock if and only if the earlier event happens before the later one |
| ClockProtocol.NextIsFirstUnused | runtime/redzone_race.c:64-68 | the ids below the next one are exactly those of the threads that have begun |
| Cells.WhoMayRecord | runtime/redzone_race.c:152-175 | a running thread may always acquire, release and access, join any other thread that has begun, and create one with the first unused id; nobody else may act |
| Cells.RecordKeepsAccess | runtime/redzone_race.c:115-142 | whatever the row, an access is recorded, and at most one other cell pays for it: the thread's own, a free one, or the first of a row full of others |
| Cells.SlotFor | runtime/redzone_race.c:115-127 | the slot is the thread's first own cell, else the first free cell, else cell 0 |
| Cells.CheckRow | runtime/redzone_race.c:105-113 | the loop reports exactly when some cell fails the check, and returns the first such cell |
| Cells.ChooseSlot | runtime/redzone_race.c:117-127 | the slot loop finds the specified slot |
| Cells.CheckAndRecord | runtime/redzone_race.c:105-143 | verdict, conflicting cell and new row of one access |
| Cells.CellsAreGenuine | runtime/redzone_race.c:129-142 | every cell of a tracked run, merged or not, records a real access of that thread, kind and epoch |
| Cells.RacingCellIsARace | runtime/redzone_race.c:109-113 | the cell handed to the report describes an earlier access that really races |
| Cells.ReportedIsARace | runtime/redzone_race.c:94-144 | no false positives: a report implies an earlier conflicting access by another thread not ordered by happens-before, whatever was evicted and however many threads there are |
| Detection.NoEviction | runtime/redzone_race.c:126-127 | evicting would need more than four threads on the word |
| Detection.CellsAreFaithful | runtime/redzone_race.c:115-142 | with at most four threads on a word, each has one cell, at its latest epoch, marked a write exactly when that epoch wrote |
| Detection.WriteReportedIff | runtime/redzone_race.c:105-143 | a write is reported if and only if an earlier access by another tracked thread is unordered with it |
| Detection.ReadReportedIff | runtime/redzone_race.c:105-143 | a read is reported if and only if another tracked thread's latest-epoch accesses include an unordered write |
| Detection.LastAccessIsRemembered | runtime/redzone_race.c:126-142 | with any number of threads: if the access just before, by another tracked thread, races with j, then j is reported |
| Detection.OneCellEach | runtime/redzone_race.c:115-127 | with any number of threads, a thread never has two cells of a word |
| Detection.OnlyFirstIsEvicted | runtime/redzone_race.c:126-127 | a thread in another cell than the first keeps it for good |
| Detection.SettledAccessIsRemembered | runtime/redzone_race.c:115-142 | with any number of threads: the latest access of such a thread, if it races with j, makes j a reported one |
| ProbeTable.MaskedSlot | runtime/redzone_race.c:78-81 | masking is the wrap-around of the probe for a power-of-two table |
| ProbeTable.HashBits | runtime/redzone_race.c:76-79 | on a power-of-two table the hash is the remainder of the 64-bit product |
| ProbeTable.ProbesCover | runtime/redzone_race.c:80-81 | the probe sequence reaches every bucket |
| ProbeTable.SoundIsUnique | runtime/redzone_race.c:74-92 | no word occupies two buckets |
| ProbeTable.EmptyStops | runtime/redzone_race.c:84-86 | an empty bucket on the probe path means the word is nowhere in the table |
| ProbeTable.ExhaustedIsFull | runtime/redzone_race.c:91 | a probe that finds no place has met a full table without the word |
| ProbeTable.ClaimKeepsSound | runtime/redzone_race.c:84-88 | claiming the first empty bucket keeps every stored word findable |
| ProbeTable.MapAfterWrite | runtime/redzone_race.c:74-92 | the table stands for a finite map: a bucket write changes one word's entry |
| ProbeTable.RaceTable.Probe | runtime/redzone_race.c:80-91 | the probe loop ends at the word's bucket, at the bucket it may claim, or nowhere in a full table |
| ProbeTable.RaceTable.FindBucket | runtime/redzone_race.c:74-92 | a stored word is found again; an absent one is placed exactly when creation is allowed and a bucket is empty |
| ProbeTable.RaceTable.AccessLoc | runtime/redzone_race.c:94-144 | one access checks and records its word's row and no other; a word without room is skipped in silence |
| Shards.ShardBits | runtime/redzone_race_rt.c:42-44 | a word's shard is given by bits 40 to 45 of the product |
| Shards.VerdictAgrees | runtime/redzone_race_rt.c:409-415 | a shard's verdict is the unbounded map's verdict for a word that owns a bucket, and silence otherwise |
| Shards.AllAgreeAfterAccess | runtime/redzone_race_rt.c:42-44 | one access through the routed shard refines one access of the unbounded map, and changes ownership of no other word |
| Shards.ShardedShadow.Access | runtime/redzone_race_rt.c:409-415 | the routed access computes the verdict, keeps the refinement, takes no bucket from any word, and leaves the word without one only in a full shard |
| Detector.ClockStore.ThreadInit | runtime/redzone_race.c:64-68 | registering a thread is the protocol's start step |
| Detector.ClockStore.ThreadCreate | runtime/redzone_race.c:166-172 | the child inherits, both move on: the protocol's create step |
| Detector.ClockStore.ThreadJoin | runtime/redzone_race.c:173-175 | joining imports the child's clock |
| Detector.ClockStore.SyncFor | runtime/redzone_race_rt.c:158-174 | find-or-create returns the object's clock, zero when new, and changes no other |
| Detector.ClockStore.Lock | runtime/redzone_race_rt.c:288-298 | the recorded lock is the protocol's acquire step |
| Detector.ClockStore.Unlock | runtime/redzone_race_rt.c:300-310 | the recorded unlock is the protocol's release step |
| Detector.WordsVisited | runtime/redzone_race_rt.c:398-409 | the loop of a multi-word access visits exactly the words that hold one of its bytes, a size of 0 counting as 1; a range that wraps visits its first word alone or nothing |
| Detector.RaceDetector.ThreadCreate | runtime/redzone_race_rt.c:242-268 | the detector's state follows the run extended by the creation, which is recorded whether or not the real call succeeds; only success registers the child |
| Detector.RaceDetector.ThreadJoin | runtime/redzone_race_rt.c:270-282 | a real join that succeeds on a registered thread extends the run by the join; any other records nothing |
| Detector.RaceDetector.MutexLock | runtime/redzone_race_rt.c:288-298 | the detector's state follows the run extended by the acquire |
| Detector.RaceDetector.MutexUnlock | runtime/redzone_race_rt.c:300-310 | the detector's state follows the run extended by the release |
| Detector.RaceDetector.AccessWord | runtime/redzone_race_rt.c:409-422 | end to end: the imperative detector reports exactly when the word owns a bucket and the ideal verdict is a report, and then the returned cell is a racing access of the recorded run; only a full shard leaves a word without a bucket |
| Detector.RaceDetector.AccessRange | runtime/redzone_race_rt.c:393-432 | exactly the words that hold a byte of the access are checked and recorded; each gets its ideal verdict or silence, the race counter grows by the number of racing words, and the report names the first of them and an access that races with it |
| LockWrappers.LockInFull | runtime/redzone_race_rt.c:312-360 | a granted lock adds one hold and then records one acquire |
| LockWrappers.UnlockInFull | runtime/redzone_race_rt.c:318-321 | an unlock records one release and then gives one hold back |
| LockWrappers.WaitInFull | runtime/redzone_race_rt.c:367-372 | a condition wait records a release, leaves the mutex to anyone, takes it back and records an acquire |
| LockWrappers.FailedWaitInFull | runtime/redzone_race_rt.c:367-380 | a wait that fails records the same pair and keeps every hold |
| LockWrappers.ReadersOverlap | runtime/redzone_race_rt.c:330-361 | a free lock goes to anyone; after that a second thread gets it only if both are readers |
| LockWrappers.IdleMayDo | runtime/redzone_race_rt.c:288-310 | outside the wrappers a running thread is never held up |
| LockWrappers.InvariantHolds | runtime/redzone_race_rt.c:312-380 | in every interleaving, a holder past its recorded acquire has seen every conflicting guarded access, and every guarded access is published or still protected |
| LockWrappers.DisciplineOrders | runtime/redzone_race_rt.c:330-361 | no two accesses to a word guarded by one lock race, readers overlapping or not |
| LockWrappers.LockDisciplineNeverReported | runtime/redzone_race_rt.c:288-380 | no access to a guarded word is ever reported, through mutexes, try-locks, reader-writer locks and condition waits |
| Atomics.StoreInFull | src/RedzonePass.cpp:1017-1020 | an atomic store records one release of its location before it takes effect |
| Atomics.LoadInFull | src/RedzonePass.cpp:1021-1024 | an atomic load records one acquire of its location after it |
| Atomics.UpdateInFull | src/RedzonePass.cpp:1009-1024 | a read-modify-write records both, also when it is a compare-exchange that fails |
| Atomics.IdleMayDo | src/RedzonePass.cpp:994-1025 | outside atomic operations a running thread is never held up |
| Atomics.InvariantHolds | src/RedzonePass.cpp:1017-1020 | in every interleaving, a thread about to write atomically has the release of that location as its last event |
| Atomics.ReaderAcquires | src/RedzonePass.cpp:1021-1024 | in every interleaving, the first event a thread records after an atomic read is the acquire of that location |
| Atomics.PublicationOrders | src/RedzonePass.cpp:994-1025 | stated on the real reads and writes: everything the writer recorded before an atomic write happens before everything a reader of its value records after the read |
| Atomics.ChainOrders | src/RedzonePass.cpp:994-1025 | a chain of publications and of lock, creation and join edges orders its ends |
| Atomics.PublishedDataNeverReported | runtime/redzone_race_rt.c:382-391 | data handed on by such a chain is never reported |
| Atomics.FlagHandsOver | src/RedzonePass.cpp:994-999 | data written before an atomic store and used after a load of its value is not reported |
| Bits.AndLowMask | runtime/redzone_race.c:78-81 | and with 2^k - 1 is the remainder |
| Bits.AndHighMask | runtime/redzone_rt.c:679 | and with the complement rounds down to a multiple of 2^k |
| Bits.IsPow2TestCorrect | runtime/redzone_rt.c:658 | the bit test holds exactly for powers of two |
| Shadow.ShadowAgrees | runtime/redzone_rt.c:269-277 | a byte is poisoned if and only if it lies in a red-zoned object outside a live user region |
| Shadow.DrawIsPaint | runtime/redzone_rt.c:687-694 | poisoning the block, clearing whole chunks and setting the partial tail draws exactly the padded object |
| Shadow.FreeIsPaint | runtime/redzone_rt.c:813-814 | the write on free gives up exactly the user bytes |
| Shadow.ShownRunsAreWhole | runtime/redzone_rt.c:50 | every poisoned byte lies in at least 16 poisoned bytes in a row |
| Shadow.EndpointsDecide | runtime/redzone_rt.c:969-971 | for an access of at most 17 bytes the first and last byte decide the whole range |
| Shadow.EndpointsInsideObject | runtime/redzone_rt.c:1003-1005 | a longer range starting in a live object's user bytes and ending inside its extent passes if and only if it stays in the user bytes |
| Memory.WordRoundTrip | runtime/redzone_rt.c:698-700 | a word stored byte by byte reads back |
| Heap.InvAddBlock | runtime/redzone_rt.c:679-702 | an allocation keeps shadow, table and all headers in agreement |
| Heap.InvFreeBlock | runtime/redzone_rt.c:806-814 | so does a free |
| Heap.InvWithMem | runtime/redzone_rt.c:696-700 | client writes to addressable bytes reach no header |
| Heap.HeaderReadInside | runtime/redzone_rt.c:284-291 | a header read that passes the shadow test belongs to one block, strays by at most 8 bytes before its base or past its last chunk, and stays inside exactly when the pointer is at least 16 above the base and not past the end |
| Heap.HeaderReadSpills | runtime/redzone_rt.c:284-291 | 8 bytes into any block the test passes and the read starts before the block |
| Heap.TooBigIsOverflow | runtime/redzone_rt.c:666-671 | the test refuses exactly the requests whose padded size does not fit in 64 bits |
| Heap.AllocationOpens | runtime/redzone_rt.c:665-703 | every request that fits and is answered with unused bytes succeeds: a block of exactly the size and site asked for at the first aligned address after a red zone, exactly its user bytes addressable, nothing changed outside its extent |
| Heap.OwnBytesAreWritable | runtime/redzone_rt.c:687-694 | the program may write every byte of a live block, which changes that byte alone |
| Heap.HeaderEqualsScan | runtime/redzone_rt.c:288-299 | the header below p names a block if and only if p is its user start, and it is the block the linear scan finds |
| Heap.FreeIsClassified | runtime/redzone_rt.c:790-815 | ignored, invalid-free, double-free and success exclude each other in every reachable state |
| Heap.FreeMeans | runtime/redzone_rt.c:790-815 | ignored if and only if in no block, invalid-free if and only if in a block but no start, double-free if and only if a freed start, success if and only if a live start; success gives up exactly the block's bytes and the rest changes nothing |
| Heap.FreeAnswers | runtime/redzone_rt.c:790-815 | every address has an outcome |
| Heap.AlignedLayout | runtime/redzone_rt.c:665-702 | every request that passes the overflow test is aligned, has whole red zones inside the system's block, and no sum or mask wraps |
| Heap.NewBlockFits | runtime/redzone_rt.c:114-118 | a block whose bytes nothing else uses shares no shadow chunk with any block or object, whatever its size, because blocks start 16-aligned |
| Heap.DrawableFits | runtime/redzone_rt.c:849-852 | the same for a stack slot or global wrapper |
| Heap.InvRealloc | runtime/redzone_rt.c:764-788 | a realloc step keeps the invariant and drops, moves and un-frees no block |
| Heap.RunInvariant | runtime/redzone_rt.c:665-815 | the invariant holds in every state of every run of allocations, frees, reallocs, draws and client writes, and blocks are never dropped, moved or un-freed |
| Heap.HeapShadowAgrees | runtime/redzone_rt.c:665-703 | in every state of every run a byte of a block's chunk-rounded extent is addressable if and only if it is a user byte of a block not yet freed |
| Heap.OutsideIsUntouched | runtime/redzone_rt.c:255-267 | shadow outside all objects stays clear |
| Heap.FreedForever | runtime/redzone_rt.c:808-814 | once freed, a block stays freed and its user bytes stay poisoned for the rest of the run |
| Heap.RunsKeepEndpointsExact | runtime/redzone_rt.c:963-971 | in every state of every heap, stack and global run the two-endpoint test is exact up to 17 bytes |
| Heap.ReallocPreserves | runtime/redzone_rt.c:764-788 | on a live block realloc succeeds, keeps the first min(old, new) bytes, quarantines the old block and changes nothing else |
| Heap.ReallocElsewhere | runtime/redzone_rt.c:764-788 | of any other address realloc keeps its new block, has the outcome of a free, and copies nothing unless a live block holds the address |
| Heap.ReallocAnswers | runtime/redzone_rt.c:764-788 | every realloc to a size that fits and is answered is a step of a run |
| Frames.PaddingAgrees | src/RedzonePass.cpp:292-332 | for every size the drawn object fills exactly the slot or wrapper the pass lays out, and its usable bytes are exactly the variable's, for frames and both kinds of global |
| Frames.FrameDraws | runtime/redzone_rt.c:827-844 | stack enter draws exactly the frame object and leave erases exactly it |
| Frames.GlobalDraws | runtime/redzone_rt.c:859-870 | registering an internal global draws exactly the two-sided object |
| Frames.RightIsPaint | runtime/redzone_rt.c:877-886 | registering an external global draws exactly the one-sided object and nothing before its data |
| Frames.FrameOpens | runtime/redzone_rt.c:827-844 | entering makes exactly the variable's bytes of the slot addressable, leaving every byte, and nothing else changes |
| Frames.GlobalOpens | runtime/redzone_rt.c:859-870 | the same for an internal global and its wrapper |
| Frames.RightOpens | runtime/redzone_rt.c:877-886 | the same for an external global, with nothing touched before its data |
| Frames.OneMoreFrame | src/RedzonePass.cpp:612-637 | a function may enter one more frame wherever no byte is in use |
| Frames.FrameVariableAddressable | src/RedzonePass.cpp:612-637 | in every reachable state an entered frame's variable is addressable, its zones are not, and poisoned runs are whole |
| Frames.ExecKeeps | src/RedzonePass.cpp:612-637 | any forest of nested calls ends with the objects it started with |
| Frames.CallsRestoreShadow | runtime/redzone_rt.c:840-844 | nested enter and leave at any depth restore every shadow byte |
| Runtime.HeapRuntime.FindBlock | runtime/redzone_rt.c:161-168 | the scan returns the first block whose extent holds the address, or none |
| Runtime.HeapRuntime.BlockFromUserPtr | runtime/redzone_rt.c:288-299 | the O(1) lookup succeeds if and only if the address is a user start, and returns the scan's block |
| Runtime.HeapRuntime.Allocate | runtime/redzone_rt.c:665-703 | fails exactly when the padded size does not fit in 64 bits or the system fails, changing nothing; otherwise adds exactly the new block |
| Runtime.HeapRuntime.AlignedAlloc | runtime/redzone_rt.c:728-735 | fails exactly on an alignment that is not a power of two, on overflow or system failure; otherwise the pointer has the requested alignment and the state gains exactly the new block |
| Runtime.HeapRuntime.Free | runtime/redzone_rt.c:790-815 | each call has the one outcome its address calls for, and only success changes the state |
| Runtime.HeapRuntime.Realloc | runtime/redzone_rt.c:764-788 | null, zero size, failed allocation and the copy-then-free case |
| Runtime.HeapRuntime.StackEnter | runtime/redzone_rt.c:827-838 | entering a frame adds exactly its object |
| Runtime.HeapRuntime.StackLeave | runtime/redzone_rt.c:840-844 | leaving a frame removes exactly its object |
| Runtime.HeapRuntime.GlobalRegister | runtime/redzone_rt.c:859-870 | registering an internal global adds exactly its object |
| Runtime.HeapRuntime.GlobalRegisterRight | runtime/redzone_rt.c:877-886 | registering an external global adds exactly its object |
| Runtime.HeapRuntime.Check | runtime/redzone_rt.c:963-996 | passes if and only if no byte is off-limits, for up to 17 bytes; names a heap error after the block the scan finds, and otherwise an error after the first end of the access in a wholly poisoned chunk, which a stack or global object then holds off limits |
| Selective.Analyze | src/RedzonePass.cpp:583-610 | the two passes of the analysis compute exactly the specified skip set |
| Selective.SkippedIff | src/RedzonePass.cpp:583-610 | an access loses its check if and only if it lies in its own stack variable, or a kept check of the same pointer at least as long comes before it with no call between |
| Endpoints.EndpointsExact | runtime/redzone_rt.c:1003-1005 | the two-endpoint test decides every access of a size in every reachable state if and only if the size is at most 17 |
| Endpoints.InlineMatchesRuntime | src/RedzonePass.cpp:661-686 | the inlined condition agrees with the runtime's check below the covered limit |
| Endpoints.RedundancyRuleExact | src/RedzonePass.cpp:579-582 | in every reachable state a passed inlined check of m bytes guarantees one of n bytes if and only if m is at most 17, or n is m, or n is 1 |
| Selective.FailsMeans | src/RedzonePass.cpp:661-686 | the emitted check aborts exactly when the first or the last byte is poisoned |
| Selective.ShortAccessesAreSound | src/RedzonePass.cpp:602-608 | with accesses of at most 17 bytes every dropped access is sheltered or never reached |
| Selective.ShelteredIsClean | src/RedzonePass.cpp:602-605 | the last byte of a sheltered access is addressable if the kept checks before it passed |
| Selective.SkippedPasses | src/RedzonePass.cpp:221-235 | a skipped check could not have failed if no kept check before it did |
| Selective.ThinningPreservesVerdicts | src/RedzonePass.cpp:583-610 | the thinned block aborts if and only if the fully checked one does, at the same instruction, for any addresses and any run of the runtime inside the calls |
| SelectiveExact.FramesEntered | runtime/redzone_rt.c:827-838 | the frames of all padded variables of a block can be entered one after the other in a run |
| SelectiveExact.ExposedDiverges | src/RedzonePass.cpp:602-605 | a dropped access that is reached and not sheltered changes a verdict in an execution built from a run |
| SelectiveExact.ThinningExact | src/RedzonePass.cpp:575-610 | for every block that fits in the address space, the pass keeps every verdict if and only if every access it drops as redundant is sheltered or never reached |
| Leaks.CountLeaks | runtime/redzone_rt.c:1227-1232 | the header totals count every unsuppressed leak once |
| Leaks.ReportLines | runtime/redzone_rt.c:1284-1315 | the nested loops print the specified lines, with or without the marker array |
| Leaks.FoldSite | runtime/redzone_rt.c:1294-1307 | the inner loop collects exactly the leaks of one site and marks exactly those folded |
| Leaks.ReportConserves | runtime/redzone_rt.c:1279-1315 | counts and bytes of the lines add up to the header totals |
| Leaks.SingleLinesConserve | runtime/redzone_rt.c:1284-1287 | so do those of the fallback report |
| Leaks.OneLinePerSite | runtime/redzone_rt.c:1284-1307 | a site has a line exactly when it has a leak, and only one |
| Leaks.SingleLineOf | runtime/redzone_rt.c:1284-1287 | in the fallback report each leak has its own line, in table order |
| Leaks.LeaksOfRun | runtime/redzone_rt.c:1199-1201 | over any run: the block a step added is a leak if and only if no step from then on frees its address and no rule silences its file, and it has the size and site asked for |
| Leaks.EveryBlockWasAdded | runtime/redzone_rt.c:1227-1228 | every block of the final table was added by one of the steps |
| Leaks.HeaderOfRun | runtime/redzone_rt.c:1227-1239 | over any run without rules: the header's allocations and bytes are those asked for less those that successful frees gave back |

## Left out

- Epoch and counter overflow: epochs, thread ids and report counters are unbounded naturals; the source's 64-bit epochs would wrap after 2^64 releases.
- Dropped edges when bookkeeping allocations fail (`runtime/redzone_race_rt.c:165-166`, `runtime/redzone_race_rt.c:247-251`): the no-false-positive property does not survive them.
- The `pthread_t` registry (`runtime/redzone_race_rt.c:94-126`): join is modelled on the child's id and on whether it was registered.
- The sync registry's 16 shards and linear scan (`runtime/redzone_race_rt.c:136-174`) are a map from addresses to clock arrays.
- Source lines in cells, report deduplication and printing: text without hard state.
- Barriers, semaphores, fences and weak memory orders: the code does not model them; interleavings are sequentially consistent.
- Detector.RaceDetector.AccessRange: handles its words in one call; other threads' steps between two words are covered by the per-word step AccessWord.
- Detection.WriteReportedIff: counts threads of any id among the four; an access by a thread with id 64 or above is never itself reported against, as in the source.
- Runtime.HeapRuntime.Check: the name follows the shadow code, as in the source; when only a partial-tail chunk is hit it says nothing about the kind of object.
- posix_memalign, calloc and the C++ operators: thin wrappers over the modelled allocator.
- `mem*`, `str*` and `printf` wrappers: foreign libc semantics.
- Whole-process interposition, symbolization, JSON and SARIF output, suppression-file parsing.
- LLVM mechanics: a block is a list of accesses and calls; pointer values carry their constant offset into a static variable when one is known.
- The shadow and memory of the heap model are maps held in fields and replaced on update, not 16 TiB of bytes written in place.
