# Handle table, assembly binder and textual identities of CoreCLR

A Dafny model of three parts of the runtime, with proofs of what they guarantee.

**The GC handle table.** Three layers, bottom up.

- *Segments* (`FreeMask`, `SegmentModel`, `SegmentSweep`, `SegmentKeeps`, `SegmentInsert`, `SegmentResort`, `SegmentHandles`,
  `SegmentData`, `SegmentTidy`, `SegmentOrder`, `Segment`). A 64K segment is one page of header and fifteen pages of blocks of 64 handles.
  `TableSegment` has the header's fields and updates them as the source does: one byte array `rgAllocation` threads the linear free list and the circular
  chain of every type; beside it are the free masks, free counts, tails, hints, lock counts, data-block links and the empty,
  commit and decommit lines. `P` is the number of blocks per page: 8 with 8-byte handles (120 blocks), 16 with 4-byte handles
  (240 blocks). The ghost field `shape` holds what the links stand for, and `Inv` says that all views agree.
- *The table* (`QuickSort`, `TableModel`, `HandleTable`, `ReleaseExamples`). The list of segments, bulk allocation and bulk release,
  against a plain set of used handle addresses, and what a release leaves of every block.
- *The handle cache* (`HandleCache`, `HandleCacheInvariant`, `HandleCacheSteps`, `HandleCachePhases`, `HandleCacheTheorems`,
  `HandleCacheProgress`, `HandleCacheDelivery`, `HandleCount`). A step system for one handle type and any number of threads. Each interlocked
  operation, each read and each write of a shared slot is a step of its own; a thread has a program counter, a claimed slot and
  a handle in its hand; the owner of the table lock goes through the phases of a rebalance, waiting slot by slot.
- *The write barrier* (`WriteBarrier`). The unsynchronised update of a clump's age, as interleaved accesses to one byte.

**The binder** (`Binder`, `BinderExamples`). Any number of binders go through the two critical sections of a bind in any interleaving,
on an execution context, a failure cache and a version counter. The execution context is a hash table whose hash covers parts of
a name that its equality ignores, so a search can miss an equal name.

**Textual identities** (`IdentityLexer`, `IdentityPrinter`, `IdentityValues`, `IdentityParser`, `IdentityText`, `IdentityExact`,
`IdentityFields`, `IdentityGrammar`, `IdentityExamples`). The lexer and the parser are objects that move a cursor and fill an identity, each method proved against a
function on the text. On those functions the round trip and the independence of attribute order are proved, and what they accept and
return is said again position by position and field by field, without them.

The main results are about every input, every run and every reachable state. Where the code does not have a property that one
would expect, there is a concrete input or run that shows it, and the exact condition under which the property holds:

| property | condition | shown to fail by |
|---|---|---|
| the free order of handles is a preorder | `QuickSort.FreeOrderIsPreorder` | `QuickSort.FreeOrderCanFail` |
| `QuickSort.HighestFirst` | src/gc/handletablecore.cpp:136-170 | in sorted order what lies in no segment comes first, then the segments with the higher sequence numbers, and within a segment the higher handles |
| a release leaves no emptied block behind | `SegmentTidy.TidyExactly`, `TableModel.AllTidyExactly` | `ReleaseExamples.UngroupedMisses`, `ReleaseExamples.ClashMisses` |
| an emptied block that is locked is scavenged | `Segment.TableSegment.FreeHandles` | `ReleaseExamples.LockedNotScavenged` |
| a barrier that stores the generation is safe | `WriteBarrier.SafeExactlyWithZero` | `WriteBarrier.RaceLoses` |
| one entry per key | `Binder.OneEntryPerName` (two entries only with different hashes; whether different hashes give two depends on where the entries lie) | `BinderExamples.TwoEntriesOneKey` |
| a bind returns at least the requested version | `Binder.OlderExactly`, `Binder.OlderMeansOverlooked` | `BinderExamples.OtherKeyCanFail`, `BinderExamples.OtherHashCanFail`, `BinderExamples.WrapCanFail` |
| escaped text is read back | `IdentityExact.EscapeExactly` | `IdentityExamples.CutShort` |
| a printed identity is parsed back | `IdentityExact.RoundTripExactly`, `IdentityExact.ParsedRoundTrip` | `IdentityExamples.NameCutShort`, `IdentityExamples.CultureCutShort` |

Assumptions:

- Memory is sequentially consistent, and the index updates of the cache are atomic.
- The operating system hands out zeroed memory, and address space that no live segment occupies. It may refuse both.
- Page size and header size are 4096 bytes.
- A search of the hash table from the hash of an entry meets the entry; which other entries it meets is arbitrary and changes only
  when an entry is added.
- A file probe may return any name and assembly, or fail in any way.
- Text comparison folds the case of ASCII letters only.

## Model

| member | source | states |
|---|---|---|
| `HandleCacheTheorems.StepKeeps` | src/gc/handletablecache.cpp:345-818 | every step of every thread (claiming, copying, zeroing, filling, waiting, suspending, moving, gathering, draining, spilling, publishing) keeps the invariant; that handles are also delivered is the subject of `HandleCacheDelivery` |
| `HandleCacheTheorems.EveryHandleInOnePlace` | src/gc/handletablecache.cpp:345-818 | in every state of every run a used handle is in exactly one place: client, quick cache, bank slot, one thread's hand or scratch array; an unused one is nowhere |
| `HandleCacheTheorems.HandedOutOnce` | src/gc/handletablecache.cpp:715-757 | the handle that an allocation is about to return is used, has no client, and is in no other hand, slot or array |
| `HandleCacheTheorems.LiveSlotsAreReady` | src/gc/handletablecache.cpp:476-612 | a reserve slot below a live reserve index holds a handle that nobody else takes, a free slot below a live free index is empty and nobody else fills it, so the order of publication never exposes a stale slot |
| `HandleCacheTheorems.AccessesInRange` | src/gc/handletablecache.cpp:121-316 | every bank and scratch index is in range, and slots read are not null, slots overwritten are |
| `HandleCacheProgress.SpinIsOwed` | src/gc/handletablecache.cpp:156-316 | while the lock owner waits for a slot, exactly one other thread owes its content, is past its decrement and neither holds nor needs the lock |
| `HandleCacheProgress.SpinDischarged` | src/gc/handletablecache.cpp:40-110 | that thread can move, and at most two of its moves end the wait |
| `HandleCacheProgress.LockIsReleased` | src/gc/handletablecache.cpp:345-700 | from every reachable state there is a finite schedule, with moves only of the owner and of threads that owe a slot, after which the lock is free |
| `HandleCacheProgress.OwnMovesBounded` | src/gc/handletablecache.cpp:345-700 | under every interleaving, a thread that holds the lock keeps it and makes at most 703 moves of its own before it gives it back |
| `HandleCacheDelivery.TableMayAnswer` | src/gc/handletablecache.cpp:396-414 | with n handles gathered the table may answer with exactly the lists of distinct, unused handles of length at most 63-n, one more for an allocation, if n is below 42, and with nothing else otherwise; the empty list is always among them |
| `HandleCacheDelivery.NullOnlyIfNothing` | src/gc/handletablecache.cpp:345-500 | in every run an allocation is about to return no handle only if, since, its rebalance had gathered nothing and the table delivered nothing |
| `HandleCacheDelivery.GatheredNothing` | src/gc/handletablecache.cpp:370-400 | a rebalance that gathered nothing has left the free bank empty, and every handle still in the reserve bank is one that another thread has claimed |
| `HandleCacheDelivery.RebalanceDelivers` | src/gc/handletablecache.cpp:396-500 | whatever other threads do meanwhile, a full rebalance that found n handles and got m publishes n+m of them, or 63 if these are more than 84: one for the allocation that asked, the rest in the reserve bank and what that cannot hold in the free bank |
| `HandleCacheDelivery.FullDelivery` | src/gc/handletablecache.cpp:396-500 | if the table delivers all it was asked for, the reserve bank is published with exactly 63 handles, the free bank with none, and an allocation has its handle |
| `HandleCacheDelivery.SpillsFirst` | src/gc/handletablecache.cpp:426-445 | with more than 84 handles, exactly the first ones in the order of the sort go back to the table, all but 63; otherwise none |
| `HandleCacheDelivery.InPlaceExactly` | src/gc/handletablecache.cpp:509-560 | the rebalance is done in place exactly if it found 42 to 84 handles, counting the one being freed |
| `HandleCacheDelivery.InPlaceDelivers` | src/gc/handletablecache.cpp:509-612 | a rebalance in place publishes exactly the handles it found, less the one it gives out, with the reserve bank full or the free bank empty but for one handle, and the table is not asked |
| `HandleCacheDelivery.AllocAlone` | src/gc/handletablecache.cpp:715-757 | a thread that is not disturbed allocates the quick handle, or else the topmost of the reserve bank, and changes nothing else |
| `HandleCacheDelivery.FreeAlone` | src/gc/handletablecache.cpp:768-818 | and frees into the quick slot, or else into the topmost free place of the free bank |
| `HandleCacheDelivery.FreeThenAlloc` | src/gc/handletablecache.cpp:715-818 | freeing into the empty quick slot and allocating again gives the handle back and restores the cache |
| `HandleCount.QuiescentCount` | src/gc/handletable.cpp:1052-1099 | when no thread is inside an operation, used handles minus clamped bank counts minus the quick slot is the number of handles that clients hold |
| `HandleCount.TableRunInv` | src/gc/handletable.cpp:1052-1099 | in every run over all types the counter is the number of used handles, whatever the interleaving |
| `HandleCount.CountHandles` | src/gc/handletable.cpp:1052-1099 | at a quiescent state the loops return the number of handles that clients hold |
| `QuickSort.Partition` | src/gc/handletablecore.cpp:78-107 | the scans stay inside the range for any deterministic comparator that calls equal elements equal, even one that is not transitive; the elements are permuted as `PartitionOf` says and, for a preorder, split at the pivot |
| `QuickSort.Sort` | src/gc/handletablecore.cpp:67-124 | a permutation of the range that touches nothing outside it, sorted if the comparator is a preorder and otherwise in exactly the order `SortOf` gives, at most floor(log2 n)+1 calls deep |
| `QuickSort.FreeOrderIsPreorder` | src/gc/handletablecore.cpp:136-170 | the free order is a preorder on a set of handles exactly if no two handles of one segment meet a handle of another segment with the same sequence number |
| `QuickSort.FreeOrderCanFail` | src/gc/handletablecore.cpp:136-170 | three handles of two segments with one sequence number for which the order is not a preorder |
| `FreeMask.LowBitIndex` | src/gc/handletablecore.cpp:31-65 | the index is that of the lowest set bit of a nonzero byte |
| `FreeMask.AllocInMask` | src/gc/handletablecore.cpp:1902-1970 | takes exactly the lowest free handles of a mask, as many as asked for or all there are, and clears exactly their bits |
| `SegmentSweep.WalkDrop` | src/gc/handletablecore.cpp:1331-1360 | taking a block out of the ring keeps the survivors so far, the freed blocks and the rest of the ring linked, also when the start block or the tail goes |
| `SegmentSweep.CursorNext` | src/gc/handletablecore.cpp:1370-1382 | the walk is back at its start exactly when the whole chain has been seen |
| `SegmentSweep.SweepDone` | src/gc/handletablecore.cpp:1384-1402 | after the walk exactly the empty, unlocked blocks have left the chain for the front of the free list, survivors and freed blocks in order, tail and hint on survivors |
| `Segment.TableSegment.Sweep` | src/gc/handletablecore.cpp:1227-1403 | one pass over a chain of any length ends and does exactly that, and reports whether user data was freed and whether an empty block was locked |
| `Segment.TableSegment.RemoveFreeBlocks` | src/gc/handletablecore.cpp:1227-1403 | exactly the removable blocks of the type become free, data blocks without an owner go with them, and all structural invariants hold again |
| `SegmentKeeps.SweptLoose` | src/gc/handletablecore.cpp:1227-1403 | a pass keeps every chain, the free list, all free counts, the lines and the data links in agreement |
| `SegmentKeeps.SweptDataOwned` | src/gc/handletablecore.cpp:1303-1318 | a pass over the data blocks leaves exactly those that belong to a handle block |
| `SegmentKeeps.ClearedCount` | src/gc/handletablecore.cpp:1392-1393 | the free count falls by 64 for every block taken out, and by nothing for other types |
| `SegmentData.DataFollowsOwner` | src/gc/handletablecore.cpp:1303-1318 | in any transition in which blocks that survive keep their data block and new blocks take free ones, a data block is still there exactly if its handle block is, and still belongs to it |
| `SegmentData.LinksMore` | src/gc/handletablecore.cpp:1515-1578 | transitions that keep the links of surviving blocks compose, if the first one frees no block |
| `SegmentData.LinkDone` | src/gc/handletablecore.cpp:1531-1556 | linking a new data block completes the invariant and changes no other block's data block |
| `SegmentHandles.SlotsDistinct` | src/gc/handletablecore.cpp:271-302 | distinct handles of user-data types have distinct user-data slots, each in a data block that is locked once and holds no handle |
| `Segment.TableSegment.InsertWorker` | src/gc/handletablecore.cpp:1416-1502 | the head of the free list becomes the tail of the chain with all views in agreement; it fails only without a free block or without the page it needs, and then changes nothing; empty, commit and decommit line are given exactly; a chain that may have got out of order is flagged |
| `SegmentInsert.InsertLoose` | src/gc/handletablecore.cpp:1416-1502 | the new links, counts and lines satisfy the invariant |
| `SegmentOrder.InsertRising` | src/gc/handletablecore.cpp:1468-1489 | a block inserted into an empty chain leaves all chains and the free list in ascending order if they were, so only the other case raises the resort flag |
| `SegmentOrder.SweptNothing` | src/gc/handletablecore.cpp:1384-1402 | a pass that takes nothing out leaves all chains and the free list as they were, so only the other case raises the resort flag |
| `SegmentInsert.OnePageSuffices` | src/gc/handletablecore.cpp:1428-1464 | blocks in use are committed, and one more page covers the next free block if that is not |
| `SegmentInsert.FailsAfter` | src/gc/handletablecore.cpp:2204-2251 | a failure after any number of insertions means that the free list, from there on, had no block to offer with the pages committed at the start |
| `Segment.TableSegment.InsertBlock` | src/gc/handletablecore.cpp:1515-1578 | a block, with a locked data block of its own if the type has user data, or neither; it uses up exactly those blocks of the free list and fails only if one of them is missing or has no page; no block with handles in it changes type, and every block that is still of a type, also after a failure is undone, keeps its data block; it fails with enough free blocks only if a page was asked for and refused; the new block becomes the hint if it shall or if it is the first one, and a failure leaves a hint on a used block alone |
| `SegmentInsert.LinkedData` | src/gc/handletablecore.cpp:1545-1556 | linking a new data block keeps the links one to one, its lock count at one and every data block owned |
| `Segment.TableSegment.ScanBack` | src/gc/handletablecore.cpp:1698-1738 | the backward scan links every type and the free list in ascending order and finds the run of free blocks at the end |
| `Segment.TableSegment.CloseRings` | src/gc/handletablecore.cpp:1741-1780 | every chain becomes a ring with its highest block as tail and a hint inside it |
| `SegmentResort.CloseNext` | src/gc/handletablecore.cpp:1741-1780 | closing one ring disturbs no other chain and not the free list |
| `SegmentResort.ScavengeStep` | src/gc/handletablecore.cpp:1611-1682 | marking an empty block free while its links are stale keeps counts, data links and the chain of data blocks |
| `Segment.TableSegment.ResortChains` | src/gc/handletablecore.cpp:1588-1789 | scavenging frees exactly the empty, unlocked public blocks, every other block keeps its data block, and a data block stays exactly if its owner does; then all chains and the free list are in ascending order, the empty line has not risen and the invariant holds |
| `SegmentOrder.SweptHints` | src/gc/handletablecore.cpp:1340-1360 | a pass leaves the hints of other types, and a hint on a block with handles in use, where they were |
| `SegmentOrder.SortedRising` | src/gc/handletablecore.cpp:1698-1780 | the rebuilt chains and free list are in ascending order |
| `Segment.TableSegment.TrimExcessPages` | src/gc/handletablecore.cpp:1841-1890 | only blocks that are free lose their page; if the empty line is below the decommit line, less than one page above it stays committed; the decommit line moves exactly if the commit line does, to one page below it or to zero |
| `SegmentModel.TrimArithmetic` | src/gc/handletablecore.cpp:1855-1888 | rounding addresses to pages gives block numbers at page boundaries between empty line and commit line |
| `Segment.TableSegment.constructor` | src/gc/handletablecore.cpp:504-564 | a new segment satisfies the invariant, has no handle in use, one page committed, all blocks free in order, and is not marked |
| `SegmentHandles.FreshInv` | src/gc/handletablecore.cpp:504-564 | the initial field values agree in all views |
| `Segment.TableSegment.LockBlock` | src/gc/handletablepriv.h:674-686 | locking a block of handles keeps the invariant |
| `Segment.TableSegment.UnlockBlock` | src/gc/handletablepriv.h:695-707 | so does unlocking it |
| `Segment.TableSegment.BlockAllocHandles` | src/gc/handletablecore.cpp:2062-2108 | takes distinct free handles of the block, as many as asked for or all it has, and changes no other bit |
| `SegmentHandles.NextInChain` | src/gc/handletablecore.cpp:2160-2176 | as long as handles are known to be missing, the walk from the hint has not come round, so the corrupt-count exit is unreachable |
| `SegmentHandles.WalkDone` | src/gc/handletablecore.cpp:2144-2183 | the walk ends in the block that gave the last handle, with every block before it used up |
| `Segment.TableSegment.AllocFromTypeChain` | src/gc/handletablecore.cpp:2121-2192 | from any hint, exactly the smaller of the request and the free count; the blocks asked are those along the links from the old hint to the new one, each used up before the next is asked, and the new hint is the block of the last handle |
| `Segment.TableSegment.BlockAllocInitial` | src/gc/handletablecore.cpp:1979-2050 | takes the first handles of an empty block |
| `SegmentHandles.InitialTook` | src/gc/handletablecore.cpp:1998-2027 | the shifted masks mark exactly those handles as used |
| `Segment.TableSegment.AllocFromFreeList` | src/gc/handletablecore.cpp:2204-2251 | handles from new blocks, booked in the free count at the end; fewer than asked for only if 64 were taken from every block that could be had, and then a page was refused exactly if the free list had not run out; the first new block becomes the hint |
| `Segment.TableSegment.AllocHandles` | src/gc/handletablecore.cpp:2263-2289 | distinct, previously free handles in blocks of the type; fewer than asked for only if the chain is used up and no further block can be had; no other mask bit changes, no block with handles changes type, blocks that stay keep their data block and data blocks go with their owners; a page was refused exactly if it falls short and the free list had not run out |
| `SegmentHandles.TookUsed` | src/gc/handletablecore.cpp:1902-2289 | the used set grows by exactly the handles returned, none of which was in it |
| `Segment.TableSegment.FreeInMask` | src/gc/handletablecore.cpp:2416-2505 | frees the longest prefix that belongs to the mask, counting only handles that were in use |
| `Segment.TableSegment.FreeInBlock` | src/gc/handletablecore.cpp:2518-2586 | frees the longest prefix that belongs to the block, and asks for a scan exactly if the block is not locked and every run of handles of one mask leaves its mask without handles |
| `Segment.TableSegment.FreeHandles` | src/gc/handletablecore.cpp:2599-2673 | frees the longest prefix that belongs to the segment, in any order; the type of every block afterwards, also of those emptied, is given exactly; no block is left empty and unlocked that was not so before exactly if none is missed; scavenging is marked exactly if a scan was asked for and an empty block is locked; blocks that stay keep their data block |
| `SegmentTidy.AsksMore` | src/gc/handletablecore.cpp:2615-2645 | a visit asks for a scan exactly if some run of handles of one block does |
| `SegmentTidy.ReleasedMore` | src/gc/handletablecore.cpp:2684-2714 | what later visits make of a segment, including which blocks they sweep away, is the same whether it is read off the masks then or off the masks and the handles freed before |
| `SegmentTidy.TidyExactly` | src/gc/handletablecore.cpp:2538-2673 | visits leave no block empty and unlocked that was not so before exactly if no block that loses all its handles is without a later scan |
| `SegmentTidy.GroupedMissNone` | src/gc/handletablecore.cpp:2538-2567 | if the handles of each mask follow each other, no block is missed |
| `ReleaseExamples.UngroupedMisses` | src/gc/handletablecore.cpp:2535-2580 | a segment in which freeing handles 0, 32 and 1 in this order leaves their block empty, unlocked and in its chain |
| `ReleaseExamples.LockedNotScavenged` | src/gc/handletablecore.cpp:2566-2582 | a segment in which emptying a locked block asks for no scan, so scavenging is not marked either |
| `SegmentHandles.GaveUsed` | src/gc/handletablecore.cpp:2416-2673 | the used set loses exactly the handles given |
| `TableModel.AddressRoundTrip` | src/gc/handletablecore.cpp:311-323 | masking a handle's address gives its segment, and its offset gives its number |
| `TableModel.SyncTake` | src/gc/handletablecore.cpp:2302-2403 | taking handles from one segment adds exactly their addresses to the used set of the table, whatever the other segments hold |
| `TableModel.SyncGive` | src/gc/handletablecore.cpp:2684-2714 | giving handles of one segment back removes exactly their addresses |
| `TableModel.SlotsTaken` | src/gc/handletablecore.cpp:271-302 | if surviving blocks keep their data blocks and no block with handles in use goes, no handle in use has its user data moved |
| `TableModel.SlotsApart` | src/gc/handletablecore.cpp:271-302 | over all segments a handle has one user-data slot, and no two handles have the same |
| `HandleTable.Table.constructor` | src/gc/handletable.cpp:85-163 | a new table is valid and has no handle in use |
| `HandleTable.Table.Link` | src/gc/handletablecore.cpp:2364-2388 | the new segment is inserted so that the list stays sorted by address and keeps every segment |
| `TableModel.FreshGives` | src/gc/handletablecore.cpp:2302-2403 | a new segment never refuses its first request |
| `HandleTable.Table.AllocBulk` | src/gc/handletablecore.cpp:2302-2403 | ends; returns distinct, previously unused handles of the type, all that were asked for unless the operating system refused a segment; the segments are asked in order and a next one, or a new one, only when the one before has given all it had; the segments there were keep their sequence numbers, the k-th new one gets the last one's plus k+1 modulo 256; keeps the types and user-data slots of handles in use, and the count equal to the size of the used set |
| `HandleTable.NewDiffer` | src/gc/handletablecore.cpp:2355-2362 | any two of up to 256 new segments in a row have different sequence numbers |
| `TableModel.AskedNext` | src/gc/handletablecore.cpp:2320-2345 | asking the next segment keeps the account of what the segments before it gave |
| `HandleTable.Table.FreeBulkPrepared` | src/gc/handletablecore.cpp:2684-2714 | removes exactly the given distinct used handles, in any order, and keeps count, segments, and the types and user-data slots of the others; every segment becomes what its visits make of it, and no block is left empty and unlocked that was not so before exactly if none is missed |
| `HandleTable.Prepare` | src/gc/handletablecore.cpp:2724-2732 | the scratch copy is permuted into exactly the order of the sort, which is the free order if sequence numbers do not clash |
| `TableModel.SortedSame` | src/gc/handletablecore.cpp:2724-2739 | sorting changes neither which handles are freed nor that each is freed once |
| `TableModel.SortedGrouped` | src/gc/handletablecore.cpp:136-170 | handles sorted into free order are grouped by masks, if their sequence numbers do not clash |
| `HandleTable.Table.FreeBulk` | src/gc/handletablecore.cpp:2750-2797 | the same for the visits that sorting gives, in pieces of one block or all at once; without a clash of sequence numbers no emptied block is left behind |
| `TableModel.AllTidyExactly` | src/gc/handletablecore.cpp:2684-2714 | over all segments, nothing is left behind exactly if nothing is missed |
| `ReleaseExamples.ClashMisses` | src/gc/handletablecore.cpp:2724-2797 | two segments with one sequence number and four handles, whose release leaves a block empty, unlocked and in its chain |
| `WriteBarrier.FinishedStaysReported` | src/gc/handletable.cpp:671-738 | once a barrier has finished, at every later point of every interleaving, the clump has age 0 if the handle is dependent, or async-pinned with an overlapped object, and otherwise at most the generation of the referent |
| `WriteBarrier.LoweredOnlyIfNeeded` | src/gc/handletable.cpp:671-738 | the age changes only to 0, and only if some call had such a handle or a referent younger than the clump |
| `WriteBarrier.SafeExactlyWithZero` | src/gc/handletable.cpp:722-735 | a barrier is safe under all interleavings exactly if what it stores is 0 for every generation |
| `WriteBarrier.RaceLoses` | src/gc/handletable.cpp:724-732 | with any other store two calls race so that the older one wins |
| `Binder.ValidVersionIsOrder` | src/binder/assemblybinder.cpp:83-134 | the two-stage version check accepts exactly versions that are at least the requested one, part by part |
| `Binder.StepKeeps` | src/binder/assemblybinder.cpp:565-664 | every critical section of every binder keeps the invariant of context and results |
| `Binder.FailureRepeats` | src/binder/assemblybinder.cpp:900-972 | in every run, once a lookup has failed, every later lookup of the same display name fails with the same code and leaves the context as it is, whatever the files hold by then |
| `Binder.FailsExactly` | src/binder/assemblybinder.cpp:900-972 | a lookup not yet known to fail fails exactly if the architecture is not valid, an entry has another architecture than the definition asked for or too low a version, or without an entry nothing suitable is found; the code is that of the first of these; otherwise it yields the entry, or what was found |
| `Binder.RegistersExactly` | src/binder/assemblybinder.cpp:632-664 | a bind starts over exactly if its result is not from the context, the 32-bit counter has changed, and by now the name is known to fail or has an entry; otherwise it ends with its own result, with the entry that is there, or with a failure if that has another architecture |
| `Binder.RegisteredForGood` | src/binder/assemblybinder.cpp:1050-1106 | once a bind has succeeded, what the files hold makes no difference any more to lookups with the key and hash of its result |
| `Binder.VersionCounts` | src/binder/assemblybinder.cpp:582-664 | the version moves, and by one, exactly when a failure is newly remembered or a result is registered |
| `Binder.OneEntryPerName` | src/binder/assemblybinder.cpp:1678-1724 | in every state of every run two entries with one key have different hashes |
| `Binder.EntriesStay` | src/binder/assemblybinder.cpp:1678-1724 | entries are never changed or removed, and the version moves with every new entry |
| `Binder.SuccessesAgree` | src/binder/assemblybinder.cpp:565-664 | two successful binds whose results have the same key and hash return the same assembly under the same name |
| `Binder.RequestsAgree` | src/binder/assemblybinder.cpp:565-664 | two successful binds for requests with one key return the same assembly, if what is found for the key has it and one hash |
| `Binder.LookupFinds` | src/inc/shash.inl:479-517 | a search that finds nothing has overlooked at most entries of another hash |
| `BinderExamples.TwoEntriesOneKey` | src/binder/assemblyname.cpp:467-548 | a run with two entries under one key, of different hashes, in which two binds for the key return different assemblies |
| `BinderExamples.OneRequestTwoAssemblies` | src/binder/assemblybinder.cpp:1190-1214 | a run in which one request, made twice, returns different assemblies because what was found first has another key |
| `Binder.RetryMeansInterference` | src/binder/assemblybinder.cpp:632-654 | a bind starts over only if another binder's step moved the version since its lookup |
| `Binder.OlderExactly` | src/binder/assemblybinder.cpp:1678-1770 | in every run a successful bind returns an older version than requested exactly if its result is not from the context, the 32-bit counter shows what it showed after the lookup, and the registration comes upon an older entry |
| `Binder.OlderMeansOverlooked` | src/binder/assemblybinder.cpp:632-654 | with fewer than 2^32 changes: exactly if nothing changed since the lookup and the older entry was there then, where the search for the requested name missed it |
| `Binder.VersionHolds` | src/binder/assemblybinder.cpp:1050-1106 | if found and requested name share key and hash and fewer than 2^32 changes came between lookup and registration, a successful bind returns at least the requested version |
| `BinderExamples.OtherKeyCanFail` | src/binder/assemblybinder.cpp:1190-1214 | a run in which only the keys differ, nothing has changed since the lookup, and an older version than requested is returned |
| `BinderExamples.OtherHashCanFail` | src/binder/assemblyname.cpp:467-548 | the same with one key and different hashes |
| `BinderExamples.WrapCanFail` | src/binder/assemblybinder.cpp:1754-1772 | a run in which key and hash agree, the 32-bit version goes round exactly once and an older version than requested is returned |
| `IdentityLexer.StringLexer.ReadUnicode` | src/binder/inc/stringlexer.inl:224-264 | the digit loop computes the specified character |
| `IdentityLexer.UnicodeMeans` | src/binder/inc/stringlexer.inl:224-264 | that character is the value of up to eight hexadecimal digits before a semicolon, kept to 16 bits, and invalid without them |
| `IdentityLexer.EscapeMeans` | src/binder/inc/stringlexer.inl:164-222 | what a backslash and each character after it stand for; any other character, and the end, is invalid |
| `IdentityLexer.StringLexer.PopCharacter` | src/binder/inc/stringlexer.inl:52-78 | the next character of the remaining text, pushed back or not |
| `IdentityLexer.StringLexer.PushCharacter` | src/binder/inc/stringlexer.inl:80-98 | restores the text before the character, except for the invalid character, which is dropped |
| `IdentityLexer.StringLexer.ReadString` | src/binder/stringlexer.cpp:66-149 | the loop reads the specified string lexeme |
| `IdentityLexer.StringLexer.TrimTrailingWhiteSpaces` | src/binder/stringlexer.cpp:151-172 | the loop trims as specified |
| `IdentityLexer.TrimMeans` | src/binder/stringlexer.cpp:151-172 | what is left is the longest prefix that does not end in white space |
| `IdentityLexer.StringLexer.Lex` | src/binder/stringlexer.cpp:24-64 | the next lexeme and the text after it |
| `IdentityGrammar.LexemeMeans` | src/binder/stringlexer.cpp:24-149 | the lexeme of any text, by the positions of its characters: which blanks are skipped, what makes a separator or the end, where a string begins and ends with and without quotes, when it is bad, and what is left |
| `IdentityPrinter.EscapeString` | src/binder/textualidentityparser.cpp:681-762 | the loop that picks quotes as it goes produces the specified escaped text |
| `IdentityGrammar.EscapedExactly` | src/binder/textualidentityparser.cpp:681-762 | when text is put in quotes and in which, and that exactly tabs, line ends, commas, equals signs, backslashes and quotes of that kind are escaped |
| `IdentityPrinter.LexEscaped` | src/binder/stringlexer.cpp:66-149 | escaped text is read back up to its first escaped quote, or entirely and with nothing of what follows |
| `IdentityExact.EscapeExactly` | src/binder/textualidentityparser.cpp:681-762 | nonempty text survives escaping and lexing exactly if it holds no end mark or invalid character and, with white space at an end, no double quote, otherwise not quotes of both kinds |
| `IdentityExamples.CutShort` | src/binder/stringlexer.cpp:112-116 | text with both kinds of quotes, escaped, is cut at the first escaped closing quote, whatever follows |
| `IdentityValues.ParseVersion` | src/binder/textualidentityparser.cpp:376-431 | accepts exactly four dot-separated numbers up to 65535, an empty part being zero, and returns them |
| `IdentityGrammar.VersionMeans` | src/binder/textualidentityparser.cpp:376-431 | a version is exactly four numbers up to 65535, perhaps of no digits, between three dots or end marks, and stands for these numbers |
| `IdentityGrammar.ValueMeans` | src/binder/textualidentityparser.cpp:395-413 | no digits are zero, zeros in front change nothing, and other digits are the decimal form of their value |
| `IdentityValues.VersionRoundTrip` | src/binder/textualidentityparser.cpp:289-300 | a printed version is parsed back |
| `IdentityValues.HexRoundTrip` | src/binder/textualidentityparser.cpp:70-101 | printed bytes are parsed back |
| `IdentityValues.HexPrinted` | src/binder/textualidentityparser.cpp:70-101 | every byte is printed as two digits, the high half first, in lower case |
| `IdentityValues.HexRead` | src/binder/textualidentityparser.cpp:70-101 | and read from two digits of either case, the first one being the high half |
| `IdentityValues.DigitRead` | src/binder/textualidentityparser.cpp:54-56 | a digit stands for its place among 0 to 9 and a to f or A to F |
| `IdentityValues.ValidateHex` | src/binder/textualidentityparser.cpp:110-137 | accepts exactly nonempty text of an even number of hexadecimal digits |
| `IdentityText.TextualIdentityParser.PopulateAssemblyIdentity` | src/binder/textualidentityparser.cpp:532-678 | one pair changes the identity and the attributes seen as specified, or is rejected; `IdentityFields` says which values each attribute accepts and what it sets |
| `IdentityFields.PairAccepted` | src/binder/textualidentityparser.cpp:532-678 | which values each of the nine attributes accepts, with any case of letters: wildcards, null and neutral only where the attribute knows them, versions, eight bytes for a token, up to 2048 for a key, five architectures, yes or no, WindowsRuntime |
| `IdentityFields.UnknownIgnored` | src/binder/textualidentityparser.cpp:532-678 | a pair with any other attribute changes nothing, whatever its value |
| `IdentityFields.FlagsSet` | src/binder/textualidentityparser.cpp:532-678 | which flag each attribute sets for which values; a wildcard and a null key set none, a null token sets its own |
| `IdentityFields.FieldsSet` | src/binder/textualidentityparser.cpp:532-678 | what each attribute makes of version, culture, key, content type and custom data; all other fields stay |
| `IdentityFields.ArchSet` | src/binder/textualidentityparser.cpp:532-678 | and of the processor architecture |
| `IdentityText.TextualIdentityParser.ParseText` | src/binder/textualidentityparser.cpp:470-508 | the parse loop accepts exactly the texts that are a name and a list of pairs that fill an identity, and returns that identity |
| `IdentityParser.Commute` | src/binder/textualidentityparser.cpp:23-52 | two pairs in either order give the same identity or are both rejected |
| `IdentityParser.OrderIrrelevant` | src/binder/textualidentityparser.cpp:488-503 | acceptance and result are the same for every order of a list of pairs of any length |
| `IdentityParser.ListAccepted` | src/binder/textualidentityparser.cpp:532-678 | a list is accepted exactly if every known attribute has a valid value and none repeats another, culture and language being one, public key and token being one |
| `IdentityFields.AcceptedExactly` | src/binder/textualidentityparser.cpp:532-678 | a list is accepted exactly if every value is one its attribute accepts and no two attributes are of one kind, by their names |
| `IdentityFields.PairsDescribe` | src/binder/textualidentityparser.cpp:532-678 | every field and flag of the identity that a list of any length fills is that of the one pair that sets it, or the initial one if none does |
| `IdentityFields.TextDescribes` | src/binder/textualidentityparser.cpp:470-508 | a text is accepted exactly if it is a name and such a list of pairs, and gives the identity they describe |
| `IdentityGrammar.PairsMean` | src/binder/textualidentityparser.cpp:470-508 | the pairs of a text are its lexemes four by four, comma, attribute, equals sign and value, up to the end |
| `IdentityText.LexPrinted` | src/binder/textualidentityparser.cpp:264-373 | every printed list of pairs is lexed back as that list |
| `IdentityFields.PrintedInOrder` | src/binder/textualidentityparser.cpp:264-373 | an identity is printed as its name and then version, culture, key or token, architecture, retargetable, content type and custom data, in this order |
| `IdentityExact.RoundTripExactly` | src/binder/textualidentityparser.cpp:264-373 | parsing the printed form gives the identity back exactly if the identity is representable: its parts agree with its flags, and its name and culture survive escaping |
| `IdentityExact.ParsedRoundTrip` | src/binder/textualidentityparser.cpp:470-508 | whatever text an identity came from, printing and parsing it again gives it back exactly if it has a name and name and culture keep their quotes |
| `IdentityExamples.NameCutShort` | src/binder/textualidentityparser.cpp:681-762 | a name that the parser accepts, whose printed form it rejects |
| `IdentityExamples.CultureCutShort` | src/binder/textualidentityparser.cpp:264-373 | a culture that the parser accepts, with whose printed form the identity is rejected |
| `IdentityExact.FitsAll` | src/binder/textualidentityparser.cpp:532-678 | however many pairs fill an identity, every part agrees with its flags and every flag with the attributes seen |
| `IdentityText.TextOrderIrrelevant` | src/binder/textualidentityparser.cpp:470-508 | any two texts, however written, that give the same name and the same pairs in any order parse alike |

## Left out

- Segment.TableSegment.ResortChains: the resort flag may be set again afterwards, because removing data blocks during scavenging sets it.
- FreeMask.LowBitIndex: stands for the 256-entry table of low-bit indices; the table is not written out.
- Async-pin relocation and compaction of segments.
- Object references in handles, the zeroing of handles and user-data words on release, and clump ages in the segment.
- The order of memory accesses beyond sequential consistency, and 32-bit wrap-around of the cache indices.
- The table lock is modelled per handle type; a rebalance of one type does not exclude one of another.
- The clean-up of segments, their removal from the table, and the loops that decide when to resort or trim.
- Scanning, ageing, dependent handles and finalization. Scan locks appear only as lock counts on blocks.
- Binder.LookupFinds: the places of the hash table, its growth and its probing are not modelled, only which entries a search meets.
- The 8-bit width of lock counts, and allocation failure inside hash tables.
- Binding of byte arrays, dynamic binds, binding by path, host resolvers, logs and reference counting.
- The failure cache is a map; a repeated failure is looked up before anything is added, so no key is added twice.
- The lexer without escapes, which nothing in the identity parser uses.
- Unicode normalisation and conversion of text.
