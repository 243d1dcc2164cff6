# A verified model of libimmixcons

libimmixcons is a mark-region garbage collector in the Immix style. Memory is carved into 32 KiB
blocks of 256 lines. Objects are bump-allocated into holes between marked lines. A collection marks
from conservative and precise roots, may copy objects out of fragmented blocks into a small
evacuation headroom, and sweeps whole blocks. This project models that collector in Dafny and proves
what its parts promise together.

The model has four layers.

- **Words and lines.** `BitWords`, `SpaceBitmap`, `LineMap`, `Lines`, `Block`, `Header`: the bitmaps,
  the line marks and holes of a block, and the tagged object header, as classes that change arrays
  and words in place, each proved to refine a plain set or record.
- **Allocation.** `Space` and `Layout` say where blocks and objects may be; `Allocation` holds the
  three allocators as functions and `AllocationProofs` shows what they keep.
- **Collection.** `Memory`, `Trace`, `TraceProofs`, `TraceTheorems`, `RootSlots`, `Sharing`,
  `Evacuation`, `Histogram`, `Collection`, `CollectionProofs`, `HeapEvacuation`, `Candidates`,
  `HeapRuns`: the trace as a worklist algorithm with evacuation, what becomes of root slots, of
  sharing and of candidate blocks, the choice of candidates, the sweep, and runs of any number of
  allocations, slot writes and collections. `SplitHeap` is a short run to a heap that shows what an
  evacuating collection can lose.
  `ImmixSpace` and `Immix` are the imperative forms: classes with loops, a real object bitmap and
  real block lists, whose methods are proved equal to those functions.
- **Locks.** `Mutex`, `ReentrantMutex`, `Safepoint`: step models of the threaded build for any number
  of threads, where every atomic access is one step. `MutexCalls` and `SafepointCalls` say what whole
  calls do.

The central invariant is `CollectionProofs.HeapInv`. Between steps it says that all objects are laid
out apart from each other and from everything an allocator may hand out next, that each carved block
is in exactly one list, that the object index holds exactly the objects, that slots refer to objects,
that headers carry the live mark and no other tag, and that the byte count is the sum of the sizes.
It holds in every state of every run (`HeapRuns.RunsKeepInv`).

## What the code needs from its environment

- The size given to `allocate`, aligned to 16, is the size the object reports later, and it is
  positive and below `LARGE_OBJECT`. `RequestedSizeIsReportedSize` says exactly when the first RTTI
  macro and `immix_alloc_safe` agree.
- The heap capacity is a multiple of the page size. `BitmapCovers` says exactly when `round_up` sizes
  the bitmap fully.
- An allocation that collects twice is given precise roots of which the first collection leaves none
  stale; otherwise the second one reads a dead address. Which slots go stale can be told before the
  call (`RootSurvivesExactlyWhen`), and roots with different targets never do.
- References the mutator stores into a new object are on its stack during the call, so they are
  conservative roots.

## Where the code does less than one would expect

- `modify_line` can miss the last line of an object (`LastLineMissed`). It is safe only because
  `scan_block` skips one free line before every hole (`HoleIsClear`).
- Evacuation keeps payloads and routes but not all sharing. `Visitor::trace` installs no forwarding,
  so every slot that is traced while there is room gets a copy of its own, and no such copy is ever
  in two slots. Only the precise-root path installs forwarding, and all slots follow that.
  - After a collection, two surviving slots that led to `o` lead to the same object exactly when `o`
    was moved as the target of a precise root, or neither slot was given a copy
    (`SharedExactlyWhen`).
  - Sharing of `o` is kept if `o` is pinned, outside the candidate blocks, or the target of a precise
    root, or if nothing can move (`SharingKept`, `CollectKeepsSharing`).
  - While the headroom lasts, it is kept only then (`SharedExactlyWhenWhole`). The shape of the new
    heap is then known before the collection: two routes from roots end at one object exactly when
    they join at an object that stays whole, and everything else is unfolded into a tree
    (`CollectRoutesMeetExactlyWhen`).
  - So a cycle of objects that may all move uses up any headroom, because its copies lead round to
    the originals again (`CollectCycleUsesUpHeadroom`).
  - Once the headroom has run out, an object still stays shared by the slots that are traced late. For
    two slots of the first conservative root there is an exact condition that can be checked before
    the collection, headroom or not (`PairSharesExactlyWhen`), and a run to a heap on which they part
    (`SharingLost`).
- A precise root slot whose target an earlier slot moved is left at the old address. Slot `j` goes
  stale exactly when the collection evacuates, an earlier slot has the same target, and that target
  moves at its first occurrence, which attempts at the different targets before it decide
  (`RootSurvivesExactlyWhen`; `RootLeftStale` gives a heap that a run reaches).
- `is_in_space` admits the end of the mapping. For that one address `filter` reads the word after the
  last one of the bitmap (`BoundIsPastTheMap`, `Immix.Filter`).
- The safepoint lock and the thread-list lock cannot deadlock, but the wait for the world never ends if
  the awaited thread is itself inside `immix_register_thread` or `immix_unregister_thread`
  (`WaitCanEndExactlyWhen`; `WedgedIsReached` gives a run).
- A thread is put on the thread list only the first time it registers (`RegisterListsExactlyWhen`), so
  one that has unregistered never comes back (`UnregisteredForEver`; `GoneIsReached` gives a run).
- A requested collection is skipped when the weak compare-exchange fails for no reason
  (`CollectionSkipped`).
- The sweep keeps a list of blocks without a hole for the collector. The header line of a block is
  never marked, so that list always ends up empty (`NothingUnavailable`).

## Model

| member | source | states |
|---|---|---|
| `Constants.AlignUp` | src/object.rs:235-241 | the result is the least multiple of 16 that is not below the value |
| `Constants.RequestedSizeIsReportedSize` | src/object.rs:44-49 | the size requested by `immix_alloc_safe` and the size the RTTI macro reports agree after alignment exactly when the value size is 1 to 8 modulo 16 |
| `SpaceBitmap.BitmapCovers` | src/space_bitmap.rs:424-430 | the bitmap covers the region exactly when the needed word count is even; for page-sized capacities it covers it with no word to spare |
| `SpaceBitmap.BoundIsPastTheMap` | src/block_allocator.rs:208-210 | of all addresses up to the bound, exactly the bound itself has its bit past the last word |
| `SpaceBitmap.SpaceBitmap.constructor` | src/space_bitmap.rs:470-480 | a new map is empty and covers the region |
| `SpaceBitmap.SpaceBitmap.Test` | src/space_bitmap.rs:482-490 | tells whether the unit of an address is in the set |
| `SpaceBitmap.SpaceBitmap.Modify` | src/space_bitmap.rs:491-509 | adds or removes exactly one unit and returns whether it was there |
| `SpaceBitmap.SpaceBitmap.ClearHead` | src/space_bitmap.rs:528-550 | clears exactly the units up to a word boundary or the end of the range |
| `SpaceBitmap.SpaceBitmap.ClearTail` | src/space_bitmap.rs:528-550 | clears exactly the units down to a word boundary or the start of the range |
| `SpaceBitmap.SpaceBitmap.ZeroWords` | src/space_bitmap.rs:528-550 | clears exactly the units of whole words |
| `SpaceBitmap.SpaceBitmap.ClearRange` | src/space_bitmap.rs:528-550 | removes exactly the units of [begin, end), wherever the ends fall within words, also for an empty range |
| `SpaceBitmap.SpaceBitmap.ListedExactly` | src/space_bitmap.rs:265-284 | the visited list holds an address exactly when its unit is set |
| `SpaceBitmap.SpaceBitmap.ListedIncreases` | src/space_bitmap.rs:265-284 | the visited list is strictly increasing, so each address is visited once |
| `SpaceBitmap.SpaceBitmap.WalkWord` | src/space_bitmap.rs:270-282 | flipping the lowest set bit until the word is zero visits that word's part of the list |
| `SpaceBitmap.SpaceBitmap.Walk` | src/space_bitmap.rs:265-284 | the walk visits exactly that list |
| `SpaceBitmap.SpaceBitmap.ClearObjects` | src/collector.rs:191-198 | seen as addresses, clearing a block removes exactly the addresses inside it |
| `SpaceBitmap.SpaceBitmap.SetObject` | src/allocation.rs:523-525 | seen as addresses, setting adds exactly one address |
| `LineMap.LineMap.ClearAll` | src/util/bitmap_const.rs:9-13 | no line is marked afterwards |
| `LineMap.LineMap.Test` | src/util/bitmap_const.rs:116-126 | tells whether a line is marked |
| `LineMap.LineMap.Set` | src/util/bitmap_const.rs:127-138 | marks exactly one line and tells whether that changed anything |
| `LineMap.LineMap.Clear` | src/util/bitmap_const.rs:139-150 | unmarks exactly one line and tells whether that changed anything |
| `Lines.FirstHoleIsLeast` | src/block.rs:83-132 | scanning finds a hole whenever one exists, and the least one |
| `Lines.HoleEndIsFirst` | src/block.rs:83-132 | a hole reaches up to the first marked line |
| `Lines.RunInFirstHole` | src/block.rs:83-132 | a long enough run of unmarked lines past the start is the hole that scanning returns, or lies after it |
| `Lines.ScanRound` | src/block.rs:83-132 | the three outcomes of a round of the scan are the right ones, and a repeated round starts at a higher line |
| `Lines.LastLineMissed` | src/block.rs:170-189 | marking misses the last line an object touches exactly when its offset and size, both modulo the line size, exceed a line together |
| `Lines.HoleIsClear` | src/block.rs:83-189 | no byte of a line-marked object lies in a hole returned by the scan, although its last line may be unmarked |
| `Lines.RestStep` | src/block.rs:133-150 | one round of the counting loop accounts for the sum over maximal runs |
| `Lines.HoleWeightBounds` | src/block.rs:133-150 | the hole count is at most half the lines, and zero exactly when every line is marked |
| `Block.ImmixBlock.ScanBlock` | src/block.rs:83-132 | the two search loops and the recursion return the specified hole, for every line map and start |
| `Block.ImmixBlock.FindLine` | src/block.rs:86-112 | the first line with the wanted mark |
| `Block.ImmixBlock.CountHoles` | src/block.rs:133-150 | the count is the sum over maximal unmarked runs of half their length, rounded up |
| `Block.ImmixBlock.IsEmpty` | src/block.rs:155-165 | true exactly when no line is marked |
| `Block.ImmixBlock.ModifyLine` | src/block.rs:170-189 | marks or clears exactly the object's first line and size/128 more, all below line 256 |
| `Block.ImmixBlock.CountHolesAndMarkedLines` | src/block.rs:196-215 | the stored hole count and the number of marked lines |
| `Block.ImmixBlock.CountHolesAndAvailableLines` | src/block.rs:217-229 | the stored hole count and the number of unmarked lines |
| `Block.ImmixBlock.Reset` | src/block.rs:231-237 | a reset block has no marks, holes or flags |
| `Header.DecodeEncode` | src/util.rs:15-35 | reading back a header word gives the pointer and the three tags that were packed |
| `Header.EncodeDecode` | src/util.rs:15-35 | every word is the packing of what it decodes to |
| `Header.RawGc.Mark` | src/object.rs:192-199 | changes the mark only and tells whether it already had that value |
| `Header.RawGc.GetMark` | src/object.rs:200-203 | the mark that the word carries |
| `Header.RawGc.IsPinned` | src/object.rs:209-213 | the pin that the word carries |
| `Header.RawGc.IsForwarded` | src/object.rs:219-221 | the forwarded tag that the word carries |
| `Header.RawGc.Pin` | src/object.rs:204-208 | changes the pin only |
| `Header.RawGc.Unpin` | src/object.rs:214-218 | changes the pin only |
| `Header.RawGc.SetForwarded` | src/object.rs:222-226 | the word now holds the forwarding address, the forwarded tag and no other tag |
| `Header.RawGc.Pointer` | src/object.rs:228-231 | the pointer without its tags |
| `AllocationProofs.ScanWindowClear` | src/allocation.rs:62-74 | every window reached by scanning on from a clear window is clear of objects |
| `AllocationProofs.AllocateKeepsLayout` | src/allocation.rs:42-89 | an allocated object is new and disjoint from all others inside one block, the layout is kept, and every carved block stays in exactly one place, also when allocation fails |
| `AllocationProofs.EvacAllocate` | src/allocation.rs:359-398 | a successful evacuation allocation strictly uses up evacuation space and lands in a block that is no candidate |
| `AllocationProofs.EvacExhausted` | src/allocation.rs:359-398 | the evacuation allocation that follows a failed one fails too, whatever its size, and changes nothing |
| `AllocationProofs.SmallFits` | src/allocation.rs:62-74 | a window yields no room for a small object exactly when its rest is too small and no hole follows |
| `AllocationProofs.SmallAllocationFailsOnlyWhenExhausted` | src/allocation.rs:42-60 | small-object allocation returns null exactly when the current block and all recyclable blocks have no usable hole, the free list is empty and less than a block is left to carve |
| `AllocationProofs.ScanWindowFitsExactlyWhen` | src/allocation.rs:62-74 | for any size, the window and the holes after it have room exactly when the rest of the window has or the lines after it hold a long enough run of unmarked ones: no hole is passed over |
| `AllocationProofs.MediumAllocationFailsOnlyWhenExhausted` | src/allocation.rs:295-301 | medium-object allocation returns null exactly when the current overflow block has no such room, the free list is empty and less than a block is left to carve |
| `AllocationProofs.NextObjectFollows` | src/allocation.rs:76-89 | while the window has room, the next object starts where the last one ended |
| `Trace.MarkLinesKeepsLayout` | src/block.rs:170-189 | marking lines keeps the layout and never touches line 0 or a line past 255 |
| `Trace.TraceNextKeeps` | src/collector.rs:68-98 | every round of the queue loop lowers the lexicographic measure of evacuation space, unmarked objects and queue length |
| `Trace.TraceAllKeeps` | src/collector.rs:68-98 | the loop terminates on every heap, with an empty queue and the layout kept |
| `Trace.TraceRootsKeeps` | src/collector.rs:47-65 | the precise-root loop keeps the layout and all references valid |
| `TraceProofs.TraceAllInv` | src/collector.rs:68-98 | the simulation, tricolour, index, line and byte invariants hold throughout the queue loop |
| `TraceProofs.TraceRootsInv` | src/collector.rs:47-65 | the same through the precise-root loop, including forwarding |
| `TraceTheorems.TraceFinishes` | src/collector.rs:40-101 | after the trace all invariants hold with an empty queue, conservative roots are marked in place, and each precise root is at a survivor unless an earlier root moved its target |
| `TraceTheorems.SurvivorsSimulate` | src/collector.rs:16-36 | every survivor is a reachable original or a copy of one with equal payload, and each of its slots leads to the original or a copy of what the slot led to |
| `TraceTheorems.RoutesPreserved` | src/collector.rs:16-101 | following the same slots before and after leads to the same payloads, for routes of any length, and no route appears or disappears |
| `TraceTheorems.SurvivorsAreTheReachable` | src/collector.rs:40-101 | an object is reachable exactly when it or a copy of it survives, in every collection, also when headroom runs out midway |
| `TraceTheorems.PinnedNeverMoves` | src/allocation.rs:535-542 | a pinned object has no copy and is not forwarded |
| `TraceTheorems.CopiesAreNotCopied` | src/allocation.rs:535-551 | a copy is never evacuated again |
| `TraceTheorems.StillCollection` | src/collector.rs:40-101 | when nothing can move, exactly the reachable objects are marked, `visited` is the sum of their sizes with each counted once, and only marks change |
| `TraceTheorems.MovesExactlyWhen` | src/allocation.rs:535-551 | an object moves exactly when it is unpinned, in a candidate block, and the evacuation allocator has room |
| `TraceTheorems.TraceAllMakesNoCopy` | src/collector.rs:68-98 | once the headroom is used up, the rest of the queue loop makes no copy, although it goes on marking lines |
| `TraceTheorems.TraceRootsMakeNoCopy` | src/collector.rs:48-65 | nor do the precise roots that are left |
| `TraceTheorems.FailureEndsEvacuation` | src/allocation.rs:535-551 | once one evacuation of a candidate fails, no later one in that collection succeeds: not for the slots at hand, not for the roots left, not in the loop |
| `RootSlots.AllRootsDone` | src/collector.rs:48-65 | after any number of roots the space, the forwarded originals and the root values are those foretold by attempts at the first occurrences of the targets |
| `RootSlots.RootSurvivesExactlyWhen` | src/collector.rs:48-65 | a precise root slot ends at a survivor exactly when it is not foretold to go stale, a condition on the heap and the roots before the call; a stale slot holds the old address of a forwarded target |
| `RootSlots.DifferentTargetsSurvive` | src/collector.rs:48-65 | with different targets no slot goes stale |
| `Sharing.TraceRootsSharing` | src/collector.rs:48-65 | through the root loop every copy stems from an unpinned object in a candidate block and is the one its original forwards to |
| `Sharing.TraceAllSharing` | src/collector.rs:16-98 | through the queue loop every copy stems from such an object, a forwarded original has one copy, and a copy that nothing forwards to is in one slot only |
| `Sharing.ForwardedAsForetold` | src/collector.rs:53-61 | after the trace exactly the foretold precise-root targets are forwarded |
| `Sharing.OneStandIn` | src/collector.rs:40-101 | an object that is pinned, outside the candidate blocks or the target of a precise root, and any object when nothing can move, has one surviving stand-in |
| `Sharing.SharingKept` | src/collector.rs:40-101 | so all surviving slots that led to it lead to one and the same object |
| `Sharing.SharedExactlyWhen` | src/collector.rs:16-61 | any two surviving slots that led to one object share it after the trace exactly when it was moved as a root target, which is foretold, or neither slot was given a copy |
| `Sharing.PairSharesExactlyWhen` | src/collector.rs:16-36 | two slots of the first conservative root that shared an object share it afterwards exactly when a precise root leads to it or it does not move at the first of them, a condition on the heap before the call: the attempts at the precise roots and at the slots before decide whether there is room |
| `Evacuation.TraceAllRefuses` | src/collector.rs:16-98 | through the queue loop, an unpinned object of a candidate block stays where it was only if it was refused for want of room |
| `Evacuation.SharedExactlyWhenWhole` | src/collector.rs:16-61 | if the trace does not use up the headroom, any two surviving slots that led to one object share it exactly when nothing can move, the object is pinned or outside the candidate blocks, or a precise root leads to it |
| `Evacuation.RoutesMeetExactlyWhen` | src/collector.rs:16-101 | and two routes of any length from objects that stay whole end at one survivor exactly when they join at an object that stays whole and are the same from there on |
| `Evacuation.CycleUsesUpHeadroom` | src/collector.rs:16-36 | a reachable cycle of which no object stays whole uses up the headroom, whatever the sizes |
| `Evacuation.CandidatesEvacuated` | src/collector.rs:16-61 | if the trace does not use up the headroom, only pinned objects survive in candidate blocks |
| `Evacuation.CandidateVacated` | src/collector.rs:40-101 | so a candidate block with nothing pinned in it holds no survivor |
| `Histogram.BucketsAreLines` | src/collector.rs:271-295 | summing histogram buckets equals summing over the blocks |
| `Histogram.LeastEnough` | src/collector.rs:283-294 | the least threshold at which the headroom left no longer exceeds the lines to copy, or 256 |
| `Histogram.BuildHistogram` | src/collector.rs:272-282 | the first loop builds the histogram of the listed blocks |
| `Histogram.EstablishHoleThreshold` | src/collector.rs:271-295 | the running sums with saturating subtraction find that least threshold |
| `Histogram.NoHeadroomNoEvacuation` | src/collector.rs:158-161 | without headroom the threshold is 0 |
| `CollectionProofs.OrdinaryEvacuationHasHeadroom` | src/collector.rs:132-179 | a collection that is no emergency evacuates only with headroom |
| `Candidates.EvacuatesExactlyWhen` | src/collector.rs:140-170 | a collection evacuates exactly in an emergency, or if it is asked to or less than a quarter of the blocks is available, and the headroom is worth more than the blocks without a hole |
| `Candidates.ThresholdReachedExactlyWhen` | src/collector.rs:283-294 | a hole count reaches the least sufficient threshold exactly if it is itself sufficient, or 256 |
| `Candidates.SelectedExactlyWhen` | src/collector.rs:140-170 | of the listed blocks exactly the sufficiently fragmented ones become candidates, all in an emergency, and nothing else in any header changes |
| `Candidates.MoreHolesSelectedToo` | src/collector.rs:162-169 | a listed block with at least as many holes as a candidate is a candidate |
| `Candidates.FreeFigure` | src/collector.rs:272-282 | the available lines up to a threshold are the unmarked lines of the listed blocks with at most that many holes |
| `Candidates.MarkFigure` | src/collector.rs:237-250 | the recorded lines up to a threshold are the marked lines of the kept blocks with at most that many holes |
| `CollectionProofs.GatherKeeps` | src/allocation.rs:496-505 | draining the allocators loses and duplicates no block and keeps the layout |
| `CollectionProofs.BeforeReady` | src/lib.rs:206-256 | pinning, gathering, preparing and clearing leave a heap on which the trace can start, with no mark, line or index entry of the last collection left |
| `CollectionProofs.SweepPartitions` | src/collector.rs:226-267 | the swept lists partition the blocks; freed ones had no mark and are reset, the others are classified by their hole count |
| `CollectionProofs.NothingUnavailable` | src/collector.rs:253-265 | the collector's own list is empty after every sweep |
| `CollectionProofs.FreedExactlyWhenVacant` | src/collector.rs:231-236 | a block has no marked line, so is freed, exactly when it holds no survivor |
| `CollectionProofs.HandOutLaidOut` | src/collector.rs:206-218 | after the sweep's blocks are handed out the survivors are laid out and every block is accounted for |
| `CollectionProofs.HandOutHeadroom` | src/collector.rs:212-218 | the headroom never exceeds its limit, so the refill never underflows, and it is full before any block joins the free list |
| `CollectionProofs.CollectKeepsInv` | src/lib.rs:149-338 | a whole collection keeps the heap invariant, including clean headers, an exact index and block conservation |
| `CollectionProofs.RootLiveExactlyWhen` | src/lib.rs:149-338 | after a whole collection the conservative roots are live, and a precise root slot is live exactly if it was not foretold to go stale |
| `CollectionProofs.CollectPreservesMeaning` | src/lib.rs:149-338 | through every conservative root, and every precise one not foretold to go stale, every route sees the same size, type and payload after a collection as before |
| `CollectionProofs.CollectKeepsSharing` | src/lib.rs:149-338 | all routes from all roots that ended at an object that stays whole end at one and the same object after a collection |
| `CollectionProofs.CollectSharesPairExactlyWhen` | src/lib.rs:149-338 | two slots of the first conservative root that shared an object share it after a whole collection exactly when the first of them is not foretold to be given a copy |
| `CollectionProofs.FirstSlotWillSplitExactlyWhen` | src/lib.rs:149-338 | without precise roots, the first slot is foretold to be given a copy exactly when the collection evacuates, its target may move, and there is headroom |
| `HeapEvacuation.CollectRoutesMeetExactlyWhen` | src/lib.rs:149-338 | after a whole collection whose headroom lasts, routes from any two roots not left stale end at one object exactly when, before it, they join at an object that will stay whole and are the same from there on |
| `HeapEvacuation.CollectCycleUsesUpHeadroom` | src/lib.rs:149-338 | a collection uses up its headroom if a root leads to a cycle of which no object will stay whole |
| `HeapEvacuation.CollectFreesCandidates` | src/lib.rs:149-338 | a collection that evacuates, and whose headroom lasts, leaves no object in a candidate block without a conservative root and frees the block |
| `HeapEvacuation.EmergencyFreesBlocks` | src/collector.rs:132-148 | in an emergency that holds of every block an allocator was using |
| `Candidates.CollectSelectsExactlyWhen` | src/lib.rs:206-256 | a whole collection evacuates, and selects a gathered block, exactly under those conditions on the heap before it |
| `Candidates.UnselectedStay` | src/lib.rs:149-338 | after a collection that is no emergency, every reachable object of a block that is not fragmented is where it was |
| `Candidates.FragmentedFreed` | src/lib.rs:149-338 | and while the headroom lasts, every fragmented block without a conservative root is emptied and freed |
| `Candidates.MarksRecorded` | src/collector.rs:226-267 | after a whole collection the recorded figures are the marked lines of the recyclable blocks |
| `Candidates.HeadroomFirst` | src/collector.rs:206-218 | after a whole collection the headroom is full or no block was given back to the free list |
| `SplitHeap.FamilyIsReached` | src/lib.rs:149-448 | a run from an empty heap, with three allocations and a collection, ends with a parent whose two slots share a child and with a block in the headroom |
| `SplitHeap.SharingLost` | src/collector.rs:26-30 | on that heap, the emergency collection with which the next allocation begins leaves two slots that shared an object at different objects |
| `SplitHeap.SharingKeptThroughRoot` | src/collector.rs:19-22 | on the same heap, with a precise root at the shared object, both slots and the root end at one object |
| `SplitHeap.RootLeftStale` | src/collector.rs:53-54 | on the same heap, the second of two precise roots at one object is left at an address where nothing lives |
| `CollectionProofs.StillCollectionKeepsExactlyTheReachable` | src/lib.rs:149-338 | when nothing can move, exactly the reachable objects remain, unchanged but for the flipped mark, and the byte count is their total |
| `HeapRuns.PlaceKeepsInv` | src/lib.rs:413-434 | placing an object keeps the invariant; the object is new and its slots lead where they were asked to, and all others are as they were |
| `HeapRuns.WriteKeepsInv` | src/object.rs:258-269 | a slot write of a live reference keeps the invariant; the slot leads there, every other slot where it did, and nothing else changes |
| `HeapRuns.RootsStayLive` | src/collector.rs:48-65 | the roots are live again after a collection that is foretold to leave none stale, and different targets stay different |
| `HeapRuns.AllocateObjectKeepsInv` | src/lib.rs:401-434 | an allocation with the collections it triggers keeps the invariant and the conservative roots, returns a live object, and keeps every precise root not foretold to go stale; with different targets all roots are live again |
| `HeapRuns.DifferentTargetsNeverStale` | src/lib.rs:401-434 | an allocation leaves no root with different targets stale, in neither of its collections |
| `HeapRuns.DifferentTargetsCanAllocate` | src/lib.rs:401-434 | roots with different targets always meet what an allocation asks of them |
| `HeapRuns.FirstAllocation` | src/lib.rs:401-434 | every request can be made of an empty heap of any size, and is a run |
| `HeapRuns.RunsKeepInv` | src/lib.rs:149-448 | every state of every run of allocations, slot writes and collections satisfies the invariant |
| `HeapRuns.RunsAreSafe` | src/lib.rs:149-448 | in every state of every run objects are disjoint, aligned and inside their blocks, none lies in a window, hole or block that may be handed out next, each block is in one place and the blocks add up, the headroom is within its limit, the index and the byte count are exact, and headers are clean |
| `HeapRuns.ObjectsAreAsAllocated` | src/lib.rs:247-276 | in every run every object still has the size, payload, type information and slot count that some earlier allocation gave it, through mark flips, slot writes and evacuations |
| `HeapRuns.ObjectInBlock` | src/allocation.rs:83-89 | every object is 16-aligned inside one carved block, above its header line |
| `HeapRuns.ObjectsDisjoint` | src/allocation.rs:83-89 | any two objects occupy disjoint ranges |
| `HeapRuns.WindowsAreFree` | src/allocation.rs:42-89 | no object lies in a free block, in the headroom, in any hole of a recyclable block, in a current window, or in any hole of its block after it |
| `HeapRuns.EveryBlockInOnePlace` | src/allocation.rs:131-148 | every carved block is in exactly one of the free list, the headroom and the allocators' lists and windows |
| `HeapRuns.BlocksAddUp` | src/block_allocator.rs:159-161 | available blocks and blocks in use add up to `total_blocks` |
| `HeapRuns.ThresholdRises` | src/lib.rs:278-283 | after a collection the threshold is above the bytes in use unless the heap is empty |
| `HeapRuns.ThresholdFollowsUse` | src/lib.rs:278-283 | a collection changes the threshold only if the surviving bytes have reached it, and then to seven quarters of them |
| `HeapRuns.AllocatePreservesMeaning` | src/lib.rs:401-434 | an allocation changes nothing the roots can see, except through a precise root slot foretold to go stale, and returns the requested object with the requested slots |
| `HeapRuns.ObjectRefusedExactlyWhenFull` | src/lib.rs:415-424 | an object of any size is placed if the heap at hand has room for it, and otherwise refused exactly when the heap after an emergency collection has none either |
| `HeapRuns.AllocationCollectsExactlyWhen` | src/lib.rs:401-424 | an allocation collects exactly if the bytes in use have reached the threshold, and again exactly if the heap then has no room; the live mark flips with each |
| `ImmixSpace.ImmixSpace.BuildBlock` | src/block_allocator.rs:212-232 | carves the next block exactly when the region still has one |
| `ImmixSpace.ImmixSpace.GetBlock` | src/block_allocator.rs:184-206 | pops a free block with a cleared header, or carves one |
| `ImmixSpace.ImmixSpace.ScanForHole` | src/allocation.rs:62-74 | finds the first hole with room; a block without one becomes unavailable and is not lost |
| `ImmixSpace.ImmixSpace.HandleNoHole` | src/allocation.rs:180-216 | takes recyclable blocks until one has room |
| `ImmixSpace.ImmixSpace.GetNewBlock` | src/allocation.rs:172-179 | a fresh window past the header line, from the region for new objects and from the headroom for copies |
| `ImmixSpace.ImmixSpace.Allocate` | src/allocation.rs:42-60 | the imperative allocator computes the specified space and address |
| `ImmixSpace.ImmixSpace.GetAllBlocks` | src/allocation.rs:496-505 | returns every held block and keeps only the headroom |
| `ImmixSpace.ImmixSpace.ReturnBlocks` | src/block_allocator.rs:235-250 | the blocks join the free list |
| `Immix.Immix.constructor` | src/lib.rs:450-480 | a new heap is empty and satisfies the invariant |
| `Immix.Immix.Filter` | src/allocation.rs:421-439 | an address is found exactly when it starts an object allocated since, or marked by, the last collection; for the end of the mapping, and no other address, the word read is past the map |
| `Immix.Immix.Evacuate` | src/allocation.rs:535-551 | copies exactly the unpinned objects of candidate blocks while there is room |
| `Immix.Immix.VisitSlot` | src/collector.rs:16-36 | the slot, the copy and the queue become what the trace specifies |
| `Immix.Immix.VisitReferences` | src/collector.rs:80-95 | all slots of an object in order |
| `Immix.Immix.VisitRoots` | src/collector.rs:48-65 | the precise-root loop with forwarding computes the specified state and root values |
| `Immix.Immix.ProcessQueue` | src/collector.rs:68-98 | the worklist loop computes the specified final state and byte count |
| `Immix.Immix.PrepareCollection` | src/collector.rs:132-179 | sets the candidates and decides on evacuation as specified |
| `Immix.Immix.ClearMarks` | src/collector.rs:191-198 | clears the lines of the listed blocks and exactly their bits |
| `Immix.Immix.SweepAllBlocks` | src/collector.rs:226-267 | the draining loop computes the specified lists and histogram |
| `Immix.Immix.SweepAndHandOut` | src/collector.rs:206-218 | recyclable, headroom and free lists become what the sweep hands out |
| `Immix.Immix.CollectorTrace` | src/collector.rs:40-101 | from cleared marks, the two loops compute the specified trace |
| `Immix.Immix.CollectGarbage` | src/lib.rs:149-338 | the phases in order compute the specified collection and keep the invariant |
| `Immix.Immix.PlaceObject` | src/allocation.rs:507-522 | one attempt at placing an object, with its bit set and header written |
| `Immix.Immix.AllocateInHeap` | src/lib.rs:401-434 | an allocation with its two possible collections computes the specified heap and keeps the invariant |
| `Mutex.PerformKeepsInv` | src/util/locks.rs:148-457 | every step of every thread keeps the mutex invariant, across timeouts, handoffs and racing compare-exchanges |
| `Mutex.RunsKeepInv` | src/util/locks.rs:148-457 | the invariant holds throughout every interleaving of any number of threads |
| `Mutex.MutualExclusion` | src/util/locks.rs:148-192 | at most one owner at every point of every run, counting a thread that holds a handed-off lock |
| `Mutex.StateTable` | src/util/locks.rs:118-136 | what each of the four bit combinations says about owners, parked threads and threads about to park |
| `Mutex.SlowUnlockServesTheFirst` | src/util/locks.rs:418-449 | the slow unlock wakes the longest-parked thread, with the lock in hand if fair |
| `Mutex.MutexIsALock` | src/util/locks.rs:148-457 | every step refines a plain lock with one holder; taking the lock means being inside, and an unlock releases it at once or at the callback |
| `Mutex.OwnerHandsOver` | src/util/locks.rs:418-449 | a fair release hands the lock to the first parked thread |
| `Mutex.ContenderAcquires` | src/util/locks.rs:322-415 | with the lock free, an awake contender left alone gets it |
| `Mutex.ParkedThreadsCanBeServed` | src/util/locks.rs:322-449 | no wake-up is lost: from every reachable state, every parked thread can still be given the lock |
| `MutexCalls.UnlockReleases` | src/util/locks.rs:183-212 | a whole unlock leaves the caller outside and the lock free, or, if threads are parked, with the first of them, in hand if fair and to compete for if not; nobody else moves |
| `MutexCalls.BumpLetsTheFirstIn` | src/util/locks.rs:217-221 | a bump hands the lock to the first parked thread and lines the caller up again, and does nothing if the parked bit is down |
| `MutexCalls.TimeOutLeaves` | src/util/locks.rs:367-373 | a thread whose time is up leaves its place in the queue to those behind it and nothing changes hands |
| `MutexCalls.CallerAcquires` | src/util/locks.rs:149-158 | a call of `lock` on a free lock gets it if left alone, at once if nobody is parked |
| `MutexCalls.WaiterParks` | src/util/locks.rs:322-390 | while another thread has the lock, a waiting thread left alone goes to sleep at the end of the queue and moves nobody |
| `MutexCalls.OnlyParkedThreadsWait` | src/util/locks.rs:322-449 | only a parked thread ever waits for another one to act |
| `MutexCalls.TryLockAlone` | src/util/locks.rs:161-179 | `try_lock` left alone gets a free lock, and otherwise changes nothing |
| `MutexCalls.TryLockFailsOnlyIfHeld` | src/util/locks.rs:161-179 | in every run, `try_lock` gives up only if some thread had the lock at a point of the call |
| `ReentrantMutex.PerformKeepsInv` | src/util/locks.rs:459-530 | every step keeps the owner field, the count and the parking mutex in agreement |
| `ReentrantMutex.RunsKeepInv` | src/util/locks.rs:459-530 | so does every interleaving |
| `ReentrantMutex.DepthIsCalls` | src/util/locks.rs:473-514 | in every run, a thread that has not panicked is as deep as its calls of `lock` less its calls of `unlock` say |
| `ReentrantMutex.ReentrantExclusion` | src/util/locks.rs:473-485 | a thread outside operations has the lock exactly if it called `lock` more often than `unlock`; at most one thread does, and the count is the difference |
| `ReentrantMutex.OwnerCheckIsExact` | src/util/locks.rs:474-481 | the unsynchronised owner check lets a thread in without waiting exactly when it already has the lock |
| `ReentrantMutex.UnlockPanicsExactlyWhenNotHeld` | src/util/locks.rs:501-514 | unlocking panics exactly when the caller does not have the lock; the count never underflows |
| `ReentrantMutex.OutermostUnlockReleases` | src/util/locks.rs:507-513 | the parking mutex is released exactly at the outermost unlock |
| `ReentrantMutex.OnlyParkedThreadsWait` | src/util/locks.rs:473-514 | a thread in an operation can always go on unless it panicked or sleeps in the parking mutex |
| `Safepoint.PerformKeepsInv` | src/safepoint.rs:128-198 | every step keeps the locks, the running flag and the thread list in agreement |
| `Safepoint.OneCollector` | src/safepoint.rs:128-183 | at most one thread is between a true start and the clearing of the flag, and the flag says whether there is one |
| `Safepoint.GuardSectionsDoNotOverlap` | src/safepoint.rs:147-172 | sections that hold the guard of the thread list never overlap |
| `Safepoint.NoLockDeadlock` | src/safepoint.rs:128-183 | although the two locks are taken in opposite orders, every chain of waits ends after at most two steps at a thread that can go on or at the collector waiting for a mutator |
| `Safepoint.WaitCanEndExactlyWhen` | src/safepoint.rs:147-172 | the collector's wait for a thread can end exactly when that thread is outside registration and unregistration |
| `Safepoint.WedgedForEver` | src/safepoint.rs:147-172 | otherwise no continuation ends it |
| `Safepoint.WedgeFrom` | src/threading.rs:163-182 | it can be brought about from every idle state by unregistering the first listed thread during a collection |
| `Safepoint.WedgedIsReached` | src/threading.rs:153-182 | a run from the initial state that reaches it |
| `Safepoint.CollectionSkipped` | src/safepoint.rs:133-140 | after a spurious failure of the exchange the call returns with no collection run or running |
| `Safepoint.RegisterListsExactlyWhen` | src/threading.rs:153-160 | a registration of an unlisted thread lists it exactly if it was never registered before |
| `Safepoint.PreparedExactlyWhen` | src/threading.rs:98-114 | in every run a thread counts as registered before exactly when one of its earlier steps registered it |
| `Safepoint.UnregisteredForEver` | src/threading.rs:98-114 | a thread once registered and no longer listed is never listed again |
| `Safepoint.GoneIsReached` | src/threading.rs:163-182 | a run from the initial state that reaches this |
| `SafepointCalls.WorldHasStopped` | src/safepoint.rs:147-172 | in every run, when a thread goes on to collect, every other listed thread has been safe at some point since its wait for the world began |
| `SafepointCalls.CollectsAfterWaiting` | src/lib.rs:157-168 | a thread comes to collect only from that wait |
| `SafepointCalls.LoserWaitsForTheEnd` | src/safepoint.rs:185-198 | a thread that lost the race goes on exactly when no collection is running |
| `SafepointCalls.LoneCollection` | src/safepoint.rs:128-183 | a whole collection with nobody in the way ends, and leaves the locks, the flag, the list and every `gc_state` as they were |
| `SafepointCalls.CollectRestoresState` | src/lib.rs:157-168 | in every run, a collection returns with the caller's `gc_state` as it was at the call, whether it won or lost the race |
| `SafepointCalls.OwnStateOnly` | src/threading.rs:183-218 | a thread's `gc_state` changes only by its own steps |
| `SafepointCalls.MutatorSetsState` | src/threading.rs:183-210 | entering and leaving the safe state set the caller's own `gc_state` and nothing else |
| `SafepointCalls.LoneRegistration` | src/threading.rs:153-182 | registering appends a thread that was never registered, unregistering removes it wherever it stands, and nothing else changes |

## Left out

- `LargeObjectSpace`: objects of `LARGE_OBJECT` bytes or more; nothing in the code sets their mark, so no survival claim is supported.
- Finalizers: the list is read after the sweep and not updated for moved objects.
- Conservative scanning of raw stack memory: the roots are inputs that have passed `filter`; the second probe eight bytes below each word is not modelled.
- That mutators stay stopped during a collection: this rests on page protection, and `enable_safepoint` and `disable_safepoint` request the same protection.
- `visit_marked_range`, `sweep_walk` and the atomic variants of the object bitmap.
- Mapping, committing and returning memory: fresh and returned blocks read as cleared headers.
- Timers, statistics, logging and the C interface.
- Weak memory: atomic accesses are sequentially consistent steps; weak compare-exchanges may fail spuriously.
- The parking lot: parking, unparking and timing out are atomic with their callbacks, which is what its bucket lock provides.
- The condition-variable hooks `mark_parked_if_locked` and `mark_parked`, and the spin lock `GCSpinLock`.
- Integer widths: hole offsets of 16 bits, the 32-bit nesting count and 64-bit byte counts are unbounded here; the factors 0.25 and 1.75 are exact integer quotients.
- Headers in the heap: `Immix` and `ImmixSpace` keep each block header and each object header as a value in a map; `Block.ImmixBlock` and `Header.RawGc` model them as lines and words updated in place, sharing the functions of `Lines` and the record of `Header`.
- The memory of dead objects: the model forgets them at the sweep, so it says nothing about reads of dead memory.
- The `allocated` flag of a block header: it is set and cleared as in the code, but only a function that nothing calls reads it, so nothing is proved about it.
- Several threads allocating at once: the heap is that of the build without threads; the lock models stand beside it.
- Sharing.SharedExactlyWhen: does not tell before the collection which slots are still given a copy when the headroom runs out on the way; while it lasts `SharedExactlyWhenWhole` does, and for the slots of the first conservative root `PairSharesExactlyWhen` always does.
- Evacuation.RoutesMeetExactlyWhen: assumes that the headroom lasts, which is a condition on the trace and not on the heap before it, and so do the other results of `Evacuation` and `HeapEvacuation`; `CycleUsesUpHeadroom` gives a family of heaps on which it never lasts.
- HeapRuns.AllocateObjectKeepsInv: excludes an allocation whose second collection would read a root slot that its first one left stale, because the model keeps no dead memory to read.
