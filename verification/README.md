# Twizzler kernel: a Dafny model

A model, in Dafny 4.11, of the parts of the Twizzler kernel (and of one user program) that
are hard to get right and do not depend on hardware, with proofs of what they promise:

| file | what it models |
|---|---|
| `PageRanges.dfy` | page ranges, the tree of disjoint ranges of an object, the splice and the page-sharing loop of object copies |
| `ObjectStore.dfy` | all objects at once: trees over shared page vectors; private copies, adding pages |
| `RangeSharing.dfy` | who shares a backing, and how making a page writable changes that for the pages after it |
| `ObjectMemory.dfy` | the operations on that state (`get_page`, `add_page`, `split_into_three`, ...) as methods of a class |
| `ObjectCopy.dfy` | copying part of a page between objects |
| `LastPage.dfy` | when the last partial page of a copy can be written |
| `CopyRanges.dfy` | `copy_ranges` with equal misalignment, `copy_range_to_shadow` |
| `ByteCopy.dfy` | `copy_bytes`, and both kinds of copy together |
| `FrameAllocator.dfy` | the three-level physical frame allocator |
| `Tracker.dfy` | the lock-free memory tracker above it, as interleaved steps, and its two operations run alone |
| `TimeoutWheel.dfy` | the timeout wheel, its cancel keys and its thread |
| `Inflight.dfy` | the table of pager requests in flight |
| `SyncRegion.dfy` | dirty bits, runs of dirty pages, evict requests |
| `RunQueue.dfy` | the run queue as interleaved steps, and `insert` and `take` run alone |
| `Timeshare.dfy`, `PriorityQueues.dfy`, `ThreadLists.dfy` | the timeshare ring; the queues of the other two classes; what they share |
| `Disk.dfy` | the byte-addressed disk over a page device |
| `Sums.dfy`, `Options.dfy`, `PageSize.dfy` | sums over sequences, optional values, bytes and pages |

Code that updates things in place is a class with the source's fields, or a method with the
source's loop; a method is proved against a function or predicate on values, and what the
source promises is proved about those. Code whose point is concurrency (tracker, run queue)
is a state machine: a step for each atomic operation or locked section, and theorems about
every run.

## How the model reads the source

* **Object trees.** The non-overlapping interval tree is a map from each covered page number
  to the range that covers it. `range` and the kicked-out list of `insert_replace` are
  `Overlapping`, proved to be the overlapping entries, each once, in increasing order.
  Reference-counted page vectors and pages are identities; `is_shared` holds if a second
  range, of any object, holds the same backing. The *contents* of an object are a map from
  page number to bytes; a page that is not there reads as zeros. Two facts about pages are
  kept by every operation: a page is in at most one place of one vector, and no page is both
  in a vector and held by a range directly.
  Source and destination of a copy are different objects; locking the two trees asserts that.
* **The allocator** handed to the copies is asked for zeroed frames, as the system call does; it
  is a count of frames it can still give.
* **Page references** are one page long. Longer ones are switched off where pages arrive
  from the pager, and `PageRange::add_page` forgets the offset for them.
* **Frames.** Addresses are frame numbers; a region's intrusive lists are sequences whose end
  is the back. A block that has been popped and is not yet marked allocated is the parameter
  `out` of the invariant.
  Requests are for one of the three block sizes, as those of all callers are. A frame inside a
  block has the metadata that carving reset it to: one frame, no KERNEL flag. Regions come from
  ranges of memory that do not meet.
* **Counters** of the tracker and the run queue are integers, so that a subtraction below
  zero would show; clocks and keys are unbounded.
* **Interleaving** is sequentially consistent: each atomic operation is one step.

## What turned out not to hold

* `add_page` does not always just put the page there. Cut out of a shared range, the page
  keeps the index it had in the dropped vector and is not found again unless that was 0
  (`ObjectStore.AddPageCanLoseThePage`); extending a range brings back what its vector still
  holds past its window (`ObjectStore.AddPageCanBringBackPages`). `AddPageUpdatesIff` gives
  the exact condition, `AddPageOk`, under which it updates one place of one object, and
  `NewPageWritableIff` the same for a copy that finds its destination page missing.
* So a copy can change what it should not: into the page after a stale range, it completes and
  an old page outside its window comes back (`ObjectCopy.CopyBringsBack`, in general
  `GapShows`); into a hole of a shared range, the page written to is lost (`CutOutLost`).
* Sharing whole pages can make a place unfit for the partial page that follows: it cuts the
  destination's range in two, both parts stay on one vector, which now counts as shared, and a
  page that `add_page` could have put there before is lost (`LastPage.SharingStrandsLastPage`,
  and the whole family `LastPage.Stranded`). `LastPageIff` gives the exact condition, `LastOk`,
  on the objects before the copy: the page is there, or nothing covers it, or it is at index 0
  of its vector, or every other place on that vector is a destination page that the copy takes
  off it. For `copy_bytes` the condition is that the other places are pages of the window that
  come earlier (`PageFit`); a turn neither helps nor harms a later page (`FitStep`, `DestStep`).
* `copy_ranges` with both unaligned ends inside one page counts two pages and copies a page
  too much, even for length 0 (`CopyRanges.EmptyCopyExample`); destination pages under holes of
  the source keep their contents. `AlignedFlatIff` states exactly when the result is still the
  flat copy, `EffectiveLengthIff` when the length is right. Its third closing assertion holds
  exactly if there are no whole pages or a source range covers the last one
  (`CopyRanges.GapStopsCopy` is a copy where it does not). A partial page that finds no frame is
  left as it was and nobody is told; `CopyAligned` says exactly when (`FramesFor`).
* `copy_bytes` zeroes to the end of the destination page when the source page is missing, and
  so can swallow the beginning of the next source page (`ByteCopy.HoleExample`);
  `CopiedFlatIff` is exact.
* Splitting a block drops its KERNEL flag; if a kernel block is ever split, freeing a child
  takes it off the wrong counter (`Tracker.KernelSplitUnderflows`). `RunExact` shows that the
  use counters are exact after a run exactly if it split no kernel block and freed no frame from
  inside a block. The one caller that splits asks for page data.
* Freeing a frame that heads no block raises `idle` and frees nothing
  (`Tracker.StrayRaisesIdle`); `QuiescentIdle` shows that `idle` is right at rest exactly if that
  never happened.
* A priority queue gives out threads from its lowest band, while `highest_priority` names the
  highest; the two agree exactly if one band has all the threads
  (`PriorityQueues.TakeIsHighestIff`; `LowestFirst` is a queue where they do not).

* In the timeshare ring a higher priority does not always come first: value 0 wraps
  round to the queue of the highest (`Timeshare.HigherSoonerIff` is exact).
* Page-data requests that overlap do not always count as equal, as a comment in the source has
  it: only if the one looked for begins no later than the one in flight
  (`Inflight.OverlapMatchesIff`; `OverlapMissed` are two that do not).

The branch of the page-sharing loops for a hole bigger than the rest of the copy, which a
comment in the source leaves unproved, is unreachable (`PageRanges.CopyFullPages`).

## Model

| member | source | states |
|---|---|---|
| PageRanges.OverlappingIsRange | src/kernel/src/obj/range.rs:493-502 | what the tree yields for a window are entries that overlap it, in increasing order, none overlapping the next |
| PageRanges.OverlappingComplete | src/kernel/src/obj/range.rs:493-502 | no entry that covers a page of the window is missing from it |
| PageRanges.EntriesDisjoint | src/kernel/src/obj/range.rs:483-491 | two entries of a well-formed tree are the same or do not meet |
| PageRanges.InsertInGap | src/kernel/src/obj/range.rs:483-491 | inserting where nothing is covered kicks nothing out and adds exactly that range |
| PageRanges.SplitThreeAt | src/kernel/src/obj/range.rs:245-270 | a split around a page gives that page a one-page range on the new backing; every other page keeps a piece of its range that shows the same backing page |
| PageRanges.SplitThreeOk | src/kernel/src/obj/range.rs:363-425 | splitting keeps the tree's ranges disjoint and complete |
| PageRanges.InsertParts | src/kernel/src/obj/range.rs:409-423 | putting the three parts back kicks nothing, so the three assertions hold, and the tree is the split one |
| PageRanges.Reinsert | src/kernel/src/obj/copy.rs:50-66 | one kicked range cut to what lies outside the window and put back: neither part kicks anything |
| PageRanges.CopyRangeToObjectTree | src/kernel/src/obj/copy.rs:37-67 | a splice: the window shows the source range, every other page a piece of what it had; pieces put back never kick anything, for any number of kicked ranges |
| PageRanges.CopyFullPages | src/kernel/src/obj/copy.rs:221-257 | after the loop every page under a source range shows the source's backing page, every page under a gap its own; point plus remaining is always the window's end, the too-big-hole branch is dead, and nothing remains exactly if the last page is covered |
| PageRanges.LastPageCopied | src/kernel/src/obj/copy.rs:262-262 | the copy point reaches the end of the window exactly if its last page is covered |
| ObjectStore.SamePageSameSlot | src/kernel/src/obj/range.rs:177-192 | two places that show one page do so through the same backing and index |
| ObjectStore.UnsharedIsExclusive | src/kernel/src/obj/range.rs:217-227 | a page of an unshared range is shown at no other place of any object |
| ObjectStore.ClonePageAt | src/kernel/src/obj/range.rs:380-407 | after the clone every place of every object shows the page it showed, except the cloned one |
| ObjectStore.CloneKeeps | src/kernel/src/obj/range.rs:363-425 | a private copy of a shared page changes no object's contents and is shown at its own place only |
| ObjectStore.AddSingleIff | src/kernel/src/obj/range.rs:194-205 | a page put into an empty range is found there, and is an update of one place, exactly if its index is 0 |
| ObjectStore.AddOverSingle | src/kernel/src/obj/range.rs:205-212 | adding to a range on a single page moves both pages into a new vector and updates just one place |
| ObjectStore.AddToVecIff | src/kernel/src/obj/range.rs:213-214 | adding to a covered page of a vector range is an update of one place exactly if nobody else shows that entry |
| ObjectStore.AddExtendsVecIff | src/kernel/src/obj/range.rs:540-558 | extending a vector range is an update of one place exactly if its vector holds nothing between its window and the page |
| ObjectStore.ExtensionLimit | src/kernel/src/obj/range.rs:540-560 | an unshared range takes a page up to sixteen past its end; any other page gets a range of its own |
| ObjectStore.AddPageUpdatesIff | src/kernel/src/obj/range.rs:519-565 | over all branches of add_page, with and without allocator: it updates one place of one object and nothing else exactly under AddPageOk |
| ObjectStore.AddPageCanBringBackPages | src/kernel/src/obj/range.rs:552-557 | a store in which extending a range shows an old page again |
| ObjectStore.AddPageCanLoseThePage | src/kernel/src/obj/range.rs:377-378 | a store in which a page added to a hole of a shared range is not found |
| RangeSharing.CloneAfter | src/kernel/src/obj/range.rs:363-425 | a private copy takes its page off the shared backing; no other place of any object changes backing, and ranges of later pages lose nothing from there on |
| RangeSharing.AddAfter | src/kernel/src/obj/range.rs:519-565 | the same for a page added where there was none, over all branches of add_page: a range of a later page is cut only if it is shared and shows the page, and its backing keeps all other holders |
| RangeSharing.AddedPrivate | src/kernel/src/obj/range.rs:519-565 | a page added where there was none is covered by an unshared range, over all branches of add_page |
| RangeSharing.FitNow | src/kernel/src/obj/range.rs:526-541 | an empty place whose turn it is: fit for writing exactly if add_page can put a page there |
| RangeSharing.FitStep | src/kernel/src/obj/range.rs:519-565 | making a page writable neither helps nor harms a later page: it can be written in its turn exactly if it could be before |
| ObjectMemory.WriteOnlyThere | src/kernel/src/obj/copy.rs:91-97 | a write through a page shown at one place changes the contents of that place only |
| ObjectMemory.CloneReshapes | src/kernel/src/obj/range.rs:460-468 | after a private copy the place is unshared, so the assertion holds, and the same pages are covered |
| ObjectMemory.Memory.CopyOfPage | src/kernel/src/obj/range.rs:383-388 | a new page with the bytes of another |
| ObjectMemory.Memory.CloneBackingPages | src/kernel/src/obj/range.rs:380-405 | the private copy of one page under a new backing, or no change without frames |
| ObjectMemory.Memory.ClonePagesLimited | src/kernel/src/obj/pagevec.rs:124-145 | a new vector with exactly the window's entries, each a new page with the old bytes, all different; on failure nothing has changed |
| ObjectMemory.Memory.SplitIntoThree | src/kernel/src/obj/range.rs:363-425 | the split tree, on a private copy or on nothing; on failure everything is as before and there was no frame |
| ObjectMemory.Memory.GetPage | src/kernel/src/obj/range.rs:444-470 | copy-on-write isolation: no object's contents change, and a page returned for writing is unshared and shown at this place only; the shared flag of a read is right; ranges and backings of later pages are touched only as stated in RangesAfter |
| ObjectMemory.Memory.PlacePage | src/kernel/src/obj/range.rs:194-215 | the range and vectors after a page was put into a range |
| ObjectMemory.Memory.TakeCovering | src/kernel/src/obj/range.rs:526-536 | the covering range taken out of the tree, or the page's part of it if that is shared and there is an allocator |
| ObjectMemory.Memory.TakeBefore | src/kernel/src/obj/range.rs:540-560 | the range before the page, extended, if it is unshared and near enough; otherwise a new one |
| ObjectMemory.Memory.AddPage | src/kernel/src/obj/range.rs:519-565 | the state is the one AddPageUpdatesIff speaks about |
| ObjectCopy.NextAddOk | src/kernel/src/obj/range.rs:540-560 | a page right after a covered one can always be added |
| ObjectCopy.FitIff | src/kernel/src/obj/copy.rs:80-89 | after a page that is there, the next can be written exactly if it is fit |
| ObjectCopy.DestStep | src/kernel/src/obj/copy.rs:359-408 | after a step on one page the rest of the window can be written exactly if it could be before |
| ObjectCopy.NewPageWritableIff | src/kernel/src/obj/copy.rs:83-87 | where the destination page is missing, the new page can be written to with nothing else changed exactly under AddPageOk |
| ObjectCopy.CutOutLost | src/kernel/src/obj/range.rs:526-541 | a page added to a hole of a shared range at an index other than 0 is not there afterwards |
| ObjectCopy.GapShows | src/kernel/src/obj/range.rs:552-557 | a range extended over entries its vector still holds shows a page that was not there |
| ObjectCopy.CopyBringsBack | src/kernel/src/obj/range.rs:552-557 | a copy into page 2 of an object after which page 1, which was missing, has its old bytes again |
| ObjectCopy.AllocateAndAdd | src/kernel/src/obj/copy.rs:83-87 | without condition: a missing destination page gets a zeroed page where add_page puts it, if there is a frame |
| ObjectCopy.DestPage | src/kernel/src/obj/copy.rs:80-89 | the destination page comes back private and writable, with nothing changed but a missing page now being there, zeroed; it fails exactly if it needs a frame and there is none, and takes exactly the frames it needs |
| ObjectCopy.AddZeroPage | src/kernel/src/obj/copy.rs:83-87 | a missing destination page is added, zeroed, and is shown nowhere else |
| ObjectCopy.CopyPart | src/kernel/src/obj/copy.rs:79-98 | part of a source page stands in the destination page and no other place of any object changes |
| ObjectCopy.CopySingle | src/kernel/src/obj/copy.rs:70-99 | bytes offset to max of the page are the source's, zeros if the source page is missing, and no other place of any object changes |
| LastPage.SharedAfterWhole | src/kernel/src/obj/copy.rs:37-67 | the range after the whole pages is unshared afterwards exactly if the copy leaves its backing to it |
| LastPage.AfterWholeIff | src/kernel/src/obj/copy.rs:37-67 | sharing whole pages before an empty place: a page can be added there afterwards exactly if it is at the start of its backing or the copy leaves the backing to it |
| LastPage.AfterRest | src/kernel/src/obj/copy.rs:219-262 | the last page can be written after the whole pages exactly if LastOk held before them |
| LastPage.AfterFirstIff | src/kernel/src/obj/copy.rs:200-217 | the first partial page decides nothing about the last: it can be written after it exactly if it could be before |
| LastPage.LastPageIff | src/kernel/src/obj/copy.rs:200-275 | the exact condition, on the objects before the copy, for the last partial page to be writable once the pages before it are done |
| LastPage.NeedsAfterRest | src/kernel/src/obj/copy.rs:219-275 | the last partial page takes a frame exactly if it is missing or the pages before it leave it shared, said of the objects before them |
| LastPage.NeedsAfterFirst | src/kernel/src/obj/copy.rs:200-217 | the first partial page changes nothing about that |
| LastPage.Stranded | src/kernel/src/obj/copy.rs:55-65 | a missing page in an unshared range that begins before the whole pages: it could be added before the copy and cannot after |
| LastPage.SharingStrandsLastPage | src/kernel/src/obj/range.rs:526-531 | two objects for which that happens, and the page added is not found |
| CopyRanges.FullCopyOk | src/kernel/src/obj/copy.rs:221-257 | sharing whole pages keeps all objects well-formed |
| CopyRanges.ShareFullPages | src/kernel/src/obj/copy.rs:221-257 | contents of covered source pages appear in the destination, pages under gaps and all other objects are untouched |
| CopyRanges.CopyRangeToShadow | src/kernel/src/obj/copy.rs:278-337 | the same for an aligned window |
| CopyRanges.EffectiveLengthIff | src/kernel/src/obj/copy.rs:144-159 | the pages counted come to the bytes asked for exactly if the copy starts on or reaches a page boundary; otherwise to one page more |
| CopyRanges.PiecesCompose | src/kernel/src/obj/copy.rs:200-275 | first partial page, whole pages and last partial page compose to one copy with no gap and no overlap |
| CopyRanges.AlignedByte | src/kernel/src/obj/copy.rs:200-275 | byte by byte: the window has the source's bytes except in whole pages over source gaps |
| CopyRanges.AlignedFlatIff | src/kernel/src/obj/copy.rs:131-276 | the result is the flat copy asked for exactly if the bytes left out and the bytes too many make no difference |
| CopyRanges.AlignedFlat | src/kernel/src/obj/copy.rs:131-276 | with a page boundary in reach and all source pages covered it is the flat copy |
| CopyRanges.EmptyCopyWrites | src/kernel/src/obj/copy.rs:153-159 | a copy of length 0 at offset 1 is not a flat copy of length 0 where byte 5 differs |
| CopyRanges.EmptyCopyExample | src/kernel/src/obj/copy.rs:153-159 | two objects on which such a copy runs and writes |
| CopyRanges.GapStopsCopy | src/kernel/src/obj/copy.rs:259-262 | a copy of two whole pages that the third closing assertion stops |
| CopyRanges.CopyFirst | src/kernel/src/obj/copy.rs:204-217 | the first partial page; left as it was exactly if it needs a frame and there is none |
| CopyRanges.CopyLast | src/kernel/src/obj/copy.rs:265-275 | the last partial page, likewise |
| CopyRanges.CopyFull | src/kernel/src/obj/copy.rs:219-262 | the whole pages; nothing remains exactly if there are none or the last is covered |
| CopyRanges.CopyFullBeforeLast | src/kernel/src/obj/copy.rs:219-262 | the whole pages, after which the last partial page can be written if LastOk held before |
| CopyRanges.CopyHead | src/kernel/src/obj/copy.rs:200-217 | the points and the count after the first partial page, and that the last partial page can still be written |
| CopyRanges.CopyRest | src/kernel/src/obj/copy.rs:219-275 | whole pages and last partial page |
| CopyRanges.CopyPieces | src/kernel/src/obj/copy.rs:200-276 | the first two closing assertions hold, and the three parts are one aligned copy, but for partial pages that find no frame; which those are |
| CopyRanges.CopyAligned | src/kernel/src/obj/copy.rs:131-276 | the whole of copy_ranges for equal misalignment: which of the closing assertions can fail and when; the exact result whatever the frames; both partial pages are copied exactly if the frames cover those that are missing or shared when reached |
| ByteCopy.PresentTurn | src/kernel/src/obj/copy.rs:380-392 | a turn on a source page that is there never copies a byte that should be zeroed |
| ByteCopy.MissingTurn | src/kernel/src/obj/copy.rs:393-399 | a turn on a missing page zeroes, into the next source page if need be |
| ByteCopy.WriteTurn | src/kernel/src/obj/copy.rs:375-407 | each turn continues the copied prefix and changes nothing else |
| ByteCopy.NeedsStep | src/kernel/src/obj/copy.rs:359-408 | a turn on one page changes nothing about whether a later one will need a frame |
| ByteCopy.CountStep | src/kernel/src/obj/copy.rs:359-408 | a turn takes exactly its own frame off what the window needs, whether or not the next turn is on the same page |
| ByteCopy.CopyAndCount | src/kernel/src/obj/copy.rs:375-407 | the copying of a turn with that count: fails exactly if a frame is needed and there is none |
| ByteCopy.CopyTurn | src/kernel/src/obj/copy.rs:360-399 | one turn's copying; it fails, and changes nothing, exactly if the destination page needs a frame and there is none |
| ByteCopy.Turn | src/kernel/src/obj/copy.rs:359-408 | one turn, with both cursors moved on; fails exactly if the destination page needs a frame and there is none; otherwise what the rest needs goes down by the frame taken |
| ByteCopy.CopyBytes | src/kernel/src/obj/copy.rs:339-410 | both cursors follow the bytes done; it ends; the prefix copied has exactly the stated bytes and nothing else changes; it completes exactly if there are frames for all destination pages that are missing or shared when reached, counted before the copy, and otherwise stops at a page that needs a frame with none left |
| ByteCopy.CopiedFlatIff | src/kernel/src/obj/copy.rs:339-410 | flat copy exactly if every swallowed byte is zero in the source |
| ByteCopy.CopiedFlat | src/kernel/src/obj/copy.rs:339-410 | flat copy for any two misalignments if every source page is there |
| ByteCopy.HoleSwallows | src/kernel/src/obj/copy.rs:393-399 | a missing page whose zeroing swallows a byte of the next that is not zero: no flat copy |
| ByteCopy.HoleExample | src/kernel/src/obj/copy.rs:393-399 | two objects on which copy_bytes runs and that happens |
| ByteCopy.CopyMisaligned | src/kernel/src/obj/copy.rs:186-198 | the copy for different misalignments: complete exactly if the frames suffice; then flat exactly if no swallowed byte matters |
| ByteCopy.CopySameMisalignment | src/kernel/src/obj/copy.rs:200-276 | the copy for equal misalignment: complete exactly if the third assertion holds and the frames suffice; then flat exactly if Harmless |
| ByteCopy.CopyObjectRange | src/kernel/src/obj/copy.rs:131-276 | copy_ranges as a whole: a flat copy exactly if what it leaves out, zeroes or does too much makes no difference, so whenever every source page is there and it does not lie inside one page at equal misalignment; for both kinds of alignment, exactly when everything was copied |
| FrameAllocator.BlocksDisjoint | src/kernel/src/memory/frame.rs:244-275 | blocks of a region never overlap |
| FrameAllocator.SplitTiles | src/kernel/src/memory/frame.rs:244-275 | splitting a block keeps the region tiled by blocks |
| FrameAllocator.SplitAligned | src/kernel/src/memory/frame.rs:244-275 | splitting keeps every block aligned to its size |
| FrameAllocator.AllocationRegion.constructor | src/kernel/src/memory/frame.rs:308-338 | carving terminates and tiles the region exactly with free blocks, each the largest that is aligned and fits where it starts |
| FrameAllocator.NewRegion | src/kernel/src/memory/frame.rs:277-345 | when there is no region; otherwise its bounds, and that every frame's metadata lies inside the frame array |
| FrameAllocator.GreedyLevel | src/kernel/src/memory/frame.rs:312-322 | the largest level that is aligned and fits |
| FrameAllocator.AllocationRegion.Carve | src/kernel/src/memory/frame.rs:311-338 | one turn of the carving keeps the part below the cursor tiled and counted |
| FrameAllocator.AllocationRegion.ResetFrames | src/kernel/src/memory/frame.rs:326-335 | fresh metadata for every frame of a block |
| FrameAllocator.AllocationRegion.PopBack | src/kernel/src/memory/frame.rs:106-125 | the last block of a list, or none if no free block belongs there |
| FrameAllocator.AllocationRegion.LevelAllocate | src/kernel/src/memory/frame.rs:106-125 | a free block of the level that the policy wants, a zeroed one only when it must; none exactly if there is none |
| FrameAllocator.AllocationRegion.AdmitOne | src/kernel/src/memory/frame.rs:127-147 | the frame heads a free block on the right list |
| FrameAllocator.AllocationRegion.AdmitChildren | src/kernel/src/memory/frame.rs:252-267 | the loop over the children after the first |
| FrameAllocator.AllocationRegion.Split | src/kernel/src/memory/frame.rs:244-275 | a popped block becomes 512 free ones of the level below, on the list its zeroed flag chooses; no frame is lost |
| FrameAllocator.AllocationRegion.DoAllocate | src/kernel/src/memory/frame.rs:182-193 | fails exactly if no block of the level or above fits the policy; the retry after a split never fails; outstanding allocations are untouched |
| FrameAllocator.AllocationRegion.Allocate | src/kernel/src/memory/frame.rs:195-201 | the invariant holds, exactly one block is newly outstanding, and the free frames went down by its size |
| FrameAllocator.GrantedDisjoint | src/kernel/src/memory/frame.rs:195-201 | what is granted overlaps nothing that was outstanding |
| FrameAllocator.AllocationRegion.Free | src/kernel/src/memory/frame.rs:166-174 | the block is free again on the list of its level and flag, and counted |
| FrameAllocator.AllocationRegion.SetZeroed | src/kernel/src/memory/frame.rs:430-449 | changing the flag of an outstanding block keeps the invariant |
| FrameAllocator.AllocationRegion.SplitAndKeep | src/kernel/src/memory/frame.rs:203-242 | an outstanding block becomes 512 outstanding ones; lists untouched; the size returned is that of the whole |
| FrameAllocator.FindLevel | src/kernel/src/memory/frame.rs:176-180 | the smallest level whose blocks are large and aligned enough |
| FrameAllocator.RawFree | src/kernel/src/memory/frame.rs:727-740 | a frame that heads no block stays as it is; otherwise the block is free again in the one region it lies in |
| FrameAllocator.AllocPass | src/kernel/src/memory/frame.rs:596-601 | one pass over the regions: the first that has a block that fits gives it, the others are untouched; none exactly if no region has one |
| FrameAllocator.AllocEither | src/kernel/src/memory/frame.rs:594-609 | first blocks of the wanted kind, then any: the region is the first that has one of the wanted kind, or, only if none has, the first that has any |
| FrameAllocator.Alloc | src/kernel/src/memory/frame.rs:586-609 | fails exactly if no region has a free block of the level or above; a request for zeroes yields a block marked zeroed; from the first region that has a block of the kind wanted, or else the first that has any; others take a zeroed block only if no other fits |
| FrameAllocator.AllocLayout | src/kernel/src/memory/frame.rs:195-201 | a request for a layout: fails exactly if no level suits it or nothing is free there; else a block of the smallest level that is large and aligned enough, none of whose frames was outstanding in any region, zeroed if that was asked for and otherwise only where no other fits; its region has that many frames fewer and the others are untouched |
| Tracker.StepTotal | src/kernel/src/memory/tracker.rs:41-96 | every atomic step keeps idle + kernel_used + page_data + frames in flight equal to total |
| Tracker.StepUsable | src/kernel/src/memory/tracker.rs:41-96 | every step keeps free + held + in hand equal to the allocator's frames |
| Tracker.StepUsed | src/kernel/src/memory/tracker.rs:41-96 | every step, splits included, keeps kernel_used + page_data plus the stray frames freed equal to the frames held and about to be |
| Tracker.StepTallies | src/kernel/src/memory/tracker.rs:41-96 | every step keeps the allocated and freed tallies consistent with use |
| Tracker.StepNoUnderflow | src/kernel/src/memory/tracker.rs:62-72 | no step takes idle or the free frames below zero |
| Tracker.StepExact | src/kernel/src/memory/tracker.rs:41-110 | a step keeps the use counters exact unless, and only unless, it splits a kernel block or frees a stray frame |
| Tracker.SubtractionSafe | src/kernel/src/memory/tracker.rs:43-48 | the subtraction in free_frame finds at least the count, so the assertion holds |
| Tracker.RunKeeps | src/kernel/src/memory/tracker.rs:41-110 | the four balances after any interleaving of any number of threads, and idle never below zero |
| Tracker.TryAllocFrame | src/kernel/src/memory/tracker.rs:55-96 | try_alloc_frame, alone: a run of its steps that gets a block exactly if enough is idle and the allocator grants it, charged to the kernel exactly if asked for; otherwise nothing has changed |
| Tracker.FreeFrame | src/kernel/src/memory/tracker.rs:41-53 | free_frame, alone: a run of its steps that takes the block off the counter it was charged to |
| Tracker.FreeUndoesAlloc | src/kernel/src/memory/tracker.rs:41-96 | freeing what was allocated restores everything but the two tallies |
| Tracker.RunExact | src/kernel/src/memory/tracker.rs:41-110 | after any run the use counters are exact if and only if no kernel block was split and no stray frame freed in it: nothing makes up for either |
| Tracker.QuiescentIdle | src/kernel/src/memory/frame.rs:707-713 | when every thread is outside, idle minus the frames really free is what the frame arrays took, whatever was split before, exactly if no stray frame was freed; otherwise too much by their number |
| Tracker.StrayRaisesIdle | src/kernel/src/memory/frame.rs:727-735 | a run that frees a stray frame and ends with idle one too high |
| Tracker.KernelSplitUnderflows | src/kernel/src/memory/tracker.rs:41-110 | a run from the initial state in which a kernel block is allocated and split and a child freed: page_data ends below zero |
| TimeoutWheel.TimeoutQueue.NextKey | src/kernel/src/clock.rs:121-129 | a key that is not live, from the reuse stack if it has one |
| TimeoutWheel.NanoToTicks | src/kernel/src/clock.rs:266-268 | the ticks that lie wholly within a time |
| TimeoutWheel.TicksRoundTrip | src/kernel/src/clock.rs:262-268 | ticks turned into nanoseconds and back are the same |
| TimeoutWheel.TimeoutQueue.ReleaseKey | src/kernel/src/clock.rs:131-139 | live keys and the reuse stack stay disjoint, without duplicates and between 1 and next_key, whichever shortcut is taken |
| TimeoutWheel.TimeoutQueue.constructor | src/kernel/src/clock.rs:109-119 | an empty wheel with both clocks at 0 satisfies the invariant |
| TimeoutWheel.EmptyWindows | src/kernel/src/clock.rs:141-154 | if no window passed has an entry, nothing pending expires by then, however often the clock goes round |
| TimeoutWheel.TimeoutQueue.HardAdvance | src/kernel/src/clock.rs:141-154 | no missed wake-up: whenever some entry is then due a waiting thread is signalled; signalled exactly if a window passed has an entry |
| TimeoutWheel.TimeoutQueue.Insert | src/kernel/src/clock.rs:166-184 | exactly the new entry becomes pending, under a key that was not live; if its window is full it is called at once instead |
| TimeoutWheel.TimeoutQueue.Remove | src/kernel/src/clock.rs:187-198 | a live key cancels its own timeout and no other, and says whether it was still pending |
| TimeoutWheel.TimeoutQueue.CheckWindow | src/kernel/src/clock.rs:200-208 | an entry that is ready is taken out; none exactly if none is ready |
| TimeoutWheel.PassWindow | src/kernel/src/clock.rs:210-217 | the soft clock can pass a window without a ready entry: every pending entry stays ahead of it |
| TimeoutWheel.TimeoutQueue.SoftAdvance | src/kernel/src/clock.rs:210-220 | never an entry before its time; if it gives none, no pending entry is due |
| TimeoutWheel.TimeoutQueue.ClockTurn | src/kernel/src/clock.rs:245-258 | the thread goes to sleep only when nothing is due |
| Inflight.SlotChange | src/kernel/src/pager/inflight.rs:74-79 | changing a slot with its bit, its map entry and its waiters keeps all four in agreement |
| Inflight.InflightManager.AddRequest | src/kernel/src/pager/inflight.rs:91-120 | joins a matching request or takes the lowest free slot; fails exactly if every slot is taken; whichever match find returns, it is of the same kind, for page data one of the same object that begins inside the new one; a new page-data request waits for as many pages as it is long |
| Inflight.InflightManager.RemoveRequest | src/kernel/src/pager/inflight.rs:122-130 | the slot is free in bitmap, array and map, and all its waiters are woken |
| Inflight.InflightManager.constructor | src/kernel/src/pager/inflight.rs:82-89 | an empty table satisfies the invariant |
| Inflight.InflightManager.MarkDoneAndSignal | src/kernel/src/pager/request.rs:363-382 | the request is done and exactly its waiters are woken |
| Inflight.InflightManager.RequestReady | src/kernel/src/pager/inflight.rs:143-151 | the request is done and all its waiters are woken |
| Inflight.InflightManager.SetupWait | src/kernel/src/pager/inflight.rs:132-141 | a thread goes to sleep exactly on a request that is in the table and not done |
| Inflight.InflightManager.FinishedPages | src/kernel/src/pager/request.rs:346-361 | what remains is what had not come before less what has come now; finished exactly if that is nothing |
| Inflight.NoneLeftIff | src/kernel/src/pager/request.rs:346-361 | however the pages arrive, nothing is left to come exactly if in all as many came as were asked for |
| Inflight.OverlapMatchesIff | src/kernel/src/pager/request.rs:81-95 | overlapping page-data requests count as equal exactly if the one looked for begins no later |
| Inflight.OverlapMissed | src/kernel/src/pager/request.rs:81-95 | two overlapping requests that do not |
| Inflight.InflightManager.NobodyStranded | src/kernel/src/pager/request.rs:363-392 | whoever sleeps is on the list of a request that is in the table and not done |
| SyncRegion.ExtendRuns | src/kernel/src/obj/mod.rs:589-594 | a dirty page after a dirty page continues the last run |
| SyncRegion.StartRun | src/kernel/src/obj/mod.rs:589-598 | a dirty page after a clean one begins a run of its own |
| SyncRegion.DirtySet.AddDirty | src/kernel/src/obj/mod.rs:611-620 | exactly the pages given become dirty; the vector is long enough and grows, if at all, to the byte boundary after them |
| SyncRegion.DirtySet.ResetDirty | src/kernel/src/obj/mod.rs:622-627 | exactly one page becomes clean |
| SyncRegion.DirtySet.DrainAll | src/kernel/src/obj/mod.rs:586-600 | the dirty set exactly, as increasing runs with a gap between them; then nothing is dirty |
| SyncRegion.BackedPages | src/kernel/src/pager/request.rs:153-177 | the backed pages of the runs, in increasing order, with their frames |
| SyncRegion.ConsecutiveSlices | src/kernel/src/pager/request.rs:180-200 | the list cut into pieces that are contiguous in object and memory and cannot be continued |
| SyncRegion.NewSyncRegion | src/kernel/src/pager/request.rs:146-248 | byte by byte of object and memory: the requests cover exactly the backed dirty pages, each byte with its own byte of the right frame; they are disjoint, in order and cannot be joined, and only the last has the fence |
| RunQueue.StepNotLost | src/kernel/src/processor/rq.rs:185-257 | after every step a queue with threads has its flag set or an insert about to set it |
| RunQueue.StepLocks | src/kernel/src/processor/rq.rs:249-325 | a take that has a thread holds the lock of its queue until it returns |
| RunQueue.StepSeen | src/kernel/src/processor/rq.rs:255-257 | a queue seen empty under the lock is still empty when the flag is cleared |
| RunQueue.StepLoad | src/kernel/src/processor/rq.rs:185-325 | every step keeps load equal to threads queued and on their way |
| RunQueue.StepTimeshare | src/kernel/src/processor/rq.rs:210-300 | the same for timeshare_load |
| RunQueue.StepMovable | src/kernel/src/processor/rq.rs:185-325 | the same for movable |
| RunQueue.StepConserved | src/kernel/src/processor/rq.rs:185-346 | every step keeps the threads given equal to those queued, in hand and returned, by any measure and class by class: a thread leaves from the queue it was inserted into |
| RunQueue.CountersSafe | src/kernel/src/processor/rq.rs:258-262 | no counter is below zero and every subtraction finds at least one; the movable assertion never fires |
| RunQueue.RunKeeps | src/kernel/src/processor/rq.rs:185-346 | all of this after any interleaving of inserts and takes |
| RunQueue.QuiescentExact | src/kernel/src/processor/rq.rs:348-350 | when nobody is inside, a queue with threads has its flag set, and the three counters are the threads queued, the timeshare threads queued and the threads queued that may move |
| RunQueue.Insert | src/kernel/src/processor/rq.rs:185-227 | insert, alone: a run of its steps after which the thread is last in the queue of its class, a user thread past its deadline in the realtime queue, with that flag set and all counters right |
| RunQueue.TakeClass | src/kernel/src/processor/rq.rs:249-325 | one class of take, alone: a run of its steps; a thread exactly if the flag is set and the queue has one, and then the state with just that thread handed out |
| RunQueue.Take | src/kernel/src/processor/rq.rs:327-346 | take, alone: a run of its steps that hands out a thread of the first class that has any; none exactly if no class has one, or when stealing and nothing may move |
| PriorityQueues.PriorityQueue.constructor | src/kernel/src/processor/rq.rs:101-107 | an empty queue satisfies the invariant |
| PriorityQueues.PriorityQueue.IsEmpty | src/kernel/src/processor/rq.rs:121-123 | the count is zero exactly if every band is empty |
| PriorityQueues.PriorityQueue.Insert | src/kernel/src/processor/rq.rs:125-138 | the thread is last in its band, or in the top band as a user thread, and counted |
| PriorityQueues.PriorityQueue.Take | src/kernel/src/processor/rq.rs:140-153 | the front of the lowest band that has a thread; nothing exactly if no band has one |
| PriorityQueues.PriorityQueue.HighestPriority | src/kernel/src/processor/rq.rs:109-119 | the highest band that has a thread; nothing exactly if no band has one |
| PriorityQueues.LowestFirst | src/kernel/src/processor/rq.rs:109-153 | a queue with threads of values 127 and 0: band 112 is named, the thread of value 0 is taken |
| PriorityQueues.TakeIsHighestIff | src/kernel/src/processor/rq.rs:109-153 | take and highest_priority speak of the same band exactly if one band has all the threads |
| Timeshare.TargetQueue | src/kernel/src/processor/timeshare.rs:79-90 | a current thread joins the queue being drained; another never does unless that is also the one being filled; where it goes is in TargetAhead |
| Timeshare.TargetAhead | src/kernel/src/processor/timeshare.rs:79-90 | how far past the insert index a thread goes: none for the top band, one further for each band down (`Delay`), except one less where that is the queue being drained |
| Timeshare.HigherSoonerIff | src/kernel/src/processor/timeshare.rs:79-90 | the higher of two priorities never goes further, unless and only unless the lower one is 0 and the higher is not at the insert index itself |
| Timeshare.PopOk | src/kernel/src/processor/timeshare.rs:107-112 | the priority count of the thread taken is at least one, so the saturating subtraction is exact |
| Timeshare.TimeshareQueue.constructor | src/kernel/src/processor/timeshare.rs:50-59 | an empty ring satisfies the invariant |
| Timeshare.TimeshareQueue.Insert | src/kernel/src/processor/timeshare.rs:77-102 | the thread is last in the queue TargetAhead speaks of; counts stay exact |
| Timeshare.TimeshareQueue.Take | src/kernel/src/processor/timeshare.rs:104-129 | the front of the first queue with a thread from the take index on; nothing exactly if the ring is empty |
| Disk.WriteStep | src/bin/mnemosyne/src/disk.rs:127-133 | rewriting part of one page writes exactly those bytes of the flat disk |
| Disk.Disk.FetchPage | src/bin/mnemosyne/src/disk.rs:120-125 | the page under the cursor, with the cursor put back |
| Disk.Disk.Read | src/bin/mnemosyne/src/disk.rs:67-95 | the flat bytes from the cursor on, short only at the end of the disk |
| Disk.Disk.Write | src/bin/mnemosyne/src/disk.rs:104-133 | exactly the bytes from the cursor on change, whole pages being written; short only at the end of the disk |
| Disk.Disk.Seek | src/bin/mnemosyne/src/disk.rs:146-163 | the cursor moves exactly if the target is on the disk |
| Disk.Disk.WriteSeekRead | src/bin/mnemosyne/src/disk.rs:66-165 | what was written is read back after seeking back |

## Left out

- `zero_ranges` and `zero_single`: the first loses the part of a single range before its window.
- Page references of more than one page, `holes`, `RangeSleep` and the STABLE flag of `get_page`.
- Page tables, invalidation of mappings, and `ensure_in_core`; they do not change contents here.
- `truncate_and_drain` is a stub in the source and does nothing here.
- ByteCopy.CopyObjectRange: asks that the destination pages can be written when their turn comes, by the exact conditions above; where they cannot, either the page written to is lost and the next look at it trips an assertion of the source, or the copy completes and brings back old pages before it. Both are stated for one page (`CutOutLost`, `GapShows`), not for the rest of such a copy.
- ObjectMemory.Memory.GetPage: asks for an allocator when a shared page is to be written, as the last assertion of the source does.
- FrameAllocator.AllocationRegion.Free: takes a block that is outstanding; the early return for other frames is in FrameAllocator.RawFree.
- Tracker: waiting for memory and the reclaim thread; `pager_outstanding`; merging of blocks, which the source does not do.
- TimeoutWheel: `get_next_ticks`, the callbacks themselves, and wrap-around of the clocks' machine words.
- Inflight: sending requests and `with_request`, which only runs a closure under the lock.
- RunQueue: `current_priority` and time slices; the interleaved queues give out threads in any order.
- Timeshare: `highest_priority`, `advance_insert_index` beyond the invariant, and any bound on how long a thread waits.
- Disk: the controller's errors, on which the source panics, and the file system laid out by `setup`.
- Weak memory orderings, scheduling, priority donation and everything else of the kernel.
