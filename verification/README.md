# NeptunOS: a verified model of the kernel's core

NeptunOS is a small amd64 kernel. This project models the parts of it on which everything else stands and proves what
they promise:

- the heap manager with its descriptor list, redzones and lock (`HeapBlocks`, `HeapOps`, `HeapState`, `HeapRuns`,
  `HeapAnswers`, `LinkList`, `HeapManager`, `LockedHeap`, `ReallocRace`, `ReallocTorn`);
- the four-level page tables and address spaces (`PageTables`, `Paging`, `PagingRuns`, `PagingViews`, `PagingWrites`,
  `PagingCalls`, `PageWords`, `PagingBits`);
- the physical page allocator and the bitmap under it (`PhysicalPages`, `Bitmaps`);
- the round-robin scheduler and the circular list of its tasks (`Ring`, `SchedulerModel`, `Scheduler`);
- reading a file through its FAT cluster chain (`Fat`);
- the bounded formatter and the integer parser (`PrintText`, `Printf`, `PrintRoundTrip`, `PrintNumbers`,
  `PrintFormats`);
- placing and relocating a kernel module (`Linker`, `LinkedModule`).

Code that works by updating things in place is modelled in that form: classes, arrays and loops, each method proved
against a function of the old state. The properties that span calls (whole runs, any interleaving, round trips) are
lemmas about those functions.

## How to read it

`Halted` stands for `fatal`, a failed `assert`, a null dereference, an index out of range or an undefined result:
nothing after it is observable. Integers are unbounded; where the width matters the wrap-around is written out.
`hide` statements only limit which definitions the solver looks at in a proof.

Where the code does not do what its documentation, its tests or its callers count on, the model follows the code and a
lemma says exactly when the two agree:

- a heap request larger than 2^64 - 144 wraps to a block too small for its own redzones, and then, and only then, a
  plain allocation spoils the heap (`HeapState.PaddedIsEnough`, `HeapRuns.AllocSoundIff`, `HeapRuns.WrappedYetGranted`);
  a 32-bit alignment of 0 or above 0xfffffff0 becomes 0 (`HeapRuns.RoundedAlignFits`);
- `alloc_aligned` goes on past the end of the list when nothing fits, and then its books are wrong
  (`HeapRuns.AlignedSoundIff`, `HeapRuns.NoRoomYetGranted`);
- `realloc` of a null pointer allocates a block and throws its address away (`HeapRuns.ReallocNull`); of a free block it
  answers yes if the block is long enough and stops the machine if not (`HeapState.FreeStay`);
- `realloc` looks up the old size and copies without the lock: the surgery of another thread's allocation under its size
  query makes it take the wrong block for its own (`ReallocTorn.TornWalk`), and it delivers every byte as long as none
  moves the descriptor the query stands on (`ReallocRace.ReallocDelivers`);
- `memcpy` copies upwards, so it clobbers a source that its destination lies inside (`HeapState.CopyIsExactIff`);
- `map_page` passes USER and NX on to the entries above the page, but RW on none of the three levels
  (`PagingRuns.WritableIffUppersWere`, `PagingRuns.ReadOnlyForEver`, `PagingWrites.WritesReadOffRun`,
  `PagingCalls.CodeThenData`), and it sets USER and clears NX only in the PML4 entry of the root it was called with
  (`PagingRuns.KernelMappingIsShared`, `PagingRuns.TopOverRun`, `PagingRuns.NeverExecutable`,
  `PagingCalls.DataThenSpaceThenCode`);
- the PAT flag of a 2 MiB page does not fit the flag field it is assigned to (`PageWords.PatBitLost`);
- the page bitmap has whole 64-bit words only, so a usable page among the last up to 63 stops `pmm_init`
  (`PhysicalPages.PmmInit`, `PhysicalPages.OnePageTooMany`);
- deleting the task at the tail of the ring loses the mark that `push_back` insists on, so every later addition stops the
  machine (`SchedulerModel.MarkStep`, `SchedulerModel.MarkLostForEver`, `SchedulerModel.OneTaskTooMany`);
- deleting the only task dispatches its freed memory (`SchedulerModel.DeletedIsGone`);
- `diskoffset` has a fixed factor of one sector and multiplies in 32 bits, so it is right only for the first cluster and
  for one-sector clusters below 4 GiB (`Fat.DiskOffsetIsRightIff`, `Fat.SeenIsContentIff`, `Fat.WrongCluster`), and
  `msd_read` overruns its bounce buffer exactly when the unaligned start pushes the request past the rounded length
  (`Fat.MsdRead`, `Fat.BounceTooSmall`);
- a `#` without a precision takes back one or two places of the number when it just fills its width, digits as well as
  zeros, so `%#5x` of 0x12345 prints `0x345` (`PrintNumbers.BufferWhole`, `PrintNumbers.DigitsGiveWay`);
- a zero-padded field wider than the 32-character conversion buffer loses the minus sign
  (`PrintRoundTrip.ZeroPaddedRoundTrip`), `%#llX` writes a prefix `str_to_int` does not know
  (`PrintRoundTrip.HashRoundTrip`), `%llb` keeps 32 bits (`PrintRoundTrip.BinaryRoundTrip`), and the result of the
  formatter misleads its caller about some texts of 2^31 characters and more (`Printf.CompleteIff`,
  `Printf.Misleading`).

## Model

| member | source | states |
|---|---|---|
| Bitmaps.Bitmap.constructor | kernel/src/util/bitmap.hh:54-63 | whole words only: the size is cut to a multiple of 64, and every bit of the refined sequence is the default |
| Bitmaps.Bitmap.Set | kernel/src/util/bitmap.hh:12-25 | one bit of the refined sequence changes and no other; an index out of range halts and changes nothing |
| Bitmaps.Bitmap.Get | kernel/src/util/bitmap.hh:27-36 | the bit of the refined sequence, or a halt out of range |
| Bitmaps.OtherBitsKept | kernel/src/util/bitmap.hh:12-25 | writing one bit of the packed words leaves every other bit of the sequence as it was |
| Bitmaps.Bitmap.AllocateRange | kernel/src/util/bitmap.hh:66-87 | the scan finds the lowest clear run inside the range and sets exactly it, or changes nothing when there is none; a request for 0 halts |
| Bitmaps.Bitmap.FindAndSetMultiple | kernel/src/util/bitmap.hh:43-52 | the wrap-around search: lowest run from the start on, else lowest before it, else none and nothing changed |
| Bitmaps.Bitmap.FindAndSet | kernel/src/util/bitmap.hh:39-41 | the lowest clear bit is set and returned, whatever start was given; none only when every bit is set |
| Bitmaps.SearchIsExact | kernel/src/util/bitmap.hh:43-52 | the answer is unique, was clear, and no later search, for however many bits, can return a run that overlaps it |
| HeapBlocks.LiveDisjoint | kernel/src/util/mm.cc:144-181 | two live allocations of any well-shaped block list never overlap |
| HeapBlocks.CanonicalForm | kernel/src/util/mm.cc:82-109 | a block list without two free neighbours is determined by its total and its set of live extents |
| HeapOps.FitsIffPlacement | kernel/src/util/mm.cc:190-215 | the alignment test accepts a block exactly when it holds some suitably aligned place, and the skip is the least one |
| HeapOps.FirstFitIsLowest | kernel/src/util/mm.cc:144-168 | the block chosen fits and no block before it does |
| HeapOps.PlaceEffect | kernel/src/util/mm.cc:112-142 | carving a used block out of a free one keeps the list canonical and its total, and adds exactly one live extent, disjoint from all others |
| HeapOps.ReleaseEffect | kernel/src/util/mm.cc:82-109 | freeing and coalescing keeps the list canonical and its total, and removes exactly one live extent |
| HeapOps.GrowEffect | kernel/src/util/mm.cc:319-343 | growing into the next free block replaces one extent by its longer self and stays clear of the others |
| HeapOps.PlaceThenRelease | kernel/src/util/mm.cc:82-142 | releasing what was just placed, with or without a gap, restores the block list exactly |
| HeapState.PaddedIsEnough | kernel/src/util/mm.cc:144-150 | the padded length covers the request and both redzones if and only if the request is at most 2^64 - 144 |
| HeapState.AllocAtKeeps | kernel/src/util/mm.cc:144-181 | a successful allocation is fresh, aligned, disjoint from every live one, guarded by intact redzones, changes no byte outside itself and keeps the heap invariant with both counters |
| HeapState.CheckIffLive | kernel/src/util/mm.cc:513-581 | in a sound heap `check` accepts a pointer if and only if it is live |
| HeapState.FreeKeeps | kernel/src/util/mm.cc:442-484 | freeing a live pointer succeeds, removes that extent only, changes no byte and keeps the invariant |
| HeapState.GrowKeeps | kernel/src/util/mm.cc:296-366 | growing in place keeps the address and every old usable byte, writes the new trailing redzone and keeps the invariant |
| HeapState.MoveKeeps | kernel/src/util/mm.cc:391-401 | moving delivers the old usable bytes at the new place, gives the old block back and leaves every other allocation alone |
| HeapState.CopyIsExactIff | kernel/src/util/mem.cc:22-44 | bytes then eight-byte words upwards: the copy delivers the source, whatever it holds, if and only if the destination does not start inside it, or it is one word |
| HeapState.FreeStay | kernel/src/util/mm.cc:296-401 | `try_realloc` of a free block: a yes paints only inside that block and keeps the invariant and every allocation; a no changes nothing, and the slow path then stops the machine |
| HeapState.MoveHalts | kernel/src/util/mm.cc:391-401 | the slow path of `realloc` on a block that is free always ends in the check of `free` |
| HeapRuns.RoundedAlignFits | kernel/src/util/mm.cc:190-196 | the 32-bit rounding of an alignment is its least multiple of 16, and it is zero if and only if the alignment is 0 or wraps |
| HeapRuns.SearchIsComplete | kernel/src/util/mm.cc:190-215 | a block is found if and only if some block has an aligned place, and it is the lowest such block |
| HeapRuns.ReallocKeeps | kernel/src/util/mm.cc:296-401 | reallocating a live pointer, in place or moved, preserves every old usable byte and the invariant |
| HeapRuns.ReallocNull | kernel/src/util/mm.cc:296-401 | reallocating null returns null and leaks the block it allocated; size 0 halts |
| HeapRuns.RunKeeps | kernel/src/util/mm.cc:5-484 | over every run of calls, with any address freed or reallocated, and of in-bounds client writes the invariant holds and used plus free memory never changes |
| HeapRuns.NoCorruptionReported | kernel/src/util/mm.cc:583-594 | after every such run each used block passes `check` |
| HeapRuns.HistoryIndependence | kernel/src/util/mm.cc:82-142 | two runs ending with the same live allocations end with the same block list and counters |
| HeapRuns.BalancedRun | kernel/src/test.cc:226-234 | a run that gives back what it took leaves the block list and `count_allocs` as they were |
| HeapRuns.AllocThenFree | kernel/src/util/mm.cc:144-292 | a plain or aligned allocation followed by its free restores the block list |
| HeapRuns.ContentsPersist | kernel/src/util/mm.cc:144-484 | an allocation no call names stays live, in place, byte for byte, over every run |
| HeapRuns.AllocSoundIff | kernel/src/util/mm.cc:144-181 | a plain request that is granted keeps the heap invariant if and only if it is at most 2^64 - 144 |
| HeapRuns.AlignedSoundIff | kernel/src/util/mm.cc:190-292 | a granted aligned request keeps the invariant if and only if some block has room and the size neither is 0 nor wraps; without room the address lies past the end, and the books are straight only if there was nothing to book |
| HeapRuns.NoRoomYetGranted | kernel/src/util/mm.cc:190-292 | a sound heap of one 16-byte block grants an aligned request all the same, past its end, and is sound no more |
| HeapRuns.WrappedYetGranted | kernel/src/util/mm.cc:144-181 | the largest 64-bit request is granted 128 bytes, all of them redzone |
| HeapAnswers.LowestSite | kernel/src/util/mm.cc:144-292 | an allocation goes to the lowest suitably aligned stretch of the whole heap that no live allocation meets; with such a stretch it stops only when the list would need more descriptors than there are |
| HeapAnswers.AllocAnswer | kernel/src/util/mm.cc:144-181 | so a plain request of `size` bytes gets the lowest such stretch for its rounded size and 128 bytes of redzones, and stops without one |
| HeapAnswers.AlignedAnswer | kernel/src/util/mm.cc:190-292 | an aligned request likewise, and without such a stretch it gets an address past the end |
| HeapAnswers.GrantedInPlaceIff | kernel/src/util/mm.cc:296-366 | `try_realloc` of a live pointer says yes if and only if the padded new length, from where the block starts, stays in the heap and meets no other allocation |
| HeapAnswers.ReallocAnswer | kernel/src/util/mm.cc:391-401 | `realloc` returns the same pointer if and only if that holds, and otherwise exactly what `alloc` answers |
| HeapAnswers.CheckDetects | kernel/src/util/mm.cc:513-581 | whatever has been written over memory, `check` accepts a pointer if and only if it is live and none of its 128 redzone bytes has been overwritten |
| HeapAnswers.FreeDetects | kernel/src/util/mm.cc:442-484 | `free` goes through for a null pointer and for exactly those pointers |
| HeapAnswers.CheckAllDetects | kernel/src/util/mm.cc:583-594 | every used block passes `check` if and only if every redzone byte of every allocation is whole |
| LinkList.InsertAfter | kernel/src/util/mm.cc:112-142 | the descriptor goes in behind its neighbour in both directions, and the order gains exactly it |
| LinkList.InsertBefore | kernel/src/util/mm.cc:216-271 | the same in front of a descriptor, the head included |
| LinkList.UnlinkNext | kernel/src/util/mm.cc:82-109 | the next descriptor leaves the list in both directions and the order loses exactly it |
| HeapManager.Pigeonhole | kernel/src/util/mm.cc:62-80 | distinct descriptors tracked by the bitmap never outnumber its bits |
| HeapManager.MemoryMgr.constructor | kernel/src/util/mm.cc:5-30 | a fresh manager is one free block over the whole heap, sound, with straight counters and 64 descriptors |
| HeapManager.MemoryMgr.CountAllocs | kernel/src/util/mm.cc:34-43 | the walk counts the blocks of the list |
| HeapManager.MemoryMgr.CreateLink | kernel/src/util/mm.cc:62-80 | a descriptor not in the list is taken and its bit set; none only when every bit is in use |
| HeapManager.MemoryMgr.DeleteLink | kernel/src/util/mm.cc:45-60 | the descriptor's bit is cleared and the list is whole again |
| HeapManager.MemoryMgr.AllocateIntoFree | kernel/src/util/mm.cc:112-142 | the in-place splitting does to the list what the model's placement does; it halts only when a descriptor is missing |
| HeapManager.MemoryMgr.MemSet | kernel/src/util/mem.cc:5-20 | the range is filled and nothing else |
| HeapManager.MemoryMgr.MemCopy | kernel/src/util/mem.cc:22-44 | the byte loop and the word loop leave what the upward copy leaves, overlapping or not |
| HeapManager.MemoryMgr.MemIsMagic | kernel/src/util/mem.cc:53-57 | true exactly when the whole range is the magic byte |
| HeapManager.MemoryMgr.WalkToFit | kernel/src/util/mm.cc:151-168 | the walk stops at the model's first fit, at its address |
| HeapManager.MemoryMgr.AllocNoMutex | kernel/src/util/mm.cc:144-181 | for every 64-bit size the object and the returned address are the ones the model predicts, and the object stays valid unless the size wraps |
| HeapManager.MemoryMgr.AllocAligned | kernel/src/util/mm.cc:190-292 | the same for aligned requests of any size and alignment, the fall-through past the end and the division by zero included |
| HeapManager.MemoryMgr.Merge | kernel/src/util/mm.cc:82-109 | merging absorbs the free neighbour behind, then the one in front |
| HeapManager.MergedIsRelease | kernel/src/util/mm.cc:82-109 | those two absorptions are the model's release of the block |
| HeapManager.MemoryMgr.Check | kernel/src/util/mm.cc:513-581 | the check answers as the model's does |
| HeapManager.MemoryMgr.CheckAll | kernel/src/util/mm.cc:583-594 | on any list the walk goes through if and only if every used block passes `check`, as it does on a valid manager |
| HeapManager.MemoryMgr.FreeNoMutex | kernel/src/util/mm.cc:442-484 | the object is the one the model predicts; a pointer that fails the check halts |
| HeapManager.MemoryMgr.TryRealloc | kernel/src/util/mm.cc:296-366 | for any address, live, free or neither, the in-place resize does and answers what the model predicts |
| HeapManager.MemoryMgr.GetSize | kernel/src/util/mm.cc:368-389 | the usable length of the block that starts at the address, in 64-bit arithmetic; no block halts |
| HeapManager.MemoryMgr.Realloc | kernel/src/util/mm.cc:391-401 | resize, or allocate, copy and free, for any address: the object and the result are the ones the model predicts |
| HeapManager.MemoryMgr.Perform | kernel/src/util/mm.cc:144-484 | one call, of whichever kind the caller is allowed, or one store into an allocation: the object and the result are the model's, and the object stays valid |
| HeapManager.MemoryMgr.PerformAll | kernel/src/util/mm.cc:144-484 | any run of calls and stores on the object ends where the model's run ends, valid, or stops exactly if that one does; so every theorem about runs holds of the object |
| LockedHeap.MicroOnWay | kernel/src/util/mm.cc:144-366 | each step of a guarded call (a look at one descriptor, the surgery at one descriptor, the counters, one redzone), run alone, stays on the way to that call's whole result and touches no byte of an allocation |
| LockedHeap.WholeCommutes | kernel/src/util/mm.cc:144-484 | a store into a live allocation before a call comes to the same as the store after it |
| LockedHeap.StoreOn | kernel/src/util/mm.cc:144-366 | a store into a live allocation at any step of somebody else's call leaves that call on its way, from the heap with the store |
| LockedHeap.NextIsSerial | kernel/src/util/async.hh:6-24 | every move of any thread, client stores included, keeps at most one thread inside, on the way of its call from the sequential heap |
| LockedHeap.LockedHeapIsSequential | kernel/src/util/async.hh:6-74 | under any interleaving of any number of threads, with client stores at any moment, at most one is inside; when the lock is free the heap is the one the calls and stores leave when run one by one, with the same results; and at any moment every byte of every allocation reads as in that sequential run |
| LockedHeap.HaltsOnlySequentially | kernel/src/util/async.hh:66-74 | whatever stops the machine, at the lock, inside it or in a store, also stops it run alone in its turn |
| LockedHeap.SoundWhenFree | kernel/src/util/mm.cc:183-191 | whenever the lock is free the heap invariant holds |
| ReallocRace.RelabelFits | kernel/src/util/mm.cc:82-142 | through every list surgery each block keeps a descriptor of its own: placing takes new ones, growing and merging drop the ones they absorb |
| ReallocRace.LookAct | kernel/src/util/mm.cc:368-389 | while no surgery moves its descriptor the unlocked size query never runs off the list, at any moment of other threads' calls, and what it finds is the block's usable length |
| ReallocRace.OtherAct | kernel/src/util/mm.cc:391-401 | whatever other threads do meanwhile (calls that name neither block, stores outside them) leaves the bytes copied so far and the bytes still to copy as they are |
| ReallocRace.ReallocDelivers | kernel/src/util/mm.cc:391-401 | under any interleaving, with the other threads' calls and stores keeping to their own blocks and no surgery moving the descriptor under the size query, a finished `realloc` has delivered every usable byte of the old block in a live block, and the heap is sound |
| ReallocTorn.TornIsSound | kernel/src/util/mm.cc:391-401 | a sound heap with the lock free, in which the block to be moved has 32 usable bytes and its new home is longer |
| ReallocTorn.TornWalk | kernel/src/util/mm.cc:368-401 | from there one whole aligned allocation by another thread, naming neither block, makes the size query answer 16: half of the bytes will not be copied |
| PageTables.GrantTree | kernel/src/arch/amd64/paging.cc:53-63 | rewriting an upper entry that still leads to its table keeps the tables a tree below each root |
| PageTables.HangTree | kernel/src/arch/amd64/paging.cc:53-63 | so does hanging a zeroed new table under an absent entry |
| PageTables.LeafTree | kernel/src/arch/amd64/paging.cc:90-121 | and so does writing a page into a table, or a 2 MiB page into a directory |
| PageTables.EffectOfRewrite | kernel/src/arch/amd64/paging.cc:23-123 | rewriting one entry per level has, for every root and every address, exactly the effect of one mapping on every entry of the walk |
| Paging.AddressSpaces.WmAlloc | kernel/src/mm/vmm.cc:20-37 | the next aligned address of the arena, taken if and only if it still fits; the end of the arena stays; size 0 without an alignment is a division by zero |
| Paging.AddressSpaces.AllocPage | kernel/src/arch/amd64/paging.cc:18-21 | a page no table uses, if and only if the arena has one left; the cursor only moves up and the end stays |
| Paging.AddressSpaces.MapPage | kernel/src/arch/amd64/paging.cc:23-123 | every entry on every walk of every root is determined: the page and the entries above it as asked, USER and NX of the PML4 entry only in this root, all other walks untouched; while three pages are left for tables it fails only for a 4 KiB page inside a 2 MiB page |
| Paging.AddressSpaces.NewSpace | kernel/src/loader/loader.cc:8-15 | every walk of the new root is empty in the lower half and the kernel's in the upper half; no walk of another root changes |
| Paging.RequestSlot | kernel/src/arch/amd64/paging.hh:34-37 | cutting an address to its page keeps the indices that matter |
| PagingRuns.CoversIffSamePage | kernel/src/arch/amd64/paging.hh:34-79 | a mapping covers an address if and only if both lie in the same page |
| PagingRuns.MapThenLookup | kernel/src/arch/amd64/paging.hh:54-79 | after a mapping the lookup gives frame plus offset inside the page and the old answer outside it |
| PagingRuns.WalkAfter | kernel/src/arch/amd64/paging.cc:23-123 | read at one address of any root: a covered page is the new one, an uncovered leaf stays, and a walk that does not reach the shared table is the same entry by entry |
| PagingRuns.MapDecides | kernel/src/arch/amd64/paging.cc:53-121 | a mapping gives its page exactly the NX and USER rights it asked for and changes no other page's |
| PagingRuns.KernelMappingIsShared | kernel/src/arch/amd64/paging.cc:53-121 | under a shared entry both roots translate alike, and they see the page with the same rights if and only if the other root's own PML4 entry already has NX clear where EXE is asked for and USER set where USER is |
| PagingRuns.UnusedIndexStable | kernel/src/arch/amd64/paging.cc:23-123 | over any run, under a PML4 index no mapping uses, no entry of any address space changes |
| PagingRuns.KernelHalfStable | kernel/src/loader/loader.cc:8-15 | over any run of lower-half mappings through any roots every upper-half walk stays, rights included |
| PagingRuns.TreeIsPrivate | kernel/src/loader/loader.cc:8-15 | in a tree of tables no two address spaces share a table of the lower half |
| PagingRuns.LowerHalfIsPrivate | kernel/src/loader/loader.cc:8-15 | over any run of lower-half mappings through other roots and of new address spaces no entry on any walk of this one changes, and the lower halves stay private |
| PagingRuns.TopOverRun | kernel/src/arch/amd64/paging.cc:33-121 | over any run a PML4 entry keeps its table and RW; NX is clear if and only if it was or this root mapped something EXE there, and USER likewise |
| PagingRuns.NeverExecutable | kernel/src/arch/amd64/paging.cc:33-121 | no page below an entry with NX is executable until this root itself maps something executable under it |
| PagingRuns.WritableIffUppersWere | kernel/src/arch/amd64/paging.cc:53-121 | after a mapping a page is writable if and only if it was asked for writable and the entries already above it allowed writing, and every other page exactly if it was before |
| PagingRuns.WritableOverRun | kernel/src/arch/amd64/paging.cc:53-121 | between two mappings of a page no run changes its write permission |
| PagingRuns.ReadOnlyForEver | kernel/src/arch/amd64/paging.cc:53-63 | a read-only entry at any of the three upper levels keeps everything below it read-only over any run, at the lowest of them until a 2 MiB page replaces the table |
| PagingViews.RunRefinesFlatMap | kernel/src/arch/amd64/paging.cc:23-123 | over any run of mappings through any roots and of new address spaces, every page of every address space is the one a flat map read off the run alone says |
| PagingViews.OwnMappingsDecide | kernel/src/arch/amd64/paging.cc:23-123 | with mappings through one root only, each page has the frame and rights of its latest mapping |
| PagingWrites.WritesReadOffRun | kernel/src/arch/amd64/paging.cc:23-123 | over any run of mappings through any roots and of new address spaces a page is writable if and only if the run alone says so: its latest mapping asked for RW, and so did whichever mapping made each of the three entries above it |
| PagingCalls.MapAll | kernel/src/arch/amd64/paging.cc:23-123 | after any sequence of calls every page of every address space shows what the flat map and the write permission read off the calls say; it stops early only at a call for which the arena as it then is has fewer than three pages, a 2 MiB page is in the way, or the frame of the new root is a table or still the arena's |
| PagingCalls.CodeThenData | kernel/src/arch/amd64/paging.cc:53-121 | from an empty address space: code, then data beside it, and the data page is not writable |
| PagingCalls.DataThenSpaceThenCode | kernel/src/arch/amd64/paging.cc:53-121 | data, then a new address space, then user code through the kernel's root: executable and user-accessible there, neither in the new one |
| PagingBits.IndicesAre | kernel/src/arch/amd64/paging.hh:34-37 | the four indices and the page offset are the low 48 bits of the address |
| PageWords.SetUser | kernel/src/arch/amd64/paging.hh:40-46 | setting USER in the word changes that field of the entry and no other |
| PageWords.ClearNx | kernel/src/arch/amd64/paging.hh:40-46 | clearing bit 63 changes NX and nothing else |
| PageWords.StoredDecodes | kernel/src/arch/amd64/paging.hh:40-46 | frame, NX and flags assigned to a word come back out of it |
| PageWords.PointerFollowsFrame | kernel/src/util/bits/arithmetic.hh:63-67 | the address the walker follows depends on the frame bits alone |
| PageWords.PatBitLost | kernel/src/arch/amd64/paging.cc:90-121 | the word stored for a 2 MiB page is the same with the PAT flag as without it |
| PageWords.PatBitKept | kernel/src/arch/amd64/paging.cc:23-33 | for a 4 KiB page the flag is bit 7 of the word, and no other field changes with it |
| PageWords.SmallIsWord | kernel/src/arch/amd64/paging.cc:23-121 | the model's 4 KiB leaf is the word the code stores for a flag word and a cache number, bit for bit |
| PageWords.LargeIsWord | kernel/src/arch/amd64/paging.cc:23-106 | the same for a 2 MiB page |
| PageWords.UpperIsWord | kernel/src/arch/amd64/paging.cc:50-63 | the same for the entry above a new table, which has no cache bits |
| PageWords.CacheBits | kernel/src/arch/amd64/paging.cc:24-25 | of the two low bits of the cache number one becomes write-through and the other cache-disable, and the other bits are those of the flag word |
| PagingBits.PageHoldsWord | kernel/src/arch/amd64/paging.cc:23-121 | after a mapping every root that reaches its table finds that word at every address of the page |
| PagingBits.UppersHoldWord | kernel/src/arch/amd64/paging.cc:53-63 | a new entry above the page is the flag word without the cache number, and an old one keeps everything but USER and NX |
| PagingBits.MapWord | kernel/src/arch/amd64/paging.cc:23-123 | the call with its flag word and cache number: on success the walk of the address ends at the stored word, 2 MiB exactly when the flags say so |
| PhysicalPages.FindArena | kernel/src/mm/pmm.cc:96-116 | the first usable region with room for the arena and the bitmap, or none has room |
| PhysicalPages.ArenaInRegion | kernel/src/mm/pmm.cc:96-116 | the arena and the words of the bitmap lie inside the region chosen, and no usable region before it is long enough |
| PhysicalPages.UnitsCover | kernel/src/mm/pmm.cc:89-92 | the page count asked for covers every page of every line but a trailing reserved one, and is the least that does |
| PhysicalPages.AddRegion | kernel/src/mm/pmm.cc:118-136 | one turn of the setup loop frees exactly the region's pages outside what is set aside; it fails if and only if a page has no bit |
| PhysicalPages.PmmInit | kernel/src/mm/pmm.cc:89-141 | it completes if and only if a region has room and every page it writes has a bit; then the clear bits are the pool, the arena and the bitmap start where they should, and free memory is the sum of the usable lines |
| PhysicalPages.OnePageTooMany | kernel/src/mm/pmm.cc:89-141 | a memory map of 100 MiB and one page, all usable, on which the setup stops |
| PhysicalPages.PoolIsSafe | kernel/src/mm/pmm.cc:89-141 | no page of the pool is page 0, outside usable memory, in the arena or under the bitmap |
| PhysicalPages.PoolExactly | kernel/src/mm/pmm.cc:89-141 | a page with a bit is in the pool if and only if it is not page 0 and lies in a usable line outside the 64 MiB and one byte per page set aside |
| PhysicalPages.Pmm.Alloc | kernel/src/mm/pmm.cc:144-174 | the pages handed out are exactly those that hold one of the `size` bytes, all fresh and from the pool, at the place the wrap-around search promises; both counters move by whole pages; it fails only for want of such a run |
| PhysicalPages.PageCount | kernel/src/mm/pmm.cc:144-150 | the 64-bit rounding of a size is its page count, or 0 for the last page of sizes |
| PhysicalPages.AllocAll | kernel/src/mm/pmm.cc:144-189 | over any run of calls, each with its own start, no two allocations share a byte, every byte lies in a page of the pool, exactly those pages are gone, and a call fails only when no free run is left on either side of its start |
| Ring.LinkedList.PushBack | kernel/src/util/storage.hh:639-660 | the ring gains a marked tail and the old tail loses its mark; it halts if and only if the old tail had none |
| Ring.LinkedList.PushFront | kernel/src/util/storage.hh:662-679 | the ring gains a new first node and the mark stays where it was |
| Ring.LinkedList.Remove | kernel/src/util/storage.hh:681-699 | the ring loses exactly that node, in both directions, and the mark with it if it had it |
| Ring.LinkedList.At | kernel/src/util/storage.hh:716-726 | the element at the index modulo the size; an empty list halts |
| Ring.RotateClosed | kernel/src/util/storage.hh:662-679 | a ring seen from another start is still a ring |
| SchedulerModel.Closer | kernel/src/scheduler/scheduler.cc:73-97 | a waiting task gets one dispatch closer on every tick, deletions included, and at most one further per added task |
| SchedulerModel.BoundedWaiting | kernel/src/scheduler/scheduler.cc:73-125 | a task d steps ahead is dispatched within d ticks plus one per task added meanwhile |
| SchedulerModel.RemovedStaysGone | kernel/src/scheduler/scheduler.cc:59-97 | a task that is out of the ring is never dispatched again, over any run |
| SchedulerModel.DeletedIsGone | kernel/src/scheduler/scheduler.cc:79-85 | a tick on a marked task removes exactly it and dispatches its successor, unless it was the only one |
| SchedulerModel.ExitThenTick | kernel/src/scheduler/scheduler.cc:59-85 | a task that exits is out of the ring after the next tick, and every other task still in it |
| SchedulerModel.AddedLast | kernel/src/scheduler/scheduler.cc:99-125 | a new task comes last in the ring with its context and the next number, and the others stay |
| SchedulerModel.ContextIntegrity | kernel/src/scheduler/scheduler.cc:73-97 | over every run each task, the dispatched one included, holds the CPU state and SSE image last recorded for it |
| SchedulerModel.TickTouchesOnlyCurrent | kernel/src/scheduler/scheduler.cc:73-97 | a tick changes no other task's record |
| SchedulerModel.MarkStep | kernel/src/util/storage.hh:639-699 | a task can be added if and only if the tail is marked, and only deleting the tail loses the mark |
| SchedulerModel.MarkLostForEver | kernel/src/util/storage.hh:639-699 | once the mark is lost no run adds a task again |
| SchedulerModel.OneTaskTooMany | kernel/src/util/storage.hh:639-699 | from the boot task alone: one task is added, runs and exits, and the next addition stops the machine |
| Scheduler.Scheduler.constructor | kernel/src/scheduler/scheduler.cc:35-57 | the snapshot is the boot state of the model, one marked kernel task, and the scheduler runs |
| Scheduler.Scheduler.Tick | kernel/src/scheduler/scheduler.cc:73-97 | a tick counts if and only if the scheduler runs or it is forced; then the switch over the linked ring does the model's step and loads the context of the task it lands on |
| Scheduler.Scheduler.AddTask | kernel/src/scheduler/scheduler.hh:41-70 | the new task joins the ring as the model's addition does, with the SSE image of the moment, and the scheduler runs again; it halts when that one stops |
| Scheduler.Scheduler.AddUserProcess | kernel/src/scheduler/scheduler.cc:99-125 | the same with the user-mode register file; a stopped scheduler halts |
| Scheduler.Scheduler.AddThread | kernel/src/scheduler/scheduler.hh:41-70 | the same with the kernel register file: the stack pointer names a word inside the new stack, below the frame pointer, that holds the address of `sched_exit_thread` |
| Scheduler.Scheduler.ExitThread | kernel/src/scheduler/scheduler.cc:59-69 | the running task, and only it, is marked |
| Scheduler.Scheduler.Obey | kernel/src/scheduler/scheduler.cc:59-125 | an interrupt, a new task or an exit on the object is the model's step, and the saved SSE image is the one that step leaves |
| Scheduler.Scheduler.ObeyAll | kernel/src/scheduler/scheduler.cc:59-125 | any sequence of them on the object ends where the model's run ends, or stops exactly if that one does; so every theorem about runs holds of the object |
| Fat.ClusterFrom | kernel/modules/fat/src/fat.cc:108 | both halves of a cluster number come back out of the joined value |
| Fat.DiskOffsetIsRightIff | kernel/modules/fat/src/fat.cc:110-114 | the computed offset is the cluster's if and only if it is the first cluster, or clusters are one sector long and the 32-bit product does not wrap |
| Fat.OffsetsAreStartsIff | kernel/modules/fat/src/fat.cc:110-159 | the reader looks for all clusters of a chain where they are if and only if the offset of each is right |
| Fat.SeenIsContentIff | kernel/modules/fat/src/fat.cc:110-159 | what the reader sees is the file, whatever bytes are on the disk, if and only if the offset of every cluster of the chain is right |
| Fat.WrongCluster | kernel/modules/fat/src/fat.cc:110-114 | a disk in two-sector clusters on which the file in cluster 3 is read from cluster 2 |
| Fat.GatheredAt | kernel/modules/fat/src/fat.cc:118-159 | the bytes at position k of a gathered chain are the k-th cluster's |
| Fat.MsdRead | kernel/src/devmgr/msd/msd.cc:9-19 | the request is served exactly, aligned or bounced, if and only if it fits its bounce buffer |
| Fat.BounceTooSmall | kernel/src/devmgr/msd/msd.cc:9-19 | a request that does not fit: one sector's worth from offset 1 |
| Fat.FitsIffSectors | kernel/src/devmgr/msd/msd.cc:9-19 | a request fits its bounce buffer if and only if it touches no more sectors than its rounded length has |
| Fat.RestFits | kernel/modules/fat/src/fat.cc:136-141 | a request for the rest of a cluster, or from the start of one, always fits its bounce buffer |
| Fat.OneSectorFits | kernel/modules/fat/src/fat.cc:136-141 | with one-sector clusters the first request of a read always fits its bounce buffer |
| Fat.SkipClusters | kernel/modules/fat/src/fat.cc:124-128 | skipping lands on the right cluster of the chain, and halts if and only if it goes past the end mark |
| Fat.ChainRead | kernel/modules/fat/src/fat.cc:118-159 | for any cluster size the buffer gets exactly the requested bytes of what the reader sees as the file, cut at its end, and nothing else of it changes; it fails if and only if the offset lies past the chain or the first request does not fit its bounce buffer |
| Fat.ChainSize | kernel/modules/fat/src/fat.cc:118-159 | the call without a buffer returns the length from the offset to the end of the chain |
| Fat.ReadWhole | kernel/modules/fat/src/fat.cc:179-182 | sizing and then filling delivers the whole directory as seen, and the directory itself where the offsets are right |
| PrintText.DigitsValue | kernel/src/util/printf.cc:312-332 | the digits stand for the value modulo base^32, the room of the buffer |
| PrintText.ParseReversed | kernel/src/util/string.hh:46-55 | the accumulating parse of a numeral, most significant digit first, is its value |
| PrintText.ParseInt | kernel/src/util/string.hh:31-58 | the loop computes the model's reading, without a result if and only if the magnitude reaches 2^63 |
| PrintNumbers.ParsesTo | kernel/src/util/string.hh:31-58 | for any base, a sign, a `0x`, digits in either case and whatever follows them read as the signed value of the digits |
| PrintNumbers.NumeralIs | kernel/src/util/printf.cc:286-332 | the numeral of a value is made of digits of the base, in the case asked for, without a leading zero, and is worth the value |
| PrintNumbers.BufferWhole | kernel/src/util/printf.cc:233-283 | the conversion buffer holds sign, prefix, zeros and digits of the whole number if and only if they are at most 32 characters and a `#` takes no digit back |
| PrintNumbers.IntTextIs | kernel/src/util/printf.cc:205-332 | then the text is sign, prefix, zeros and numeral in a field of the width, blanks on the side the flag says |
| PrintNumbers.DigitsGiveWay | kernel/src/util/printf.cc:249-257 | `%#5x` of 0x12345 prints `0x345` |
| Printf.Out | kernel/src/util/printf.cc:130-135 | one more character of the text, shown if the buffer has room |
| Printf.OutRev | kernel/src/util/printf.cc:205-229 | the buffer reversed, with the blanks that fill the field before or after it |
| Printf.PutDigits | kernel/src/util/printf.cc:312-332 | the digit loop fills the conversion buffer with the digits of the value |
| Printf.NtoaFormat | kernel/src/util/printf.cc:233-283 | zero padding, prefix and sign as the pure layout has them, laid out in the field |
| Printf.Ntoa | kernel/src/util/printf.cc:312-332 | the text of one integer is appended |
| Printf.ScanFlags | kernel/src/util/printf.cc:607-618 | the flags read are those of the longest run of flag characters |
| Printf.Atoi | kernel/src/util/printf.cc:194-202 | the decimal number at the position, modulo 2^32 |
| Printf.ScanSpec | kernel/src/util/printf.cc:607-686 | flags, width, precision and size of a conversion, with the arguments `*` consumes |
| Printf.Convert | kernel/src/util/printf.cc:688-856 | integers, characters, strings up to their NUL, pointers and plain characters print what the pure conversion says; a missing or wrong argument and a `%` at the end of the format halt |
| Printf.Terminate | kernel/src/util/printf.cc:859-860 | the NUL goes behind the text, or into the last usable place |
| Printf.Vsnprintf | kernel/src/util/printf.cc:583-864 | whatever the buffer size, the result is the length of the whole text up to the NUL of the format (as an `int`) and the buffer holds its first n - 1 characters at most, a NUL, and otherwise what it held |
| Printf.TruncatedAt | kernel/src/util/printf.cc:859-860 | character by character: the text, one NUL, and then what the buffer held |
| Printf.CompleteIff | kernel/src/util/printf.hh:74-86 | the test `0 <= result < n` tells whether the text is complete if and only if a condition on its length modulo 2^32 and on n holds, as it does for every text below 2^31 characters |
| Printf.Misleading | kernel/src/util/printf.hh:74-86 | a text of 2^31 characters that fits is reported with a negative result, and one of 2^32 that is cut with 0 |
| Printf.LargerShowsMore | kernel/src/util/printf.hh:74-86 | two buffers of different sizes agree on everything the smaller one shows |
| Printf.FormatPrints | kernel/src/util/printf.cc:583-864 | a format of one directive, with any flags and perhaps a `*`, prints its integer argument under those flags and that width and nothing else |
| PrintFormats.SpecRead | kernel/src/util/printf.cc:607-686 | flags in any order, a decimal or `*` width, a decimal, `*` or empty precision and any size are read as what they say, in 32 bits, a negative width as left-justified |
| PrintFormats.NumberConverted | kernel/src/util/printf.cc:690-762 | d, i, u, o, x, X and b of every size print the integer the argument stands for at that size, signed or not, under the flags that count for it |
| PrintFormats.FormatMeans | kernel/src/util/printf.cc:583-864 | a format of any literals and directives prints the meaning of each in turn (integers, characters, strings cut at precision and NUL, pointers of sixteen digits, other characters as they are), each taking its own arguments, and stops at the first that finds none |
| PrintFormats.StringPrints | kernel/src/util/printf.cc:802-827 | `%s` prints its string |
| PrintRoundTrip.ZeroPaddedRoundTrip | kernel/src/util/printf.cc:233-332 | `%0*lld` read back by `str_to_int` gives the value if and only if it is not negative, or it is not the minimum and the width is at most 32 |
| PrintRoundTrip.LeftRoundTrip | kernel/src/util/printf.cc:205-332 | `%-*lld` is read back for every value but the minimum |
| PrintRoundTrip.RightRoundTrip | kernel/src/util/printf.cc:205-332 | `%*lld` is read back if and only if the value is 0, or it is not the minimum and no blank was needed |
| PrintRoundTrip.HexRoundTrip | kernel/src/util/printf.cc:312-332 | `%0*llx` and `%0*llX` are read back in base 16 if and only if the value is below 2^63 |
| PrintRoundTrip.HashRoundTrip | kernel/src/util/printf.cc:249-268 | `%#llx` is read back in the default base below 2^63, `%#llX` only for 0 |
| PrintRoundTrip.BinaryRoundTrip | kernel/src/util/printf.cc:312-332 | `%llb` is read back in base 2 as the value modulo 2^32 |
| PrintRoundTrip.PrintThenParse | kernel/src/util/string.hh:31-58 | through the formatter: `%*lld` under any mixture of the flags `0` and `-` parses back under exactly the conditions above |
| PrintRoundTrip.PrintThenParseHex | kernel/src/util/string.hh:31-58 | the same for `%0*llx` and `%0*llX` in base 16 |
| PrintRoundTrip.PrintThenParseHash | kernel/src/util/string.hh:31-58 | the same for `%#llx` and `%#llX` in the default base |
| PrintRoundTrip.PrintThenParseBinary | kernel/src/util/string.hh:31-58 | the same for `%llb` in base 2 |
| Linker.SectionsDisjoint | kernel/src/devmgr/module.cc:133-167 | placed sections never overlap |
| Linker.OffsetAligned | kernel/src/devmgr/module.cc:165 | every section starts at a multiple of 32 from the module base |
| Linker.OffsetNext | kernel/src/devmgr/module.cc:133-167 | the next section starts at the first multiple of 32 at or after the end of this one, and a section that is not placed takes no room |
| Linker.PagesCover | kernel/src/devmgr/module.cc:139-149 | the mapping loop asks for the page of every byte of the section |
| Linker.ImageAt | kernel/src/devmgr/module.cc:133-167 | after loading, every byte of a section is its own (zero for NOBITS), and no other byte changed |
| Linker.LoadSections | kernel/src/devmgr/module.cc:133-167 | the section loop leaves that image and the placed addresses in the headers |
| Linker.KernelAddressIsFirst | kernel/src/devmgr/module.cc:73-80 | an undefined symbol resolves to the first kernel symbol of its name, and fails if and only if there is none |
| Linker.DefinedSymbol | kernel/src/devmgr/module.cc:81-84 | a symbol defined in a placed section resolves to where the loaded image holds the byte the symbol stands for |
| Linker.Relocate | kernel/src/devmgr/module.cc:65-113 | one relocation writes S + A as a quadword, or fails on an unknown symbol, type or place |
| Linker.LinkSections | kernel/src/devmgr/module.cc:56-115 | the two loops apply every relocation in order, and fail if and only if one of them does or a REL section is met |
| Linker.RunAt | kernel/src/devmgr/module.cc:56-115 | with targets apart, every relocated quadword ends up as its S + A and nothing else changes |
| Linker.QuadIsValue | kernel/src/devmgr/module.cc:104-107 | the quadword written reads back as S + A |
| Linker.LastMainIsEntry | kernel/src/devmgr/module.cc:46-54 | the entry point is the last symbol called `mod_main` |
| Linker.LoadModule | kernel/src/devmgr/module.cc:120-171 | loading succeeds if and only if an entry point exists and every relocation applies, and leaves the linked image and the placed headers |
| Linker.LinkedImage | kernel/src/devmgr/module.cc:56-167 | in the final image each relocated quadword is S + A, every other byte of a section is its own, and nothing outside the sections changed |
| LinkedModule.EntryAt | kernel/src/devmgr/module.cc:56-68 | every relocation of every RELA section is met by the two loops |
| LinkedModule.OriginsDiffer | kernel/src/devmgr/module.cc:56-68 | and none is met twice |
| LinkedModule.LinksIff | kernel/src/devmgr/module.cc:56-115 | linking goes through if and only if there is no REL section and every relocation has a header, a symbol that stands for an address, the one type known and a place in the window |
| LinkedModule.RelocatedQuads | kernel/src/devmgr/module.cc:56-115 | in the linked image the quadword at every relocation is S + A in 64 bits, S being the placed address of a defined symbol or the value of the first kernel symbol of its name |
| LinkedModule.OtherBytes | kernel/src/devmgr/module.cc:56-167 | every byte of no relocation is its section's own, zero for NOBITS, or what it was where no section is |
| LinkedModule.NoMainNoEntry | kernel/src/devmgr/module.cc:46-54 | without a symbol called `mod_main` there is no entry point |
| LinkedModule.MainIsEntry | kernel/src/devmgr/module.cc:46-54 | otherwise it is where the section of the last such symbol has been placed, plus the symbol's value |

## Left out

- Device drivers, interrupts, SMP start-up, assembly, console, command line, strings, vectors, maps, smart pointers: only easy members, or foreign calls.
- HeapManager.MemoryMgr.MemSet: a store outside the heap, as in the redzones `alloc_aligned` writes past its end, is dropped, because only the heap is modelled; a copy that would leave the heap stops the model.
- ReallocRace.ReallocDelivers: the condition is sufficient, not necessary, because some surgery under the query does no harm; one `realloc` is followed among any number of guarded calls, one descriptor look and one copied byte at a time, and a query whose descriptor has been deleted has no result.
- LockedHeap.MicroOnWay: the list surgery at one descriptor, a whole `check` and a whole `merge` are one step each; the lock keeps other calls out of them, and they touch no byte a client stores to.
- HeapManager.MemoryMgr.CheckAll: the text it prints about a corrupt block is left out; on a sound heap there is none.
- Debug texts of the heap (`dump`, `info`, `print_files`) and the file and line a descriptor remembers.
- The search loops of the heap manager are methods of their own here; descriptors are array indices with -1 for null.
- Paging.AddressSpaces.MapPage: a 4 KiB mapping inside an existing 2 MiB page stops the model, because the code would take that page for a table and write into it; physical addresses stay below 2^47, 1 GiB pages are never made, and the flags contain PRESENT and never HUGE, as those of every caller.
- TLB invalidation and the caching flags' effect on the hardware.
- PhysicalPages.PmmInit: the memory map is sorted, disjoint, page aligned and without empty lines, as the boot protocol promises.
- PhysicalPages.Pmm.Alloc: the page the search starts at is a parameter: 0 for `pmm_alloc4g`, and for `pmm_alloc` whatever the `int` shift in `gibs2bytes(4)` gives, which overflows; `pmm_free` does nothing in the source.
- Scheduler.Scheduler.Tick: one CPU; loading the registers is the returned context.
- Scheduler.Scheduler.AddTask: tasks carry the number of their creation, of which the source keeps the low 32 bits as the process number; nothing but a dump reads it.
- Fat.ChainRead: the chain is acyclic, and its clusters are in the table and on the disk.
- Path lookup, long file names and mounting in the FAT module.
- Printf.Convert: floating-point conversions stop the model; output to the console and to callbacks is left out, and a null buffer is a buffer of size 0.
- PrintFormats.FormatMeans: numbers the conversion buffer cannot hold whole, and `%p` with flags or a precision, are described by the model's layout only.
- Printf.Vsnprintf: a format with a floating-point conversion stops the model, as in Printf.Convert.
- PrintText.ParseInt: an accumulator that leaves 64 bits has no result, as signed overflow has none in C++.
- PrintRoundTrip.ZeroPaddedRoundTrip: negating the least value relies on the usual wrap-around, giving 2^63.
- Linker.Relocate: a relocation that would write outside the module's window fails here, because only that window is modelled; the source performs it.
- Linker.LinkSections: fails at a relocation outside the window, as Linker.Relocate does.
- Linker.LoadModule: works on parsed section headers and symbol tables; missing `.strtab` or `.symtab` sections and the module bitmap are left out.
