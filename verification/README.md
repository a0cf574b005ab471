# A verified model of the kernel's memory, scheduling, file and formatting core

This project models, in Dafny, the parts of the kernel that carry state from call to call, and
proves what they are for:

- the **physical frame allocator** over its byte-packed bitmap (`pmm.dfy`);
- the **page-table walker** over tables held in physical frames (`words.dfy`, `pte.dfy`,
  `pagetree.dfy`, `vmm.dfy`), which refines a flat map from pages to entries;
- the **kernel heap** on its doubly linked, in-place block list (`heaplayout.dfy`,
  `heapblocks.dfy`), joined to the two layers below it (`heappages.dfy`, `kheap.dfy`), and whole
  runs of its calls (`heapruns.dfy`);
- the **round-robin scheduler** as a state machine over 64 slots (`scheduler.dfy`), and the
  **assembly context switch** as a register and stack machine (`context.dfy`), and both in one
  state (`threads.dfy`); `records.dfy` says what each event does to every slot;
- the **in-memory file system**, a pointer tree and a descriptor table (`vfspath.dfy`,
  `vfstree.dfy`, `vfs.dfy`, `vfscreate.dfy`), which refines a map from paths to byte sequences,
  `Files.FileAt` (`vfsfiles.dfy`); `vfscalls.dfy` states the calls for paths written out;
- the **numerals, the bounded formatter and the overlapping copy** (`numerals.dfy`, `format.dfy`),
  and what each conversion prints (`conversions.dfy`).

Code that changes state in place is a class with the source's fields, or a method with the
source's loops; each method is proved against a function of the old state, and what the kernel
promises is proved about that function: kept invariants, safety over whole runs, round trips and
refinements. Memory sections whose contents matter are explicit: 512-word table frames, block
headers and payload bytes of the heap, 8-byte stack words.

Where the code departs from its evident intent, the model follows the code:

- The bitmap's length is rounded down before it is rounded up to pages, so it covers all frames
  only if the number of frames modulo 32768 is not in 1..7 (`Pmm.BitmapCoversIff`); start-up is
  modelled for maps that meet this.
- `vmm_map_page` fails silently when tables cannot be allocated (`Vmm.Vmm.MapPage` says exactly
  when); `heap_expand` does not notice, and its header store then faults (outcome `Fault`).
- `kmalloc` searches again after expanding even if no page was obtained. The model reports the
  outcome `Diverges` instead of recursing for ever; `KernelHeap.KmallocExactly` gives the exact
  condition of each outcome, `KernelHeap.NoFramesDiverges` and `KernelHeap.OneFrameFaults` inputs
  at which it does not return a block, and `KernelHeap.DivergesForever` shows that every retry
  reproduces the same state.
- `get_next_level` takes a large page for a table, so a mapping under it is lost, or lands at
  another address if the page holds a table (`Vmm.MapTakesEffectIff`, `Vmm.LargePageDefeatsMap`,
  `PageTree.LargePageMisdirects`). It never adds the user bit to a link already present, so user
  access needs every link on the path to allow it (`Vmm.Vmm.MapPage`).
- The fallback to slot 0 ignores that slot's state; `SchedulerSpec.LastResortIff` says exactly when
  it hands the processor to a thread that is not ready. Slot 0 is not required to stay alive.
- Truncation leaves other descriptors of the file beyond its end unless none has moved
  (`Vfs.Vfs.Open` states this as an equivalence); a write there brings back what the buffer held
  behind the new end (`FileData.OverwritesBeyond`).
- Creation cuts names at 127 characters and accepts an empty last name; `Creation.CreatedFoundIff`,
  `Creation.UniqueIff` and `Creation.LongNamesCollide` give the exact conditions and a failing
  case.
- `vfs_open` creates or truncates the file before it finds the descriptor table full.
- A zero-padded negative number gets its zeros before the sign, as in `00-5`.
- A thread whose stack cannot be allocated still uses up a thread number, and its slot stays
  unused.

## Model

| member | source | states |
|---|---|---|
| `Paging.AlignUp` | src/include/memory.h:8 | The least multiple of the alignment not below the address, away from 64-bit overflow. |
| `Bitmap.SetFlag` | src/kernel/pmm.c:16-18 | Setting a frame's bit in the packed bytes sets that frame's flag and leaves every other one, in whichever byte. |
| `Bitmap.ClearFlag` | src/kernel/pmm.c:20-22 | Clearing a frame's bit clears that frame's flag and leaves every other one. |
| `Bitmap.FlagIsBit` | src/kernel/pmm.c:24-26 | Frame n has bit n modulo 8, counted from the lowest, of byte n / 8. |
| `Pmm.Pmm.BitmapSet` | src/kernel/pmm.c:16-18 | The stored bytes keep representing the flag sequence, in which exactly one flag was set. |
| `Pmm.Pmm.BitmapClear` | src/kernel/pmm.c:20-22 | The stored bytes keep representing the flag sequence, in which exactly one flag was cleared. |
| `Pmm.Pmm.BitmapTest` | src/kernel/pmm.c:24-26 | Reading the packed bit gives the frame's flag. |
| `Bitmap.CountFreeUpdate` | src/kernel/pmm.c:110-129 | Changing one flag moves the number of clear flags by exactly one, or not at all; this is what keeps the counters exact. |
| `Bitmap.ProbeIndex` | src/kernel/pmm.c:109-110 | The i-th index probed after the last one is the frame at cyclic distance i, so that probing visits every frame once. |
| `Bitmap.NextFreeIs` | src/kernel/pmm.c:107-118 | The next free frame is the first from the last index to the end or, if there is none, the first of all. |
| `Pmm.BitmapCoversIff` | src/kernel/pmm.c:48 | The bitmap, whose byte count is rounded down before being rounded up to pages, covers every frame exactly if the number of frames modulo 32768 is not in 1..7. |
| `Pmm.HighestIs` | src/kernel/pmm.c:36-45 | The highest address is the end of some usable entry, if there is one, and no usable entry ends higher. |
| `Pmm.BitmapHome` | src/kernel/pmm.c:50-58 | The bitmap goes to the first usable entry that is long enough, or there is none. |
| `Pmm.HomeIsFree` | src/kernel/pmm.c:83-92 | The bitmap's own pages lie in a usable entry, so step 4 takes exactly free frames. |
| `Pmm.Pmm.MarkUsable` | src/kernel/pmm.c:69-81 | With aligned, disjoint usable entries, exactly the frames of usable entries become free, each counted once. |
| `Pmm.Pmm.MarkBitmapPages` | src/kernel/pmm.c:83-92 | Exactly the bitmap's own frames become used, and the counter stays the number of free flags. |
| `Pmm.Pmm.ReserveLowMemory` | src/kernel/pmm.c:94-101 | The first 256 frames become used, whether or not they were, and the counter stays exact. |
| `Pmm.BootFlags` | src/kernel/pmm.c:65-101 | After steps 3 to 5 the free frames are exactly: usable, not holding the bitmap, and not among the first 256. |
| `Pmm.FreeAtBootIs` | src/kernel/pmm.c:47-101 | In figures: free at the start are the usable frames from number 256 on, but not those of the bitmap, total / 8 bytes in whole pages at the start of the first long enough entry. |
| `Pmm.Pmm.Init` | src/kernel/pmm.c:28-105 | Start-up succeeds exactly if some usable entry can hold the bitmap; then the free set is exactly the one above, counters exact, free + used = total. |
| `Pmm.Pmm.AllocPage` | src/kernel/pmm.c:107-120 | Takes the first free frame in cyclic order from where the last search ended, marks just that one, and returns null exactly if no frame is free. |
| `Pmm.Pmm.FreePage` | src/kernel/pmm.c:122-132 | Clears the flag of the used frame an address lies in and changes nothing for null, a frame beyond the end or a free frame; counters stay exact. Only an address inside frame 0 makes that frame available, against the invariant. |
| `Pmm.FreedIs` | src/kernel/pmm.c:122-132 | Just the frame of a non-null address below the end becomes free. |
| `Pmm.Pmm.AllocPages` | src/kernel/pmm.c:134-158 | For two or more frames: takes the leftmost run of free frames and marks exactly it; null exactly if there is no such run. One frame is the cyclic search, none is null. |
| `Pmm.Pmm.FindRun` | src/kernel/pmm.c:140-157 | The scan finds the leftmost run of free frames of the length asked for, or there is none anywhere. |
| `Pmm.LeftmostRun` | src/kernel/pmm.c:140-153 | The run at which the scan stops starts lower than any other free run of that length. |
| `Pmm.NoRunAtEnd` | src/kernel/pmm.c:140-157 | A scan that reaches the end has shown that no run of that length is free anywhere. |
| `Pmm.Pmm.FreePages` | src/kernel/pmm.c:160-166 | The flags after the loop are those of freeing page after page, 64-bit wrap-around of addresses included. |
| `Pmm.FreedRunIsRange` | src/kernel/pmm.c:160-166 | Without wrap-around the loop clears exactly the frames of the run. |
| `Pmm.AllocFreeRoundTrip` | src/kernel/pmm.c:134-166 | Freeing the run just allocated restores every flag, hence bitmap and counters. |
| `Words.AndOr` | src/kernel/vmm.c:29 | Bitwise and distributes over bitwise or on words of any length; flags can be read off a composed entry. |
| `Words.AndOnes` | src/include/vmm.h:18 | Masking with a run of ones is the remainder by the power of two. |
| `Pte.FrameMaskKeeps` | src/include/vmm.h:18 | The frame mask keeps every page-aligned 52-bit physical address. |
| `Pte.EntryBits` | src/include/vmm.h:7-18 | In figures: present, writable, user and large page are bits 0, 1, 2 and 7 of an entry, the frame bits 12 to 51. |
| `Pte.TableEntryIs` | src/kernel/vmm.c:29 | A table link is the frame plus 3, plus 4 exactly if bit 2 of the flags is set. |
| `Pte.LeafEntryAnd` | src/kernel/vmm.c:48 | Under any mask, a leaf entry shows the frame field of the address, the flags and the present bit, and nothing else. |
| `Pte.TableEntryDecodes` | src/kernel/vmm.c:29 | A table link decodes to its frame, is present and writable, is no large page, and is a user link exactly if the caller asked for one. |
| `Pte.LeafEntryDecodes` | src/kernel/vmm.c:48 | A leaf entry is present, carries the caller's writable and user bits, and decodes to the physical frame when the flags stay clear of the frame field. |
| `PageTree.VpnIsBits12To47` | src/kernel/vmm.c:34-37 | Two addresses share all four table indices exactly if they agree in bits 12 to 47. |
| `PageTree.WalkWords` | src/kernel/vmm.c:34-48 | The walk in figures: the words at va / 2^39, va / 2^30, va / 2^21 and va / 2^12, each modulo 512, each table where the word before points. |
| `PageTree.NoSharing` | src/kernel/vmm.c:9-31 | In every state that keeps the tree invariant, two different links never lead to one table. |
| `PageTree.GrowKeepsTree` | src/kernel/vmm.c:20-30 | Linking a zeroed frame that is no table yet keeps the tables an unshared tree. |
| `PageTree.GrowView` | src/kernel/vmm.c:20-30 | After that, every address finds what it found; only addresses through the new link miss one table less. |
| `PageTree.GrowSameView` | src/kernel/vmm.c:20-30 | Seen from the root: a new table changes no translation of any address, and the mapped address misses exactly one table less. |
| `PageTree.SetLeafKeepsTree` | src/kernel/vmm.c:48 | Writing a leaf entry keeps the tree invariant. |
| `PageTree.SetLeafView` | src/kernel/vmm.c:48 | Writing one leaf entry changes the translation of that page and nothing any other address can observe: no other path shares it. |
| `PageTree.MissingZeroIff` | src/kernel/vmm.c:39-46 | An address misses no table exactly if its lowest table is in the tree. |
| `PageTree.AgreeView` | src/kernel/vmm.c:9-31 | An address whose path avoids the one changed word of the tables sees no difference. |
| `PageTree.LargePageMisdirects` | src/kernel/vmm.c:10-12 | If a large page that is taken for a table leads to a lowest table of the tree, the store maps another address, the one that entry belongs to, and no third one. |
| `Vmm.Vmm.GetNextLevel` | src/kernel/vmm.c:9-31 | On any memory: follows a present entry, large page or not; otherwise fails exactly if not allowing allocation or out of frames; otherwise links a zeroed frame fresh from the allocator. |
| `Vmm.Vmm.FindTable` | src/kernel/vmm.c:34-46 | The three descents end in the lowest table of the page or, exactly when frames run out, in failure, and no translation changes; with a large page on the path, at most one word of the tables does. |
| `Vmm.Vmm.MapPage` | src/kernel/vmm.c:33-50 | With no large page on the path: if the frames left suffice for the missing tables, the page translates to (phys masked) + flags + present, every other translation and page permission is unchanged and the free count drops by exactly the tables added; otherwise no translation changes at all. User permission follows the links on the path, present ones included. With a large page on the path at most one word of the tables changes. |
| `Vmm.MapTakesEffectIff` | src/kernel/vmm.c:33-50 | Mapping takes effect exactly if no large page stands on the path and the frames suffice, provided a large page, being followed, leads to no table. |
| `Vmm.MappedWords` | src/kernel/vmm.c:33-50 | After a mapping that takes effect these four words are three links to tables and the new entry. |
| `Vmm.LargePageDefeatsMap` | src/kernel/vmm.c:10-12 | Following a large page of either size that leads to no table leaves the view of every address as it was, the large page included. |
| `Vmm.LargePageSpares` | src/kernel/vmm.c:10-12 | If it leads to a table, only addresses through the one word stored there can be affected. |
| `Vmm.GrowFresh` | src/kernel/vmm.c:20-24 | Frames taken for tables were free, and no table moves. |
| `Vmm.Vmm.UnmapPage` | src/kernel/vmm.c:52-69 | Removes exactly one translation; tables and frames stay as they are. A large page on the path stays: at most one word of the tables changes. |
| `Vmm.Vmm.MapThenUnmap` | src/kernel/vmm.c:33-69 | Mapping an unmapped page, successfully or not, and unmapping it restores the whole translation function. |
| `HeapLayout.FirstFitIs` | src/kernel/heap.c:72-79 | The block at which the search stops is the lowest free one that is large enough. |
| `HeapLayout.PayloadsDisjoint` | src/kernel/heap.c:79-97 | In a tiled heap every block lies between the start and the top, and no two overlap, headers included. |
| `HeapLayout.CarveWellFormed` | src/kernel/heap.c:79-97 | Splitting or taking a block keeps the tiling of the heap, sizes and addresses multiples of 16, and no two free neighbours. |
| `HeapLayout.CarveLive` | src/kernel/heap.c:79-97 | Allocation adds one block of at least the size asked for and less than 48 bytes more, and moves or resizes no other block in use. |
| `HeapLayout.CarvedBlock` | src/kernel/heap.c:79-97 | The pointer handed out is 16-byte aligned and finds exactly the new block. |
| `HeapLayout.ReleaseWellFormed` | src/kernel/heap.c:119-139 | Freeing with coalescing to both sides keeps the tiling, the alignment and no two free neighbours. |
| `HeapLayout.ReleaseLive` | src/kernel/heap.c:119-139 | Freeing removes one block from those in use and touches no other. |
| `HeapLayout.ExtendWellFormed` | src/kernel/heap.c:34-56 | A page added at the top, joined to a free last block, keeps the heap well formed. |
| `HeapLayout.ExtendByFits` | src/kernel/heap.c:102-107 | After an expansion by all the pages asked for, the request fits: the retry succeeds at once. |
| `HeapLayout.CarveReleaseRoundTrip` | src/kernel/heap.c:79-139 | Freeing a block just taken restores the very same row of blocks. |
| `HeapLayout.RunSafe` | src/kernel/heap.c:21-140 | Over every run of allocations, frees of pointers in use and new pages: the blocks tile the heap, and a block in use stays where it is, at its size, until its own pointer is freed. |
| `HeapLayout.FreeAll` | src/kernel/heap.c:110-140 | Freeing every pointer in use, in any order, is a legal run and leaves one free block of top - start - 32 bytes. |
| `HeapLayout.LiveDisjoint` | src/kernel/heap.c:79-97 | Two blocks in use have disjoint payloads. |
| `HeapBlocks.SplitLinked` | src/kernel/heap.c:81-93 | The three header stores of a split leave a doubly linked list of exactly the split row, prev inverse to next. |
| `HeapBlocks.MergeLinked` | src/kernel/heap.c:122-126 | The header stores of a coalescing step leave a doubly linked list of exactly the merged row. |
| `HeapBlocks.AppendLinked` | src/kernel/heap.c:41-54 | Linking a page's block behind the tail leaves a doubly linked list of the longer row. |
| `HeapBlocks.BlockList.TakeFirstFit` | src/kernel/heap.c:72-101 | The walk over next pointers serves the lowest fitting free block, or leaves everything as it was; no byte of a block in use changes. |
| `HeapBlocks.BlockList.SplitBlock` | src/kernel/heap.c:81-93 | Splitting in memory refines splitting the row, and touches no byte of a block in use. |
| `HeapBlocks.BlockList.Kfree` | src/kernel/heap.c:110-140 | Freeing in memory, both coalescing branches included, refines releasing the block in the row; every other block in use keeps its bytes. |
| `HeapBlocks.BlockList.AppendPage` | src/kernel/heap.c:34-56 | Putting a page on the list refines extending the row; every block in use keeps its bytes. |
| `HeapBlocks.BlockList.Store` | src/kernel/heap.c:79-97 | A program storing inside its own payload destroys no header: the list stays valid. |
| `HeapBlocks.BlockList.Memcpy` | src/kernel/heap.c:163-167 | Copying between payloads moves exactly those bytes and keeps the list valid. |
| `HeapPages.PageVpnDistinct` | src/kernel/heap.c:24-33 | Different heap pages never share a page-table slot, up to the end of the address space. |
| `HeapPages.OwnedAfterAlloc` | src/kernel/heap.c:24-30 | A frame fresh from the allocator is none of those behind the heap and none of the tables. |
| `HeapPages.OwnedAfterTables` | src/kernel/heap.c:30-33 | New tables never take a frame that is behind the heap. |
| `HeapPages.BackedAfterMap` | src/kernel/heap.c:30-33 | Mapping the next page leaves all earlier heap pages mapped as they were. |
| `HeapPages.PageIsKernels` | src/kernel/heap.c:30 | The entry of every heap page decodes to present, writable, not for user programs, and the frame of that page. |
| `HeapPages.PageVpnIs` | src/include/heap.h:6 | The heap region hangs from entry 511 of entry 511 of the tables, page p at entry p modulo 512 of lowest table p / 512. |
| `HeapPages.MissingAfterPage` | src/kernel/heap.c:24-33 | Once a page is mapped, a page further up misses its lowest table or nothing, and nothing if it shares that table. |
| `HeapPages.NextCost` | src/kernel/heap.c:24-57 | The cost of further pages is exact: a frame each, the tables missing for the first, and one for each later group of 512 whose lowest table is missing. |
| `HeapPages.FourEach` | src/kernel/heap.c:24-57 | Four frames for each page are always enough. |
| `HeapPages.TooFewForTables` | src/kernel/heap.c:30-36 | With some frames, but no more than the tables missing for the first page, expansion faults. |
| `KernelHeap.KernelHeap.AddPage` | src/kernel/heap.c:24-56 | One iteration stops exactly if no frame is left, faults exactly if there are some but no more than the tables missing, and otherwise adds one mapped page at its exact cost. |
| `KernelHeap.KernelHeap.HeapExpand` | src/kernel/heap.c:21-59 | Every page from the start to the top stays mapped by the entry frame + 3, present, writable and not for user programs, to frames that are pairwise distinct, in use and no tables. It adds exactly the pages that the frames suffice for, at their exact cost, and faults exactly if frames are left over while pages are still wanted. |
| `KernelHeap.KernelHeap.Kmalloc` | src/kernel/heap.c:66-108 | Serves a new 16-byte aligned block of the size asked for, disjoint from all others, whose bytes are kept; expands only if nothing fits, by exactly the pages the frames suffice for. It faults, and fails to return, in exactly stated cases. |
| `KernelHeap.PagesFor` | src/kernel/heap.c:102-104 | The pages asked for are the fewest, from 4 on, that hold the request and a header of 32 bytes. |
| `KernelHeap.KmallocGrowth` | src/kernel/heap.c:102-107 | One kmalloc leaves the top alone if a block fits, and otherwise raises it by at most 16 KiB, or the request with its header in whole pages if that is more. |
| `KernelHeap.KmallocFits` | src/kernel/heap.c:66-97 | The block served holds the size asked for and at most 62 bytes more. |
| `KernelHeap.KmallocExactly` | src/kernel/heap.c:66-108 | The four outcomes, each with its necessary and sufficient condition on the size, first fit and the exact cost in frames. |
| `KernelHeap.FourEachServes` | src/kernel/heap.c:102-107 | With four frames for each page asked for, kmalloc returns a block. |
| `KernelHeap.NoFramesDiverges` | src/kernel/heap.c:104-107 | With no frame and no fitting block it never returns, and nothing has changed. |
| `KernelHeap.OneFrameFaults` | src/kernel/heap.c:30-36 | With one frame, a table missing and no fitting block it faults. |
| `KernelHeap.DivergesForever` | src/kernel/heap.c:104-107 | Where it never returns, the recursive call, search and expansion, ends in the very same state again. |
| `KernelHeap.GrownFits` | src/kernel/heap.c:102-107 | If all pages were granted the retry fits; a retry that does not fit means no frame is left. |
| `KernelHeap.RetryOutcome` | src/kernel/heap.c:104-107 | Expansion followed by the recursive call meets the same contract as one call: first fit of the extended heap. |
| `KernelHeap.KmallocIsRun` | src/kernel/heap.c:66-108 | A kmalloc that returns is a legal run of the layout machine, some new pages and one allocation, so the whole-run theorem covers it. |
| `KernelHeap.MallocFreeRoundTrip` | src/kernel/heap.c:66-140 | kmalloc then kfree without expansion restores the block layout exactly. |
| `KernelHeap.KernelHeap.Kfree` | src/kernel/heap.c:110-140 | Releases exactly the block of the pointer; null changes nothing; mappings, frames and the bytes of blocks in use stay. |
| `KernelHeap.KernelHeap.Krealloc` | src/kernel/heap.c:151-169 | Null allocates, size 0 frees, a large enough block stays put with nothing changed; otherwise, exactly if kmalloc can serve, the old block is replaced by a new one that holds all its bytes, all other blocks in use keep theirs, and blocks and frames are as that kmalloc and kfree leave them. When no block can be had the old one stays. |
| `KernelHeap.KreallocIs` | src/kernel/heap.c:151-169 | Which of the four cases applies, by the pointer, the size asked for and the size of the block. |
| `HeapRuns.CallKeeps` | src/kernel/heap.c:66-169 | A block in use survives with all its bytes every call that returns and does not free, reallocate or store into it. |
| `HeapRuns.RunGood` | src/kernel/heap.c:21-169 | Over every run of kmalloc, kfree, krealloc and stores into own blocks, the heap stays tiled, aligned and coalesced. |
| `HeapRuns.RunKeepsBytes` | src/kernel/heap.c:21-169 | And a block in use stays in use, at its place, with every byte, until a call frees it, reallocates it or stores into it. |
| `SchedulerSpec.NextReadyIs` | src/kernel/scheduler.c:103-110 | The slot found is the ready one at the least cyclic distance after the current one, if any is ready. |
| `SchedulerRecords.DecisionRecords` | src/kernel/scheduler.c:88-148 | What a decision does to every slot: the chosen one runs with five ticks, the one that was running, if another, is ready again, all others change by waking alone; no other field changes. |
| `SchedulerRecords.DecisionTicks` | src/kernel/scheduler.c:112-127 | Time passes in a decision only while a sleeping thread finds nobody ready, and then exactly to its deadline. |
| `SchedulerRecords.DecisionMoves` | src/kernel/scheduler.c:103-118 | The processor stays where it is only if no other thread is ready or due. |
| `SchedulerRecords.YieldRecord` | src/kernel/scheduler.c:150-152 | A yielding thread goes on, or is ready again with all else unchanged. |
| `SchedulerRecords.TickRecord` | src/kernel/scheduler.c:183-194 | A tick adds one to the clock and takes one from the slice; with the slice used up the thread goes on with five, or is ready again. |
| `SchedulerRecords.SleepRecord` | src/kernel/scheduler.c:154-165 | A sleeping thread has the deadline for its milliseconds at 100 ticks a second, in 64 bits; it runs on only once that has come. |
| `SchedulerRecords.DeadlineLater` | src/kernel/scheduler.c:157-161 | Short of wrap-around that is a tenth of the milliseconds, at least one tick, from now. |
| `SchedulerRecords.ExitRecord` | src/kernel/scheduler.c:167-181 | An exiting thread is terminated, and runs on only as slot 0 with nobody ready. |
| `SchedulerRecords.OthersRecord` | src/kernel/scheduler.c:88-194 | Any event but a creation leaves the slots of other threads alone, save for waking and dispatching. |
| `SchedulerRecords.CreateRecord` | src/kernel/scheduler.c:33-86 | A creation fills the lowest unused or terminated slot after 0 with the next number, the stack and five ticks, and changes nothing else; without a stack the number is spent and the slot unused. |
| `SchedulerSpec.ScheduleKeeps` | src/kernel/scheduler.c:88-148 | From any table in which no other thread is running, a decision ends with exactly one running thread, the current one, on a fresh slice. |
| `SchedulerSpec.StepKeeps` | src/kernel/scheduler.c:33-194 | Every entry point keeps that, the slice between 1 and 5. |
| `SchedulerSpec.RunKeeps` | src/kernel/scheduler.c:33-194 | So over every run of ticks, yields, sleeps, exits and creations, exactly one thread is running after each event: the current one. |
| `SchedulerSpec.SleepHonoured` | src/kernel/scheduler.c:93-97 | A decision takes a thread out of its sleep only at or after the deadline, the sole exception being slot 0 as the last resort. |
| `SchedulerSpec.StepHonoursSleep` | src/kernel/scheduler.c:93-181 | The same for every entry point; the exception needs the exit of the current thread with nothing ready. |
| `SchedulerSpec.SleeperWakes` | src/kernel/scheduler.c:93-97 | A sleeper whose deadline has come is ready or running after the next decision. |
| `SchedulerSpec.LastResortIff` | src/kernel/scheduler.c:112-129 | A thread that is neither ready nor current gets the processor exactly when the current one is dead, is not slot 0, and nothing is ready. |
| `SchedulerSpec.StepNearer` | src/kernel/scheduler.c:88-194 | One event: a waiting ready thread runs, or is no further from its turn; a decision brings it strictly nearer, a tick uses up its wait. |
| `SchedulerSpec.WaitShrinks` | src/kernel/scheduler.c:103-194 | Over a run, distance and wait have shrunk by the decisions and ticks so far. |
| `SchedulerSpec.BoundedWaiting` | src/kernel/scheduler.c:103-194 | A ready thread runs within its cyclic distance in decisions, so within 63, and within 315 delivered ticks, whatever is created, sleeps, exits or wakes meanwhile. |
| `Scheduler.Scheduler.constructor` | src/kernel/scheduler.c:16-31 | Start-up leaves the bootstrap thread running in slot 0. |
| `Scheduler.Scheduler.WakeSleepers` | src/kernel/scheduler.c:93-97 | The loop wakes exactly the sleepers whose deadline has come. |
| `Scheduler.Scheduler.FindReady` | src/kernel/scheduler.c:99-110 | The loop finds the slot of the specification. |
| `Scheduler.Scheduler.Schedule` | src/kernel/scheduler.c:88-148 | The in-place decision is the specified one, and a context switch happens exactly if the current thread changed. |
| `Scheduler.Scheduler.ThreadSleep` | src/kernel/scheduler.c:154-165 | Sleeping in 64-bit milliseconds to ticks is the specified step. |
| `Scheduler.Scheduler.ThreadExit` | src/kernel/scheduler.c:167-181 | Exit is the specified step. |
| `Scheduler.Scheduler.TimerTick` | src/kernel/scheduler.c:183-194 | A tick is the specified step, preempting exactly when the slice is used up. |
| `Scheduler.Scheduler.ThreadCreate` | src/kernel/scheduler.c:33-86 | Creation takes the lowest unused or terminated slot after 0, fails without one or without a stack, and otherwise is the specified step. |
| `ContextSwitch.Cpu.ContextSwitch` | src/arch/x86_64/context_switch.asm:14-38 | The instructions, one by one, do what the machine function says: six pushes, the swap of stacks, six pops and the return. |
| `ContextSwitch.Cpu.Trampoline` | src/arch/x86_64/context_switch.asm:45-62 | The entry point is called with the argument in rdi, and a stack aligned as the System V AMD64 ABI section 3.2 asks at a call. |
| `ContextSwitch.Cpu.PrepareStack` | src/kernel/scheduler.c:61-79 | Stores exactly the seven words of the initial frame and the saved stack pointer. |
| `ContextSwitch.PreparedIs` | src/kernel/scheduler.c:61-79 | They decode to entry in r12, argument in r13 and the trampoline as return address; no other word changes. |
| `ContextSwitch.SwitchSuspends` | src/arch/x86_64/context_switch.asm:14-38 | After the switch the thread left behind is suspended with exactly the registers, stack pointer and return address its caller expects back. |
| `ContextSwitch.SavedLayout` | src/include/process.h:23-31 | The saved context in memory: r15, r14, r13, r12, rbp, rbx and the return address, upwards from the saved stack pointer. |
| `ContextSwitch.SwitchLeaves` | src/arch/x86_64/context_switch.asm:14-38 | A switch between two threads leaves every third one suspended with the same context. |
| `ContextSwitch.SwitchResumes` | src/arch/x86_64/context_switch.asm:24-38 | The thread switched to gets exactly the context it was suspended with. |
| `ContextSwitch.StaysSuspended` | src/arch/x86_64/context_switch.asm:14-38 | Through any run of work, switches and creations that neither resumes it nor gives its slot away, a thread stays suspended with the same context. |
| `ContextSwitch.ResumedAsSuspended` | src/arch/x86_64/context_switch.asm:14-38 | Over any interleaving of threads with disjoint stacks, others being created meanwhile, a resumed thread sees exactly the rbx, rbp, r12 to r15, rsp and return address of its own last suspension. |
| `ContextSwitch.CreateLeaves` | src/kernel/scheduler.c:61-79 | Creating a thread leaves every other one suspended with its context. |
| `ContextSwitch.CreateSuspends` | src/kernel/scheduler.c:61-79 | thread_create leaves the new thread suspended with its initial context. |
| `ContextSwitch.FirstRun` | src/arch/x86_64/context_switch.asm:45-62 | A thread created in a run first reaches the trampoline with its entry in r12, its argument in r13 and rsp aligned to 16 within its own stack, however long it waited and whatever was created meanwhile. |
| `Threads.LeavingWaits` | src/kernel/scheduler.c:137-147 | In the joined state of table and machine: a thread switched away from waits with what its call of context_switch is to return with. |
| `Threads.PreemptedWaits` | src/kernel/scheduler.c:137-147 | A thread preempted by a tick, or yielding, waits, ready, with what its call is to return with; a thread that went to sleep waits too. |
| `Threads.PreemptedResumes` | src/kernel/scheduler.c:88-194 | A thread that a tick or a yield takes the processor from gets it back within 63 more decisions and 315 more ticks, and goes on exactly where it was. |
| `Threads.CreatedWaits` | src/kernel/scheduler.c:33-86 | A created thread waits, ready, with its entry point and argument. |
| `Threads.TurnLeaves` | src/kernel/scheduler.c:88-194 | Any event: a waiting thread goes on waiting with its context, or gets the processor and finds exactly that. |
| `Threads.ReadyResumes` | src/kernel/scheduler.c:88-194 | A ready thread gets the processor back within 63 decisions and within 315 delivered ticks, and then finds exactly the registers, stack pointer and return address it was suspended with. |
| `Threads.RunParks` | src/kernel/scheduler.c:88-194 | Over every run, each thread that may be given the processor, slot 0 as the last resort included, has a saved context, so no switch lands on garbage. |
| `Paths.ComponentsJoin` | src/kernel/vfs.c:86-101 | The components of a path joined by a slash are those of its parts. |
| `Paths.SlashesCollapse` | src/kernel/vfs.c:86-101 | Repeated and trailing slashes make no difference. |
| `Paths.SplitComponents` | src/kernel/vfs.c:135-145 | A path's components are those of the part before its last slash, and the part after it if not empty. |
| `Paths.NextToken` | src/kernel/vfs.c:87-101 | Cutting one token at a slash or the end splits off one component, or none for an empty token. |
| `FsTree.AddKeepsTree` | src/kernel/vfs.c:108-119 | Adding a node last under a directory keeps the tree a tree. |
| `FsTree.WalkAfterAdd` | src/kernel/vfs.c:108-119 | What every path resolves to after an addition: as before if it resolved, the new node if it leads to the directory and then the name, nothing otherwise. |
| `FsTree.PathUnique` | src/kernel/vfs.c:74-106 | Every node has at most one path, and no cycle. |
| `FsTree.CreateExtends` | src/kernel/vfs.c:121-203 | Creating under a free name extends the map from paths to nodes by exactly one path. |
| `FsTree.AddKeepsNames` | src/kernel/vfs.c:156-161 | Under a name not yet taken, sibling names stay unique. |
| `Vfs.Vfs.constructor` | src/kernel/vfs.c:290-294 | Start-up: an empty root directory and no open descriptor. |
| `Vfs.Vfs.FindDir` | src/kernel/vfs.c:46-57 | The sibling walk finds the first child of the name, none for a file. |
| `Vfs.Vfs.LinkChild` | src/kernel/vfs.c:108-119 | At most one pointer in the tree changes: the parent's first child or the last child's sibling. |
| `Vfs.Vfs.AddChild` | src/kernel/vfs.c:108-119 | The pointer structure then represents the tree with the node added last. |
| `Vfs.Vfs.Lookup` | src/kernel/vfs.c:74-106 | The in-place tokenising loop is the walk over the non-empty components of the path cut at 255 characters. |
| `Vfs.Vfs.Mkdir` | src/kernel/vfs.c:121-165 | Returns the existing node or a new directory, last under the parent, named by the last component cut at 127; null exactly if the parent is no directory. |
| `Vfs.Vfs.CreateFile` | src/kernel/vfs.c:167-203 | Always adds a new file with the data given; null exactly if the parent is no directory. |
| `Vfs.Vfs.Open` | src/kernel/vfs.c:205-233 | The node found or created, the lowest free descriptor or -1, truncation and append offset; after truncation every open descriptor is still within its file exactly if none of that file's had moved. |
| `PathCalls.LookupFinds` | src/kernel/vfs.c:74-106 | Lookup of a parent path, a slash and a name finds the child of that name in what the parent path names; the root is its own path. |
| `PathCalls.OtherPaths` | src/kernel/vfs.c:75-80 | Every call fails on a relative path and changes nothing; a path of more than 255 characters is cut there. |
| `PathCalls.CreateReturnsIff` | src/kernel/vfs.c:167-203 | Creation under a parent path and a name returns a node exactly if the parent path names a directory: a new file, last in it, the name cut at 127 characters. |
| `PathCalls.MkdirReturnsIff` | src/kernel/vfs.c:121-165 | mkdir, with or without a trailing slash, returns a node exactly if the parent path names a directory: the child of that name, or a new directory. |
| `PathCalls.OpenReturnsIff` | src/kernel/vfs.c:205-215 | Open returns what lookup finds; with bit 2 of the flags it returns a node exactly if there is one or the parent path names a directory. |
| `PathCalls.ModeIs` | src/include/vfs.h:14-16 | Bit 2 of the flags creates, bit 3 truncates, bit 4 appends. |
| `PathCalls.OpenedDescriptor` | src/kernel/vfs.c:221-232 | The lowest descriptor not in use gets node, flags and an offset at the end of the file if bit 4 is set, else 0; all others stay; -1 exactly if all are in use. |
| `PathCalls.FirstWrite` | src/kernel/vfs.c:221-255 | The first write through a descriptor opened for appending adds to the end of the file, through any other it goes over the beginning. |
| `Vfs.Vfs.Read` | src/kernel/vfs.c:235-244 | Returns exactly the slice of the file at the offset and moves past it; -1 if not open; nothing else changes. |
| `Vfs.Vfs.Write` | src/kernel/vfs.c:246-255 | Within the file the data is spliced in at the offset; beyond its end the file and what the buffer held up to the offset come back before the data. The offset moves past it; no other file changes; offsets stay within files. |
| `Vfs.Vfs.Close` | src/kernel/vfs.c:257-262 | Releases just that descriptor; -1 if not open. |
| `VfsNode.Node.RamfsRead` | src/kernel/vfs.c:11-24 | The bytes from the offset up to the count or the end of file, and no other byte of the caller's buffer. |
| `VfsNode.Node.RamfsWrite` | src/kernel/vfs.c:26-44 | The file becomes the buffer with the data written over it, through growth of the buffer; size never exceeds capacity. |
| `Files.WriteChunks` | src/kernel/vfs.c:246-255 | Writing any chunks one after another through a descriptor leaves file and offset as one write of them all would. |
| `Files.ReadToEnd` | src/kernel/shell.c:176 | Reading into a buffer of any size through a descriptor until nothing comes yields exactly the rest of the file and changes none. |
| `Files.WrittenIsReadBack` | src/kernel/vfs.c:235-255 | What was written is read back from where it was written. |
| `Files.OneFileChanges` | src/kernel/vfs.c:246-255 | In the map from paths to bytes, new bytes for a node change the file at its path and no other. |
| `Files.OpenChangesOneFile` | src/kernel/vfs.c:205-233 | Open changes at most one entry of that map: an existing file is emptied exactly if truncation is asked for; a new one is empty, at the path with the name cut at 127, exactly if that name was free. |
| `Files.MkdirKeepsFiles` | src/kernel/vfs.c:121-165 | mkdir changes no entry of that map. |
| `Creation.CreatedFoundIff` | src/kernel/vfs.c:121-203 | A created node is found under its path exactly if the last name is not empty, has at most 127 characters, and was free. |
| `Creation.UniqueIff` | src/kernel/vfs.c:121-203 | Sibling names stay distinct exactly if the name, cut at 127 characters, was free. |
| `Creation.CreationKeepsPaths` | src/kernel/vfs.c:121-203 | No path that resolved before resolves to anything else afterwards. |
| `Creation.CreationAddsOnePath` | src/kernel/vfs.c:121-203 | Under a free name exactly one path is added: the parent's with the name cut at 127 characters. |
| `Creation.OpenCreates` | src/kernel/vfs.c:205-215 | When lookup fails and the parent is a directory, the last name is not empty and was free. |
| `Creation.OpenResolves` | src/kernel/vfs.c:205-233 | A node that open returned is what its path resolves to exactly if it existed before or its name has at most 127 characters. |
| `Creation.MkdirResolves` | src/kernel/vfs.c:121-165 | A directory that mkdir returned is what its path resolves to exactly if its last name, one trailing slash dropped, is neither empty nor longer than 127. |
| `Creation.LongNamesCollide` | src/kernel/vfs.c:64 | Two opens of one path with too long a last name create two files of one name: the concrete failure. |
| `Creation.RunKeepsPaths` | src/kernel/vfs.c:121-233 | Over every run of mkdir, open and direct creation the tree stays a tree, and a path that resolves once resolves to the same node ever after. |
| `Creation.RunKeepsNames` | src/kernel/vfs.c:121-233 | Over every run of mkdir and open with last names of at most 127 characters, sibling names stay distinct. |
| `Numerals.NumeralRoundTrip` | src/kernel/string.c:95-121 | The numeral has no leading zero and parses back to the value, in every base from 2 to 16. |
| `Numerals.NumeralUnique` | src/kernel/string.c:95-121 | It is the only such numeral. |
| `Numerals.DigitsAre` | src/kernel/string.c:100 | The digits are 0 to 9 and a to f. |
| `Numerals.DigitsFit` | src/kernel/string.c:102-110 | A 64-bit value has at most 64 digits, so the 65-byte scratch buffer never overflows. |
| `Numerals.NumeralFits` | src/kernel/string.c:191-217 | From base 8 on at most 22 digits, so the formatter's 32-byte buffers never overflow. |
| `Numerals.Utoa` | src/kernel/string.c:95-121 | Writes that numeral and a terminator, nothing for an unknown base, and no other byte. |
| `Numerals.Itoa` | src/kernel/string.c:123-131 | Writes the signed numeral in base 10 and the 64-bit unsigned one in other bases. |
| `Format.EmittedShown` | src/kernel/string.c:147-229 | Printing a piece as far as there is room continues the prefix of the whole expansion. |
| `Format.EmitPadded` | src/kernel/string.c:151-182 | A zero-padded conversion prints the zeros missing to the width, then the number, as far as there is room. |
| `Format.EmitNext` | src/kernel/string.c:147-229 | One turn of the loop consumes one conversion or character and prints its part of the expansion. |
| `Format.Ksnprintf` | src/kernel/string.c:139-234 | With a buffer of n bytes, exactly the first n - 1 characters of the unbounded expansion and a terminator are written, nothing beyond; the count written is returned. |
| `Conversions.NumberConversion` | src/kernel/string.c:191-217 | The expansion of %u and %x is the numeral that reads back as the word in base 10 and 16; that of %d reads back as the signed value, with a minus sign exactly if it is negative. |
| `Conversions.ItoaReads` | src/kernel/string.c:123-131 | itoa writes the sign and the value in base 10, the 64-bit word in other bases. |
| `Conversions.StringConversion` | src/kernel/string.c:183-190 | The expansion of %s is the string, or (null). |
| `Conversions.OtherConversion` | src/kernel/string.c:218-224 | %% is one per cent sign; an unknown letter is itself after its sign. |
| `Conversions.PaddedConversion` | src/kernel/string.c:151-182 | With %0 and a width the plain text comes out with zeros before it up to that length, never cut. |
| `Conversions.ExpandJoin` | src/kernel/string.c:147-229 | The expansion of two formats in a row is that of the first and that of the second on the arguments left, so the conversions determine every format. |
| `Copying.Memmove` | src/kernel/string.c:20-33 | The destination ends up with what the source held before, overlapping or not, and nothing else changes. |

## Left out

- HeapBlocks.BlockList.Kfree: double frees, foreign pointers and corrupted headers; `kfree` and `krealloc` take
  pointers in use, and the branches on a wrong magic number are then never taken.
- KernelHeap.KernelHeap.Kfree: likewise. A program's own stores stay inside its payload
  (`HeapBlocks.BlockList.Store`).
- KernelHeap.KernelHeap.Kmalloc: sizes within 8 KiB of 2^64, whose rounding wraps, are excluded, and so is a
  heap reaching the end of the address space. No large page stands in the heap's region.
- Paging.AlignUp: wrap-around of the macro at 2^64; its callers stay below it.
- KernelHeap.KernelHeap.HeapExpand: the page fault of an unmapped header store is an outcome, not a handler;
  nothing is claimed about the heap after it.
- KernelHeap.KernelHeap.Krealloc: `kcalloc` and `heap_init`, which only call the modelled operations, are not
  members of their own.
- Vmm.Vmm.MapPage: TLB invalidation, CR3 loads and the direct map of physical memory are not part of the
  model: a table is named by its frame, and a word never stored reads as zero. A large page that leads
  to a table above the lowest level breaks the tree; what every address away from that word sees is
  stated, what the others see is not.
- Page-table words are natural numbers with bitwise operations defined on them; they are never
  cut at 64 bits because no operation of the mapper can carry past a word.
- Pmm.Pmm.Init: the memory map is assumed aligned and disjoint, as the boot protocol promises, and short
  enough for 64-bit sums; a missing map behaves as an empty one. Maps whose bitmap does not cover all
  frames are excluded, because marking would store beyond the bitmap.
- Pmm.Pmm.MarkUsable: the same assumption; an overlap would count frames twice.
- Scheduler.Scheduler.Schedule: the wait of the only thread is ticks advancing to its deadline. Timer
  interrupts nested inside it, their order against the end-of-interrupt signal, and a wait that
  never ends are not modelled; ticks are counted as delivered, not as wall time.
- Scheduler.Scheduler.ThreadCreate: the stack address is a parameter, 0 for a failed allocation; names, and
  calls before initialisation, are not modelled. The saved stack pointer of a thread is a word of
  machine memory (`ContextSwitch.Cpu.PrepareStack`), not a field of the table.
- ContextSwitch.Cpu.Trampoline: what follows the thread function's return, and the interrupt flag.
- Threads.ReadyResumes: the running thread keeps its stores out of other threads' stacks and saved stack
  pointers, and has room for the six registers when it calls; stacks come from the heap 16-byte
  aligned and disjoint. Interrupt entry is part of the work before a turn.
- Machine memory is 8-byte words at multiples of 8.
- Vfs.Vfs.Write: offsets and sizes below 2^62, so that doubling the capacity does not wrap; allocation of
  nodes and buffers is taken to succeed, since `kmalloc` never returns null for a non-zero size.
- VfsNode.Node.RamfsWrite: the same bound.
- Vfs.Vfs.Read: the caller's buffer is not the descriptor table.
- Vfs.Vfs.Mkdir: the 256-byte copy of the path is a value there and in `vfs_create_file`; `vfs_lookup`
  tokenises its copy in place.
- Vfs.Vfs.CreateFile: buffer bytes that the source leaves uninitialised are arbitrary.
- Vfs.Vfs.constructor: the directories and files that `vfs_init` creates next are calls of the modelled
  operations; `vfs_list_dir` only prints.
- Format.Ksnprintf: formats that end inside a zero-padded conversion, pad widths of 2^31 or more, and
  arguments of the wrong kind are excluded (`Format.Complete`).
- Numerals.Itoa: negating the least 64-bit integer wraps, as it does on the machine.
- Devices, interrupts and their tables, system calls, the framebuffer, the desktop and the shell:
  hardware plumbing and user interface.
