# Verified model of the memory manager and the image builders

This project models, in Dafny, the parts of the REIST system whose correctness rests on
invariants that no single function shows: the kernel memory manager, the disk image builders,
and three small algorithms of the build and qualification tools. Every contract is proved.
Verify the whole project with `dafny verify dfyconfig.toml`.

## What is modelled

**Kernel memory manager** (`mm/kmalloc.c`). Three layers, each a class that mutates its fields as the C code does.

- `Regions` - the normalised table of physical memory regions, an array that insertions and deletions shift in place.
- `Bitmap`, `FrameSpec`, `Frames` - the page-frame allocator: two packed byte bitmaps, a next-fit hint, five counters.
  The abstraction `FrameState` gives every frame one of four kinds.
- `Blocks`, `Canonical`, `HeapSpec`, `HeapLemmas`, `Heap` - the heap. Headers live inside the memory they manage: `mem`
  is an array of 16-byte granules, a block header is one granule, and the address-ordered list is threaded through it.
  A ghost sequence of blocks is tied to the headers by `Linked`.
- `Boot` - the placement of bitmaps and first heap, and the frames left free.
- `Runs`, `Guarantees` - every lock-protected body is one atomic step; runs are sequences of such steps by any callers,
  including frame calls and client writes to their own payloads. `k_realloc`'s move path is three steps with
  other owners' steps in between. `Perform` runs one step on the heap object.
- `FrameLaws`, `HeapLaws` - what the calls return, said of frames, addresses and live blocks alone: which frame comes next as
  a function of the calls before, which gap between live blocks an allocation takes, when a block grows where it is.
- `HostMachine` - one machine from its empty memory map through boot to an allocation that fails.

**Disk images.**

- `FatNames`, `FatListing`, `FatTree`, `FatWalk` - 8.3 names, numbered aliases, and the in-memory tree built path by path out
  of mutable directory objects. `FatListing` says what a directory lists as a function of the order in which names are
  asked for in it; it fixes every short name and every full directory from the input alone. `FatAliases` and `FatPaths`
  say which characters make up an alias, an own 8.3 name and an accepted path, without the functions that compute them.
- `Fat12`, `FloppyReader`, `FloppyTree`, `FloppyVolume`, `Floppy`, `FloppySource`, `FloppyRoom`, `FloppyShown`, `FloppyBuilder` -
  the floppy builder, and a reader that knows only the image: it takes the geometry from the parameter block, follows
  decoded FAT chains and directory entries (Microsoft fatgen103, section "FAT Data Structure"). `FloppyRoom` counts the
  clusters an input takes before anything is built; `FloppyShown` is what a listing shows, capitals and dot entries
  included; `FloppyBuilder` is the whole way from files to image.
- `Ext2Format`, `Ext2Checker`, `Ext2Layout`, `Ext2Writer` - the EXT2 writer and its independently written checker.
- `Fat32Geometry` - the fixpoint iteration that sizes the FAT.

**Three algorithms.**

- `ProgramImage` - conversion of an ELF32 program (System V gABI, chapter 5, "Program Header") to the flat MYPR image, the
  kernel's validation of it, and its loader. `ProgramLaws` says which files are accepted and what the memory then holds
  in the numbers of the program-header table alone.
- `PathBound` - the dynamic program for the UTF-8 path bound; `Utf8` is the encoding it is measured in (RFC 3629, section 3).
- `TraceRing` - the debugger-side reader of the 256-slot trace ring.

`Machine`, `Numbers` and `Bytes` hold machine words, number runs, byte strings and little-endian packing.

## What the proofs found

- The contiguous search `reserve_contiguous_frames` looks above the hint and below the hint, never across it. It therefore
  fails although a long enough free run exists, exactly when every such run straddles the hint (`PinFailsExactly`). This is
  reachable from every boot with one free run that alone is long enough for the request: `allocate_frame_at_or_above` of a
  frame near its middle followed by `free_frame` of the result, the two calls the boot self-test makes with another address,
  leaves the hint inside the run, and `k_malloc` then fails with the whole run free (`FreeRunMissed`), while right after
  boot the same request succeeds (`LargeGranted`). `HostMachine.RunFails` is a whole run that ends so, from an empty memory
  map on: a machine with the 128 MiB and the stack end 0x3400000 of `test/test_kernel_memory_layout_host.c` and the three
  ranges that `kernel/init/kernel.c` always reserves; the frame at 92 MiB, and a request of 40 MiB that asks for 10241 frames
  and fails with 19198 contiguous frames free (`Granted`: right after boot it is met). The same condition appears in the
  exact failure conditions of `k_malloc`.
- `fat32_geometry` does not converge for every medium: when (total - 30) mod 130 is 1 or 2 it enters a pair of sizes
  within 14 rounds, alternates between them for ever (`TwoCycle`) and gives up after 32; for all other sizes it converges.
- Several defensive branches are dead, and the models prove it where the C code tests it: the saturating sum of region
  lengths, the `count != 0` guards, the saturation of the usage counter, the overflow tests on block ends, the corruption branch of
  `k_malloc`, the incomplete-drain error of the trace reader, the duplicate-path error and the alias exhaustion of
  the tree builder.
- `ALIGN_DOWN` with a 32-bit alignment, as applied to the 64-bit start of a reservation, also clears the upper half of the
  word: it aligns a value exactly when the value is below 2^32 (`NarrowMask`, `NarrowAligns`). `ClipToReserved` proves that it
  is, because the branch is taken only for starts below an end that was cut to 32 bits.

## Modelling decisions

- Locks and interrupt flags disappear: a locked body is one method. Words are integers with their range in `Valid`;
  wrap-around tests of the source are written out.
- The identity limit is the source's 1 GiB (`arch/x86/mm/paging.h`); the end of the kernel stack is any address
  `config/klink.ld` allows: from 0x103000, an empty kernel at 1 MiB with its guard page and stack behind it, to 64 MiB.
- A `NULL` bitmap pointer is a frame count of 0. The bitmaps are arrays of their own instead of memory
  inside the mapped range. This is justified by a theorem about that memory: in no run from boot does any step of the heap
  or of its clients write below the first heap, where the kernel and both bitmaps lie (`BootMetadataKept`).
- Payload contents are words inside granules; clients write only inside their own live payload.
- Object identity in the image builders: the tree is built from objects, then flattened to positions in walk
  order; `FloppySource` proves that the flattened tree is the one the floppy builder needs, and under which names.
- The loop of the floppy builder over the files of all directories, and its two clusters fields, are the
  `Layout` value. Bit masks on bytes are written as arithmetic in `Fat12` and `Ext2Writer`, and as tables in `Bitmap`.
- The EXT2 bitmap marks occupied blocks in ascending order; the source iterates over a set, in any order.
- The checker of the EXT2 media stops after seven directory records; the model compares the complete parse, which
  gives the same answer.
- Names are compared as they are, because every accepted name is lower-case ASCII.
- SHA-256, CRC-32, signatures and the kernel ELF check are opaque: manifest, journal and remap sectors are parameters, and
  the kernel check is a flag.

## Model

| member | source | states |
|---|---|---|
| Regions.NormalForm | mm/kmalloc.c:164-195 | a sorted, disjoint, non-touching table is determined by the bytes it represents |
| Regions.IntervalInOneRegion | mm/kmalloc.c:221-241 | in a normalised table an interval is inside the union iff it is inside one entry |
| Regions.TotalLengthCountsBytes | mm/kmalloc.c:197-207 | the summed lengths are the number of distinct bytes, at most 2^64 - 1 |
| Regions.AbsorbStep | mm/kmalloc.c:174-187 | deleting a touching entry and widening the new range keeps the union of bytes |
| Regions.InsertNormalized | mm/kmalloc.c:188-194 | inserting the hull at its place restores order, disjointness and gaps |
| Regions.RegionTable.Absorb | mm/kmalloc.c:171-187 | one pass removes every entry that touches the range and returns the hull of all of them |
| Regions.RegionTable.Add | mm/kmalloc.c:164-195 | refuses exactly an empty range (also one that starts at the very top of the address space) and a range that touches no entry of a full table of 64, leaving the table alone; otherwise the bytes are the old ones and those from base up to base + length, below 2^64 - 1 |
| Regions.RegionTable.IsUsable | mm/kmalloc.c:221-241 | true exactly when the nonempty range lies in the usable union and meets no reservation |
| Regions.RegionTable.Total | mm/kmalloc.c:197-207 | the total is the exact byte count of the union; the saturation never happens |
| Bitmap.SetOneBit | mm/kmalloc.c:247-251 | the mask sets this frame's bit and no other |
| Bitmap.ClearOneBit | mm/kmalloc.c:253-257 | the mask clears this frame's bit and no other |
| Bitmap.SetBit | mm/kmalloc.c:247-251 | in the whole byte array exactly the bit of this frame becomes 1 |
| Bitmap.ClearBit | mm/kmalloc.c:253-257 | in the whole byte array exactly the bit of this frame becomes 0 |
| FrameSpec.CountPartition | mm/kmalloc.c:865-903 | free, allocated, reserved and unmanaged frames partition the table, so free + allocated + reserved = managed |
| FrameSpec.CountMarked | mm/kmalloc.c:577-593 | marking a run of one kind moves exactly its length from that count to the other |
| FrameSpec.CountUpdate | mm/kmalloc.c:558-575 | changing one frame's kind changes exactly two counts by one |
| Frames.FrameAllocator.FindNextFit | mm/kmalloc.c:511-532 | finds the first free frame from the hint to the top, else from the minimum to the hint; fails only if no frame from the minimum on is free |
| Frames.FrameAllocator.AllocateFrom | mm/kmalloc.c:482-544 | whole new state of one allocation for any hint: which frame, counters, hint, peak, failure count; the user reserve rule; nothing missed (the frame and the hint also without a hint: `FrameLaws`) |
| Frames.FrameAllocator.Allocate | mm/kmalloc.c:546-548 | kernel allocation is the step with minimum one frame |
| Frames.FrameAllocator.AllocateUser | mm/kmalloc.c:550-552 | user allocation is the step with the reserve rule |
| Frames.FrameAllocator.AllocateAtOrAbove | mm/kmalloc.c:554-556 | allocation at or above an address is the step with that minimum and without the reserve rule, and never returns less |
| Frames.FrameAllocator.SearchFrom | mm/kmalloc.c:507-543 | from a least frame number on: takes the next free frame for any hint, and fails, counting it, only if none is left |
| Frames.FrameAllocator.FreeFrame | mm/kmalloc.c:558-575 | releases exactly allocated frames; unaligned, out-of-range, free and reserved addresses change nothing; the guard never hides an underflow |
| Frames.FrameAllocator.FindRun | mm/kmalloc.c:577-593 | the first run of free frames lying wholly in the window, or none there |
| Frames.FrameAllocator.FindWindow | mm/kmalloc.c:605-612 | the first run in [start, frame_count), else the first in [1, start), failing only if neither window holds one |
| Frames.FrameAllocator.ReserveContiguous | mm/kmalloc.c:595-630 | whole new state of pinning a run: frames become reserved in both bitmaps, counters and hint move, failure is counted |
| Frames.FrameAllocator.ReserveRange | mm/kmalloc.c:286-314 | every managed frame that meets the range becomes reserved, whatever it was; no other frame changes |
| Frames.FrameAllocator.ReleaseUsable | mm/kmalloc.c:411-434 | at boot a frame becomes free exactly when its bytes lie wholly in one usable region |
| Frames.TakenSizes | mm/kmalloc.c:520-524 | one frame moves from the free to the allocated count |
| Frames.PinnedSizes | mm/kmalloc.c:613-619 | a pinned run moves from the free to the reserved count |
| FrameLaws.FrameGrantedExactly | mm/kmalloc.c:482-543 | a frame call succeeds exactly when both allocators are open, a user leaves a sixteenth of the managed frames free, and a frame at or above the address is free |
| FrameLaws.FrameGranted | mm/kmalloc.c:515-532 | the frame was free and becomes allocated, nothing else changes kind; the peak is the greatest number of allocated frames so far |
| FrameLaws.FrameRefused | mm/kmalloc.c:482-543 | a refused call changes the failure counter at most |
| FrameLaws.FrameReleased | mm/kmalloc.c:558-575 | exactly the page address of an allocated frame makes that frame free |
| FrameLaws.TwoAllocations | mm/kmalloc.c:511-532 | no frame between two consecutive answers is free; when the second is lower, no frame above the first is free and the second is the lowest free one |
| FrameLaws.PinMarks | mm/kmalloc.c:595-630 | a pinned run lies in the table, was free and is reserved; no other frame changes |
| FrameLaws.PinRefused | mm/kmalloc.c:595-630 | a refused pin changes the failure counter only, and counts when that many frames exist at all |
| FrameLaws.PinTakesTurn | mm/kmalloc.c:577-630 | it is the first free run from where the search resumes, else the lowest one, which ends before that place; the search resumes behind it |
| FrameLaws.AllocationAfterPin | mm/kmalloc.c:511-630 | after a pin the first free frame behind the run comes next, or the lowest if there is none |
| FrameLaws.ReleasedComesNext | mm/kmalloc.c:511-575 | a frame released at or below the last one handed out comes next; one above it leaves the turn alone |
| FrameLaws.RunPosition | mm/kmalloc.c:482-863 | over every run the place where the search resumes follows from the calls and their answers alone |
| FrameLaws.NextFrameOfRun | mm/kmalloc.c:482-544 | after every run from boot the next frame handed out is the first free one from that place on, else the lowest allowed one |
| FrameLaws.NextArenaOfRun | mm/kmalloc.c:595-693 | and a new arena is the first free run of its length from that place on, else the lowest one below it |
| Blocks.SpliceEffect | mm/kmalloc.c:658-693 | what replacing a stretch of the block list does to coverage, sums and live blocks |
| Blocks.TakeEffect | mm/kmalloc.c:759-766 | allocation keeps order and coalescing, covers the same memory, and adds exactly one live block |
| Blocks.ReleaseEffect | mm/kmalloc.c:796-815 | release keeps order, restores coalescing on both sides, covers the same memory, and removes exactly one live block |
| Blocks.GrowEffect | mm/kmalloc.c:843-852 | growing in place keeps order and coalescing and replaces one live block by a larger one at the same address |
| Blocks.AdoptEffect | mm/kmalloc.c:671-693 | a new arena is added and merged; live blocks stay the same |
| Canonical.CanonicalForm | mm/kmalloc.c:658-693 | two coalesced lists over the same memory with the same live blocks are equal: no history can be read off the list |
| Canonical.ReleaseUndoesTake | mm/kmalloc.c:732-817 | releasing what an allocation returned restores the list exactly |
| Canonical.ReleaseOrderIrrelevant | mm/kmalloc.c:778-817 | releasing the same blocks in any two orders gives the same list |
| HeapLemmas.ReleaseConfined | mm/kmalloc.c:796-815 | the writes of a release stay inside the arenas |
| HeapLemmas.GrowConfined | mm/kmalloc.c:843-852 | the writes of growing in place stay inside the arenas |
| HeapLemmas.AdoptConfined | mm/kmalloc.c:671-718 | the writes that link a new arena stay inside the old arenas and the new one |
| HeapLemmas.TakeInv | mm/kmalloc.c:759-766 | allocation keeps the heap invariant, the summed mass, and every live payload |
| HeapLemmas.ReleaseInv | mm/kmalloc.c:796-815 | release keeps the heap invariant and every other live payload |
| HeapLemmas.GrowInv | mm/kmalloc.c:843-852 | growing in place keeps the heap invariant and all live payloads |
| HeapLemmas.ExtendedTiles | mm/kmalloc.c:698-718 | after growth the list tiles exactly the union of all arenas, the new one included |
| HeapLemmas.AdoptInv | mm/kmalloc.c:698-718 | growth keeps the invariant and every live payload, whatever neighbours the arena merges with |
| HeapLemmas.GrowthSuffices | mm/kmalloc.c:751-769 | after a successful growth the second scan always finds a block, so its failure branch is dead |
| HeapLemmas.LivePayloadsApart | mm/kmalloc.c:732-776 | two blocks of the list share no granule |
| HeapLemmas.PayloadWritesKeepLinks | mm/kmalloc.c:652-656 | writes inside a live payload leave every header alone |
| HeapLemmas.PayloadWritesKeepOthers | mm/kmalloc.c:652-656 | writes inside one live payload change no other |
| HeapLemmas.AllocateInv | mm/kmalloc.c:482-544 | frame allocation keeps every frame of the heap reserved |
| HeapLemmas.ReleaseInvFrames | mm/kmalloc.c:558-575 | frame release keeps every frame of the heap reserved |
| Heap.SplitLinked | mm/kmalloc.c:658-669 | after a split the headers are linked as the new list says |
| Heap.MergeLinked | mm/kmalloc.c:682-693 | after a merge the headers are linked as the new list says |
| Heap.InsertLinked | mm/kmalloc.c:671-681 | after an insertion the headers are linked as the new list says |
| Heap.KernelHeap.AreAdjacent | mm/kmalloc.c:648-656 | true exactly when the block ends where the other begins; the overflow tests never fire |
| Heap.KernelHeap.SplitBlock | mm/kmalloc.c:658-669 | the list is the split one, and only the two headers changed |
| Heap.KernelHeap.InsertBlock | mm/kmalloc.c:671-693 | the new block is linked in address order and merged with free neighbours; only two headers changed |
| Heap.KernelHeap.Extend | mm/kmalloc.c:698-718 | one growth: pinned frames, new arena, list, counters, or an untouched heap and a counted frame failure |
| Heap.KernelHeap.FindFit | mm/kmalloc.c:752-759 | the free block of lowest address that is large enough, or none |
| Heap.KernelHeap.FindBlock | mm/kmalloc.c:720-730 | finds the block of the list, free or live, whose payload starts at the pointer, and none if there is no such block |
| Heap.KernelHeap.UsageAdded | mm/kmalloc.c:632-639 | adds, saturating at the top of a word, and lifts the high-water mark |
| Heap.KernelHeap.UsageRemoved | mm/kmalloc.c:641-646 | subtracts, stopping at zero |
| Heap.KernelHeap.TakeBlock | mm/kmalloc.c:759-766 | splits, marks and accounts for one block; the usage counter is the sum of live sizes again, so its saturation never happens |
| Heap.KernelHeap.ReleaseBlock | mm/kmalloc.c:796-815 | marks, accounts for and merges one block; the usage counter is the sum of live sizes again, so its clamping never happens |
| Heap.KernelHeap.KMalloc | mm/kmalloc.c:732-776 | one allocation step on memory, list, arenas, frames and counters: lowest-address first fit, at most one growth |
| Heap.KernelHeap.KFree | mm/kmalloc.c:778-817 | releases exactly live payload addresses, all other pointers change nothing; the list stays coalesced |
| Heap.KernelHeap.ReallocLocked | mm/kmalloc.c:831-854 | the locked part: no such block, large enough, grown in place, or to be moved, with the state unchanged in all but one case (which case, in addresses: `HeapLaws.LockedExactly`) |
| HeapLaws.LockedExactly | mm/kmalloc.c:831-854 | it stays, grows into the free block at its end exactly when that reaches far enough, or has to move |
| Heap.KernelHeap.KRealloc | mm/kmalloc.c:819-863 | whole reallocation without interference: null pointer, size zero, overflow, stay, grow, move, failure (which of them, in addresses: `HeapLaws.ReallocExactly`) |
| Heap.KernelHeap.HeapStats | mm/kmalloc.c:865-903 | the recount never changes the usage counter; capacity = used + free + headers; largest free block, arenas, peak and failures |
| HeapLaws.FreeBlockIsGap | mm/kmalloc.c:632-696 | every free block is a whole gap: heap memory of no live block, with none on either side |
| HeapLaws.GapIsFreeBlock | mm/kmalloc.c:632-696 | every gap is one free block, so the list is what the arenas and the live blocks leave over |
| HeapLaws.MallocRefused | mm/kmalloc.c:698-776 | k_malloc fails exactly before boot, for 0 or more than 2^32 - 16 bytes, or when no gap holds header and request and every free run of the frames a new arena takes straddles the hint (or its bytes do not fit a word) |
| HeapLaws.MallocTakes | mm/kmalloc.c:698-776 | it returns the lowest gap that holds header and request, of the heap as it is or else with one new arena of the fewest frames that hold 256 KiB and the request; what is left is cut off if it holds a header and a granule |
| HeapLaws.RefusedChangesNothing | mm/kmalloc.c:698-776 | a refused call changes failure counters only, and counts once |
| HeapLaws.FreeExactly | mm/kmalloc.c:778-817 | k_free ends exactly the live block whose payload begins at the address |
| HeapLaws.ReallocExactly | mm/kmalloc.c:819-863 | a block that is large enough stays; a larger request stays in place exactly when a free block begins at the block's end and, its header included, reaches far enough; otherwise it fails exactly when the heap is exhausted, and else moves |
| HeapLaws.ReallocStays | mm/kmalloc.c:843-852 | in place, the two blocks become one and the rest is cut off again; no other live block changes |
| HeapLaws.ReallocMoves | mm/kmalloc.c:855-863 | moving ends the old block and takes the lowest gap that holds the request |
| HeapLaws.ReallocElsewhere | mm/kmalloc.c:831-842 | a pointer that is no live payload address is refused, and nothing changes |
| HeapLaws.ReallocEdges | mm/kmalloc.c:819-830 | a null pointer allocates, a size of 0 releases, an overflowing size is refused |
| Boot.LayoutUnique | mm/kmalloc.c:386-396 | the layout of bitmaps and heap start is determined by stack end and frame count |
| Machine.NarrowMask | mm/kmalloc.c:28 | the 32-bit mask keeps bits 4 to 31 of a 64-bit word, and is the wide mask exactly on words below 2^32 |
| Machine.NarrowAligns | mm/kmalloc.c:357-358 | the value it gives is the aligned one exactly below 2^32 |
| Boot.FindHeapRegion | mm/kmalloc.c:337-366 | finds how far usable, unreserved memory reaches from the metadata; nothing is found only if it cannot get past the metadata |
| Boot.FrameRange | mm/kmalloc.c:316-335 | a frame is wholly usable and meets no reservation iff its byte range is usable |
| Boot.HeapEndIsGreatest | mm/kmalloc.c:436-451 | the heap end chosen is the greatest possible one, and enough exactly when some end is |
| Boot.BootKindsFree | mm/kmalloc.c:411-457 | after boot a frame is free iff it is usable, unreserved and at or above the heap limit; none is allocated, and managed are exactly the frames wholly in usable memory |
| Boot.FirstArena | mm/kmalloc.c:459-466 | the first arena is one free block over reserved frames |
| Boot.Initialize | mm/kmalloc.c:368-480 | succeeds exactly when bitmaps and a page-ended heap of more than two granules fit in usable, unreserved memory; then both allocators are valid, the managed frames are exactly the usable ones, and the free frames are exactly those that are unreserved and above the limit |
| Runs.Perform | mm/kmalloc.c:482-863 | every call of the frame allocator and the heap, and every client write to its own live payload, leaves the heap valid and is a step of the runs below |
| Runs.StepSecures | mm/kmalloc.c:482-863 | no step of any operation unreserves a frame, shrinks the arenas, or hands out a reserved frame |
| Runs.SecuredForever | mm/kmalloc.c:482-863 | over every run a frame that is reserved or unmanaged once is never handed out and never released |
| Runs.FrameOutsideHeap | mm/kmalloc.c:482-544 | no granule of a frame handed out belongs to an arena |
| Runs.BootMemorySafe | mm/kmalloc.c:368-556 | over every run from boot, every frame handed out is usable, unreserved and above kernel, bitmaps and first heap |
| Runs.StepSparesBlock | mm/kmalloc.c:732-863 | no step of another owner removes a live block or changes a byte of its payload |
| Runs.RunSparesBlock | mm/kmalloc.c:732-863 | the same over whole runs |
| Runs.StepConfined | mm/kmalloc.c:658-863 | no step of the heap or of its clients changes memory outside the arenas; a new arena is made of frames that were free |
| Runs.RunConfined | mm/kmalloc.c:658-863 | over every run, memory that is in no arena at the end was never written |
| Runs.SecuredStaysOutside | mm/kmalloc.c:595-718 | over every run, reserved memory outside the heap never becomes part of it |
| Runs.BootMetadataKept | mm/kmalloc.c:386-466 | in no run from boot does any step write below the first heap, where the kernel and both bitmaps lie |
| Runs.MoveKeepsBytes | mm/kmalloc.c:854-863 | the move path of a reallocation keeps all old bytes, with any steps of other owners between allocation, copy and release |
| Guarantees.WindowsMissStraddlingRuns | mm/kmalloc.c:595-612 | the search fails iff every free run of that length straddles the hint |
| Guarantees.FreeRunMissed | mm/kmalloc.c:595-612 | after any boot with a free run that alone is long enough, allocating and releasing a frame near its middle makes k_malloc fail although the whole run is free |
| Guarantees.LargeGranted | mm/kmalloc.c:698-776 | right after boot a request of a megabyte or more is met whenever some free run has the frames it asks for |
| Guarantees.ReleaseMovesHint | mm/kmalloc.c:511-573 | taking a frame behind the hint and giving it back leaves the hint on it and every frame as it was |
| Guarantees.ReleaseHidesRun | mm/kmalloc.c:511-612 | doing so in the middle of a free run hides the run from every request longer than both halves, if no other run is long enough |
| Guarantees.PinFailsExactly | mm/kmalloc.c:595-630 | pinning fails exactly when the allocator is not ready, nothing is asked for, or every free run of that length straddles the hint; the tests on table size and free count refuse nothing else |
| Guarantees.MallocFailsExactly | mm/kmalloc.c:732-776 | k_malloc fails iff the allocator is not ready, the request is 0 or overflows, or nothing fits and growth is impossible |
| Guarantees.HeapDetermined | mm/kmalloc.c:632-863 | same arenas and same live blocks give the same list and the same usage |
| Guarantees.FreeUndoesMalloc | mm/kmalloc.c:732-817 | k_free(k_malloc(n)) restores the list and the usage when no arena was added, and keeps every other payload |
| Guarantees.RunsConverge | mm/kmalloc.c:732-863 | two runs from one heap that end with the same arenas and live blocks end with the same list |
| Guarantees.LivePayloadsIsolated | mm/kmalloc.c:732-776 | live payloads are 16-aligned, inside arenas and pairwise disjoint |
| Guarantees.ResizeInPlaceKeepsBytes | mm/kmalloc.c:831-853 | staying and growing in place keep address and bytes |
| Guarantees.FailedReallocKeepsBytes | mm/kmalloc.c:819-863 | a failed reallocation leaves the old block and its bytes |
| Guarantees.ReallocKeepsBytes | mm/kmalloc.c:819-863 | a successful reallocation returns a live block, large enough, with every old byte, on every path |
| Guarantees.FrameCallConserves | mm/kmalloc.c:482-544 | a frame call keeps the managed count and the partition, and takes exactly one free frame iff it succeeds; user calls only above the reserve |
| Guarantees.FreeCallConserves | mm/kmalloc.c:558-575 | a release moves exactly one frame from the allocated to the free count, iff the address is the page address of an allocated frame; managed and reserved counts stay |
| Guarantees.UserRunsKeepReserve | mm/kmalloc.c:490-494 | runs in which only user processes allocate never push the free frames below a sixteenth of the managed ones |
| Guarantees.FrameExclusive | mm/kmalloc.c:482-575 | a frame is given to nobody else until its owner releases it |
| Guarantees.FrameContentsKept | mm/kmalloc.c:482-863 | until then no step of the heap or of its clients changes a byte of the frame |
| HostMachine.BootPossible | mm/kmalloc.c:368-466 | with 128 MiB, the stack end of the host test and the ranges the kernel always reserves, the layout is the one computed and a heap of 1 MiB fits |
| HostMachine.FreeAfterBoot | mm/kmalloc.c:405-457 | after that boot exactly the frames from the heap end to 128 MiB are free |
| HostMachine.RegisterReserved | kernel/init/kernel.c:779-789 | the three registrations leave exactly that normalised table |
| HostMachine.BootMachine | kernel/init/kernel.c:779-792 | registering memory and reservations and initialising gives the booted state of this machine |
| HostMachine.Granted | mm/kmalloc.c:698-776 | on this machine k_malloc of 40 MiB is met right after boot |
| HostMachine.Missed | mm/kmalloc.c:595-612 | after the frame at 92 MiB was allocated and released, k_malloc of 40 MiB fails with 19198 contiguous frames free and 10241 asked for |
| HostMachine.RunFails | mm/kmalloc.c:595-612 | the run of the methods themselves, from an empty memory map through boot and those two frame calls, ends in that failure |
| Fat32Geometry.RoundContracts | scripts/create_native_boot_image.py:237-240 | one round divides the distance to the solution by about 64 |
| Fat32Geometry.FixedExactly | scripts/create_native_boot_image.py:237-243 | a size is a fixpoint exactly when its distance lies in [0, 127] |
| Fat32Geometry.NarrowBand | scripts/create_native_boot_image.py:237-243 | near the solution a size is stable exactly when the medium is not one of the two oscillating residues |
| Fat32Geometry.TwoCycle | scripts/create_native_boot_image.py:237-244 | for the residues 1 and 2 of (total - 30) mod 130 the iteration from 1 is, from round 14 on, at one of two neighbouring sizes and moves to the other in each round |
| Fat32Geometry.SettlesUnlessBad | scripts/create_native_boot_image.py:237-245 | after 14 rounds the size is its own requirement iff the residue is neither 1 nor 2 |
| Fat32Geometry.GeometryUnique | scripts/create_native_boot_image.py:231-245 | the FAT size f with 128(f-1) < clusters+2 <= 128f is unique |
| Fat32Geometry.ComputeGeometry | scripts/create_native_boot_image.py:231-245 | from 35 to 2^64 sectors it returns within 32 rounds iff the residue is neither 1 nor 2, and then returns that unique size |
| PathBound.LastScalarBound | scripts/generate_unicode_tables.py:52-58 | no text beats the best last scalar behind the best rest |
| PathBound.GreatestCandidate | scripts/generate_unicode_tables.py:52-58 | the greatest candidate is the optimum for that capacity |
| Utf8.EncodeReads | scripts/generate_unicode_tables.py:50-51 | the encoding of a scalar is one well-formed sequence whose payload bits are the scalar |
| Utf8.EncodeShortest | scripts/generate_unicode_tables.py:50-51 | every sequence that reads as the scalar is at least as long, and no other is as short |
| Utf8.PrefixFree | scripts/generate_unicode_tables.py:50-51 | no encoding begins another |
| Utf8.TextsDiffer | scripts/generate_unicode_tables.py:50-51 | different texts have different encodings |
| PathBound.TotalWidthIsLength | scripts/generate_unicode_tables.py:50-51 | the width of a text is the length of its encoding |
| PathBound.OptimumOfPaths | scripts/generate_unicode_tables.py:47-58 | an optimum over widths is the optimum over encoded paths of that many octets |
| PathBound.DerivePathBound | scripts/generate_unicode_tables.py:47-58 | the derived bound is the greatest total measure of a path whose encoding has at most 255 octets: none has more, and one has it |
| ProgramImage.OrderIrrelevant | scripts/build_user_program.py:276-285 | segments that lie apart give the same memory in every loading order |
| ProgramImage.ReadSegments | scripts/build_user_program.py:245-271 | accepts exactly well-formed PT_LOAD entries, in order, with tight ends and the file-backed entry test |
| ProgramImage.Place | scripts/build_user_program.py:276-285 | fails exactly for overlapping segments; otherwise every payload byte is what loading puts there |
| ProgramImage.Finish | scripts/build_user_program.py:287-300 | padding and header: the kernel's validation accepts the result, and the sizes are the least possible ones |
| ProgramImage.Convert | scripts/build_user_program.py:220-300 | the verdict is decided check by check; an accepted file becomes an image the kernel accepts and that holds, at every address, the byte loading the segments puts there (both over the raw table: `ProgramLaws`) |
| ProgramImage.ConversionPreserves | scripts/build_user_program.py:220-300 | converting and loading gives the same byte at every address as loading the segments one by one in any order (which segments those are: `ProgramLaws.EntryInMemory`, `RestIsZero`) |
| ProgramLaws.AcceptedExactly | scripts/build_user_program.py:220-282 | accepted are exactly the files whose header, sections and raw table entries meet every condition, one executable entry has the entry point among its file bytes, and no two loaded entries overlap |
| ProgramLaws.EntryInMemory | scripts/build_user_program.py:245-285 | every address of every PT_LOAD entry of the table is mapped, and holds the file byte the entry names, or zero behind its file bytes |
| ProgramLaws.RestIsZero | scripts/build_user_program.py:276-289 | all other mapped bytes behind the image header are zero |
| ProgramLaws.SizesExactly | scripts/build_user_program.py:269-292 | the stored image ends with the last file byte and the program with the last byte of memory, up to a word |
| ProgramLaws.ConvertAndLoad | scripts/build_user_program.py:220-300 | converting and loading runs exactly the acceptable files; the memory then holds every byte of every loaded entry, and zeros elsewhere |
| ProgramLaws.BssIsMapped | scripts/build_user_program.py:253-300 | a program of code and zero-filled memory alone is accepted, stores 0x1000 bytes and asks for 0x1FE4 |
| ProgramLaws.SampleReads | scripts/build_user_program.py:220-252 | there is such a file, given byte by byte |
| ProgramImage.EntryIsStored | scripts/build_user_program.py:264-274 | the entry byte is a stored byte of an executable segment, and the image stays inside the 8 MiB region |
| ProgramImage.Load | kernel/proc/process.c:890-913 | page by page, the mapped memory is the stored image followed by zeros |
| TraceRing.WindowAt | scripts/native_cpu_trace.py:44-48 | the n pending records are the slots from the reader's position on, modulo 256 |
| TraceRing.TraceReader.Initialize | scripts/native_cpu_trace.py:25-29 | starts only once, and only if header and all slots read as zero bytes of the exact length |
| TraceRing.TraceReader.Take | scripts/native_cpu_trace.py:48-53 | takes a record exactly when it is the next one, well formed, and its owner alive |
| TraceRing.TraceReader.Drain | scripts/native_cpu_trace.py:31-54 | takes over all pending records in order, or those before the first bad one, or nothing; two chunks always suffice |
| TraceRing.TraceReader.Finish | scripts/native_cpu_trace.py:56-61 | closes only after a successful drain of a nonempty trace |
| TraceRing.ProduceRepresents | scripts/native_cpu_trace.py:44-48 | writing record k at slot (k-1) mod 256 keeps the last 256 records in the ring |
| TraceRing.WindowIsUnseen | scripts/native_cpu_trace.py:44-48 | a reader at most 256 behind finds exactly the records it has not seen |
| TraceRing.GoodMeans | scripts/native_cpu_trace.py:6-14 | a record is taken exactly when every field is in its range, the interrupt bit of both flag words is clear, and its generation lives in its slot |
| TraceRing.DrainKeepsStep | scripts/native_cpu_trace.py:31-54 | whatever a drain meets, the stream stays a prefix of what was produced, the ledger tells slot, generation, time, result and the eight words before and after of exactly these records, and what was taken had a live owner |
| TraceRing.DrainTakesAll | scripts/native_cpu_trace.py:31-54 | a successful drain has taken everything; a ring in trouble and an overrun are refused without skipping; the incomplete-drain error is dead |
| TraceRing.GoodRecordsDrain | scripts/native_cpu_trace.py:31-54 | with a clean header, at most 256 unseen records, and sound ones with live owners, a drain succeeds |
| TraceRing.ScheduleKeepsStep | scripts/native_cpu_trace.py:31-54 | for every schedule of writes and drains nothing is lost, doubled or reordered, in the stream and in the ledger |
| FatNames.ShortNameReadsBack | scripts/fat_image_tree.py:36-51 | an 8.3 name with its case flags shows exactly the component it was made from |
| FatNames.ShortNameInjective | scripts/fat_image_tree.py:36-51 | different components never share an 8.3 name |
| FatNames.AliasInjective | scripts/fat_image_tree.py:70-80 | aliases for different sequence numbers differ |
| FatNames.AliasesCount | scripts/fat_image_tree.py:75-80 | k tried aliases take up k used names |
| FatNames.AliasStorable | scripts/fat_image_tree.py:73-80 | an alias is eleven printable characters that look neither free nor like a dot entry |
| FatNames.ChosenIsFresh | scripts/fat_image_tree.py:62-81 | with few names in use the chosen name is free, and is the component's own 8.3 name or one of its aliases |
| FatNames.DiskName | scripts/fat_image_tree.py:62-81 | returns exactly the chosen name: the component's own if it is free, else the first free alias, found among the first used + 1; never exhausted below a million names (which characters: `FatAliases.NameChosen`) |
| FatAliases.FilteredIsSifted | scripts/fat_image_tree.py:73-74 | the filter keeps exactly the letters and digits, in their order |
| FatAliases.AliasShape | scripts/fat_image_tree.py:70-78 | alias k of a component: the capitals of the first letters and digits before the last dot, cut to leave room, a tilde, the decimal numeral of k, spaces; then the capitals of the first three letters and digits behind that dot; without such a dot the whole name is the stem |
| FatAliases.ShortIfParted | scripts/fat_image_tree.py:36-51 | a component of one to eight and one to three permitted characters around its only dot, or without a dot, has its own name: both parts in capitals, padded |
| FatAliases.PartedIfShort | scripts/fat_image_tree.py:36-51 | and no other component has |
| FatAliases.NameChosen | scripts/fat_image_tree.py:62-81 | the chosen name is the own one if there is one and it is free, else the alias of the least number that is free |
| FatAliases.EnteredExactly | scripts/fat_image_tree.py:117-126 | entering a name keeps all others and takes one slot, and one more for every thirteen characters if it stands under an alias |
| FatAliases.IndexHtml | scripts/fat_image_tree.py:70-78 | index.html stands under INDEX~1 with the extension HTM |
| FatListing.ListedNames | scripts/fat_image_tree.py:108-164 | a directory lists exactly the names asked for in it |
| FatListing.ListedMore | scripts/fat_image_tree.py:108-164 | what a directory has listed keeps its short name, and its slots only grow, whatever is asked for later |
| FatListing.ListedStandFor | scripts/fat_image_tree.py:62-81 | every short name listed is the component's own 8.3 name or one of its aliases |
| FatListing.ShortNamesKept | scripts/fat_image_tree.py:62-81 | names that are all 8.3 never collide: each entry keeps its own name and takes one slot |
| FatPaths.ComponentExactly | scripts/fat_image_tree.py:54-59 | a component is taken exactly when it has 1 to 255 characters, all from a positive list, and does not end in a blank or a dot |
| FatPaths.PathExactly | scripts/fat_image_tree.py:97-110 | a path is taken exactly when it has at most three slashes and every piece between them is such a component |
| FatTree.ComponentsInjective | scripts/fat_image_tree.py:97-105 | different path strings are different component lists |
| FatTree.PathsUnique | scripts/fat_image_tree.py:108-126 | no two directories of the tree have the same path |
| FatTree.NoClash | scripts/fat_image_tree.py:108-149 | no path is both a file and a directory |
| FatTree.NeverDuplicate | scripts/fat_image_tree.py:148-149 | the duplicate-path error cannot occur for a mapping |
| FatTree.TreeNotOverfull | scripts/fat_image_tree.py:118-126 | in a tree that follows what was asked for, no directory takes more than 224 slots |
| FatTree.NamesAreWanted | scripts/fat_image_tree.py:129-164 | what is asked for in a directory are exactly the directories wanted and the files given there |
| FatTree.ShortInputOverfull | scripts/fat_image_tree.py:118-162 | with 8.3 names only, the input is too much exactly when some directory has to list more than 224 names |
| FatTree.Child | scripts/fat_image_tree.py:108-126 | finds or creates the child; refuses exactly bad names, names of files, and entries that would take the directory beyond 224 slots; the tree stays a tree, with the same files, and follows one more demand |
| FatTree.AddFile | scripts/fat_image_tree.py:143-164 | adds exactly this file under the chosen name, or names the exact reason, the 224-slot test included; the tree stays a tree |
| FatTree.BuildTree | scripts/fat_image_tree.py:129-165 | accepts an input exactly when it is sensible and no directory would take more than 224 slots; the tree then holds exactly the given files and needed directories, with the short names that follow from the order of the input |
| FatWalk.ChildrenApart | scripts/fat_image_tree.py:168-176 | nothing lies below two children of one directory |
| FatWalk.PreOrderCovers | scripts/fat_image_tree.py:168-178 | the depth-first order names every directory once, parents before children |
| FatWalk.WalkDirectories | scripts/fat_image_tree.py:168-178 | the result is the depth-first order with children in their order; every directory once, the root first |
| Fat12.PairReads | scripts/create_floppy_boot_image.py:54-61 | storing sets this entry and keeps the neighbour's nibble |
| Fat12.SetEntry | scripts/create_floppy_boot_image.py:54-61 | the decoded entry is the value, every other decoded entry is unchanged |
| Fat12.EntryIsBits | scripts/create_floppy_boot_image.py:54-61 | a decoded entry is made of the twelve bits from bit 12 c of the table on |
| Fat12.FollowLinked | scripts/create_floppy_boot_image.py:166-169 | a reader that follows a linked chain visits exactly its clusters |
| Fat12.LinkChain | scripts/create_floppy_boot_image.py:166-169 | links one chain and leaves all other entries alone |
| FloppyReader.DecodeEncode | scripts/create_floppy_boot_image.py:177-183 | a directory entry is read back as it was stored |
| FloppyReader.FindListed | scripts/create_floppy_boot_image.py:185-213 | searching a stored table finds the first entry of that name and nothing else |
| FloppyReader.ReadLinked | scripts/create_floppy_boot_image.py:215-221 | reading a chain gives all bytes of its clusters |
| FloppyTree.FindIsFindItem | scripts/create_floppy_boot_image.py:185-213 | searching a stored directory table is searching the directory |
| FloppyTree.ResolveIsLookup | scripts/create_floppy_boot_image.py:171-228 | a reader of a stored tree finds under every path exactly what the tree has there |
| FloppyTree.LookupIsFile | scripts/create_floppy_boot_image.py:185-213 | whatever is found under a path is the file the path leads to |
| FloppyTree.FilePathsDiffer | scripts/create_floppy_boot_image.py:185-213 | different files have different short-name paths |
| FloppyVolume.NeededIsRounded | scripts/create_native_boot_image.py:54-55 | the rounded quotient, at least 1, is the fewest clusters that hold the bytes |
| FloppyVolume.StartsGrow | scripts/create_floppy_boot_image.py:148-158 | different objects share no cluster |
| FloppyVolume.ParametersRead | scripts/create_floppy_boot_image.py:107-110 | the parameter block gives a reader the geometry the builder used |
| FloppyVolume.BootRecordRead | scripts/create_floppy_boot_image.py:107-110 | it is the parameter block of a 1.44-MB FAT12 floppy, field by field |
| FloppyVolume.ChainsDisjoint | scripts/create_floppy_boot_image.py:166-175 | chains end, visit each cluster once, and are pairwise disjoint |
| FloppyVolume.VolumeReadsBack | scripts/create_floppy_boot_image.py:64-228 | reading any path from the bare image gives exactly what the tree has there |
| Floppy.AssignClusters | scripts/create_floppy_boot_image.py:148-158 | every directory and file gets the next free clusters |
| Floppy.LinkAll | scripts/create_floppy_boot_image.py:166-175 | all chains are linked; reserved entries and entries of free clusters stay as they are |
| Floppy.MakeTable | scripts/create_floppy_boot_image.py:185-207 | the table holds the entries, then zeros |
| Floppy.StoreObject | scripts/create_floppy_boot_image.py:215-221 | sector by sector the object stands in its clusters, and nothing outside them changed |
| Floppy.BootStays | scripts/create_floppy_boot_image.py:94-96 | writes behind the kernel touch no boot sector, manifest, stage 2 or kernel byte |
| Floppy.WriteBoot | scripts/create_floppy_boot_image.py:85-92 | boot sector, manifest, stage 2 and kernel stand at their places and do not overlap |
| Floppy.CreateFloppyImage | scripts/create_floppy_boot_image.py:64-228 | succeeds exactly when the parts can boot and the tree fits; the image keeps all boot extents, has two equal FATs with free entries zero, and holds the tree |
| FloppySource.FlatIsTree | scripts/create_floppy_boot_image.py:146-147 | the walked tree always meets what the image layout needs |
| FloppySource.FolderPathIs | scripts/create_floppy_boot_image.py:185-204 | the names that lead to a directory in the image are the short names of its path |
| FloppySource.FilePathIs | scripts/create_floppy_boot_image.py:185-207 | the names that lead to a file in the image are the short names of the path given |
| FloppySource.NamesStandFor | scripts/create_floppy_boot_image.py:198-207 | each component of a given path is stored under its own 8.3 name or one of its aliases |
| FloppySource.ShortPathsKept | scripts/create_floppy_boot_image.py:198-207 | when all components are 8.3 names, every path in the image is the 8.3 form of the path given |
| FloppyRoom.EntriesCounted | scripts/create_floppy_boot_image.py:149-153 | a directory has as many entries as names were asked for in it |
| FloppyRoom.ClustersCounted | scripts/create_floppy_boot_image.py:148-164 | the clusters assigned end exactly where a count over the input says, whatever the order of the walk |
| FloppyShown.CaseByteIs | scripts/fat_image_tree.py:84-89 | the case byte has bit 3 exactly for a letter before the first dot, and bit 4 exactly for one behind the only dot |
| FloppyShown.EntryShows | scripts/create_floppy_boot_image.py:177-183 | a listing of an entry stored under an own 8.3 name with these bits shows exactly the component |
| FloppyShown.StoredIsShown | scripts/create_floppy_boot_image.py:198-207 | every stored entry stands under the own name or an alias of its component, with the right case byte, and under the own name shows the component |
| FloppyShown.SourcesShown | scripts/create_floppy_boot_image.py:185-213 | on the bare image every entry on the way to every file shows its component, with the attribute of a directory or file and the size; the dot entry of every directory leads to itself and the other one to the directory above, 0 for the root |
| FloppyBuilder.PrepareTree | scripts/create_floppy_boot_image.py:146-147 | plants and flattens the tree exactly when the input is sensible and no directory would be overfull |
| FloppyBuilder.StoreTree | scripts/create_floppy_boot_image.py:64-228 | stores a tree exactly when the parts can boot and it fits; a reader then finds every path as in the tree |
| FloppyBuilder.CreateFloppy | scripts/create_floppy_boot_image.py:64-228 | returns an image exactly when no file takes the readme's path, the parts can boot, the files make a tree and the counted clusters fit; the image then has its boot parts, parameter block, label and two equal, clean FATs, and a reader of the bare image finds every file under its path in short names with exactly its bytes, and no other file; every directory entry on the way shows the component it was made from, case flags and dot entries included |
| Ext2Format.AcceptedDetermines | scripts/check_x86_64_app_files_media.py:79-91 | an accepted image determines the files |
| Ext2Format.PartOwned | scripts/check_x86_64_app_files_media.py:79-90 | what a file owns: its pointer block first, if it has one, then its data blocks |
| Ext2Format.OwnershipDisjoint | scripts/check_x86_64_app_files_media.py:65-90 | in an accepted image no two parts of files, pointer blocks included, share a block, and none lies in the metadata or is the directory |
| Ext2Format.BitmapMeans | scripts/check_x86_64_app_files_media.py:92-94 | a bitmap bit is set exactly for owned blocks |
| Ext2Checker.ReadDirectory | scripts/check_x86_64_app_files_media.py:71-77 | the record loop computes the parse of the block |
| Ext2Checker.Own | scripts/check_x86_64_app_files_media.py:66-67 | takes a block exactly when it is in range and owned by nobody |
| Ext2Checker.CheckFile | scripts/check_x86_64_app_files_media.py:79-91 | decides inode, pointers, ownership and contents of one file |
| Ext2Checker.Verify | scripts/check_x86_64_app_files_media.py:57-99 | accepts exactly the images of these files in this layout |
| Ext2Layout.PlanSeparate | scripts/build_x86_64_app_files_media.py:55-64 | the writer's blocks are pairwise different and inside their areas |
| Ext2Layout.ContentIsPiece | scripts/build_x86_64_app_files_media.py:60-64 | the data blocks of a file are one piece of the image |
| Ext2Layout.WrittenIsOk | scripts/build_x86_64_app_files_media.py:57-64 | a written file passes every check on it |
| Ext2Layout.WrittenIsAccepted | scripts/build_x86_64_app_files_media.py:46-75 | what the writer lays out, the checker accepts |
| Ext2Writer.WriteFile | scripts/build_x86_64_app_files_media.py:57-64 | writes inode, pointers, pointer block and data of one file, and touches nothing else |
| Ext2Writer.ParseWritten | scripts/build_x86_64_app_files_media.py:65-70 | parsing written directory records gives them back |
| Ext2Writer.WriteBitmap | scripts/build_x86_64_app_files_media.py:71-72 | the bitmap marks exactly the occupied blocks |
| Ext2Layout.NextBlock | scripts/build_x86_64_app_files_media.py:60-64 | the blocks of a file follow one another |
| Ext2Layout.NextFile | scripts/build_x86_64_app_files_media.py:55-64 | the files follow one another without a gap |
| Ext2Layout.FirstPointers | scripts/build_x86_64_app_files_media.py:55-63 | the first file begins at block 32, and the pointer block of file i is block 22 + i |
| Ext2Writer.WriteImage | scripts/build_x86_64_app_files_media.py:14-75 | returns an image exactly when every file fits; it is laid out as above, marked as cleanly unmounted, with zeros where no field is, and the independent checker accepts it |

## Left out

- Spinlocks, interrupt flags, `panic`, logging, fault injection and the boot self-test of `mm/kmalloc.c`: locked bodies are single steps.
- Out-of-bounds writes by heap clients: callers are assumed to stay inside their payloads.
- The counters of a failed `initialize_memory_system`: only that both allocators stay closed is stated.
- `memory_map_reset` after use: the reset state is the constructors' state.
- Byte-level payloads: contents are compared granule by granule, so the last partial granule of a request is included.
- Frame statistics in `memory_get_stats`: they copy the counters whose meaning `FrameState` fixes.
- The little-endian unpacking of trace records, the running hash and the output stream: records are given by their fields.
- Long-name directory entries: the floppy builder writes none; long components are found under their aliases.
- Timestamps of the floppy directories and the slack behind the last byte of a file are stored as zeros but not read back.
- The FAT12 and FAT32 branches of the application media builder and the 512-MiB native image: the same layouts with fixed constants.
- Kernel ELF validation, manifest, CRC and signature contents of the floppy: opaque parameters.
- Relocation handling of the C++ admission check, compiling and linking in `scripts/build_user_program.py`.
- Unicode facts that `derive_path_bound` does not decide, such as normalisation of whole strings.
- QEMU observers, media variants by text substitution, build orchestration and generated tables.
