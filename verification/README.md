# aenix: a verified model of the kernel's hard parts

aenix is a small x86 kernel with its own file system. This project models six
parts of it in Dafny and proves what each is for, over all inputs and all runs:

- **Kernel heap** (`HeapSpec`, `KernelHeap`): the circular, address-ordered,
  coalescing free list of section 8.7 of K&R, *The C Programming Language*. The
  class `KernelHeap` relinks and resizes headers in place exactly where the code
  does; `HeapSpec` says what the list means.
  `HeapGrowth` supplies its chunks from the frame allocator and the page tables.
- **Page frame allocator** (`FrameSpec`, `Bitmap`, `FrameAllocator`): a packed
  bitmap of 32-bit words over a list of memory regions, as a set of free frames.
- **Paging** (`PagingSpec`, `UnmapSpec`, `TableRuns`, `Paging`): 32-bit two-level tables (section 4.3 of the
  Intel SDM, volume 3A) that live in physical frames and are edited through one
  temporary slot, which sits inside the kernel table itself. `Paging` takes its
  table frames from a `FrameAllocator` object.
- **AEFS** (`AefsSpec`, `Mkfs`, `AefsReaders`, `AefsLayout`, `AefsLookup`, `Vfs`,
  `AefsImage`): the packer, the listing tool, the kernel's read and lookup, the path
  walk, and the image as one file of bytes.
- **Scheduler** (`SchedulerSpec`, `Scheduler`): timer, trap, yield, fork, execve,
  exit and wait as a state machine, and the linked lists and handlers behind it.
- **Console** (`Console`): the 80 by 25 scrolling buffer as a window on an
  unbounded terminal.

Each `*Spec` module holds values, the specification and the theorems; the class
modules hold the imperative code, whose `ensures` tie the new state to a function
of the old one. `dafny verify dfyconfig.toml` checks everything.

Some of the code does not do what its names suggest. There the model follows the
code, and a lemma says exactly when the intended property holds:

- `kmalloc` serves a block that is too small when the size computation overflows
  (`KernelHeap.PayloadHoldsRequest`).
- `pfa_allocate` can miss a free run when several regions could hold it
  (`FrameSpec.ScanCompleteIff`, `FrameSpec.MissedRun`).
- `pdt_unmap_memory` does not reduce the size from one table to the next and can
  unmap pages past the end of the range (`UnmapSpec.UnmapsExactlyIff`,
  `UnmapSpec.SweptIs`, `UnmapSpec.SweptTooFar`); it makes no progress on an absent slot
  at its start or at the temporary page (`UnmapSpec.StuckIff`, `UnmapSpec.EndsIff`); and
  it frees a table that another directory still enters, which breaks the separation of
  tables and free frames (`UnmapSpec.DropTableIff`, `UnmapSpec.GivenBackIff`,
  `TableRuns.EveryRunIff`, with a run from boot in `TableRuns.SharedTableFreed`).
- `pfa_free` flips a bit, so it frees exactly the frames that are in use
  (`FrameSpec.FreesIff`, `FrameSpec.RunFreesIff`).
- `mkfs` lays out overlapping areas when the size is a multiple of 64 MB
  (`AefsLayout.AreasFit`).
- The kernel's `strncmp` never advances, so lookups compare first bytes only
  (`AefsLookup.FindsChildIff`, `AefsLookup.RefusesIff`, `Vfs.PathArrivesIff`), and a
  lookup in an empty directory searches the root's first block
  (`AefsLookup.EmptyRefusesIff`, `AefsLookup.EmptyFindsItself`).
- `div_ceil(0, …)` wraps to a huge number. For `mkfs` and `aefs_read` this turns out
  to be harmless (`AefsSpec.BlocksForIs`, `AefsReaders.Read`), so empty files and
  empty directories are covered.

## Model

| member | source | states |
|---|---|---|
| `HeapSpec.FreeBlocksAreMaximalRuns` | src/kernel/kmalloc.c:136-153 | the free list is fully coalesced: its non-empty elements are exactly the maximal runs of free units, also across separately acquired chunks |
| `HeapSpec.RunInOneBlock` | src/kernel/kmalloc.c:136-153 | every run of free units lies inside a single list element |
| `HeapSpec.FreeListDetermined` | src/kernel/kmalloc.c:46-60 | two well-formed heaps with the same live blocks and the same acquired units have the identical free list |
| `HeapSpec.InsertCorrect` | src/kernel/kmalloc.c:129-153 | inserting a block and joining it to both neighbours keeps the list sorted, separated and through `base`, and adds exactly the block's units |
| `HeapSpec.FreedInv` | src/kernel/kmalloc.c:120-154 | freeing a live block keeps the invariant: one sorted list, free and live blocks disjoint and partitioning the acquired units |
| `HeapSpec.TakenInv` | src/kernel/kmalloc.c:46-60 | cutting the tail of a free block, or taking all of it, keeps the invariant |
| `HeapSpec.GrownInv` | src/kernel/kmalloc.c:112-117 | adding a fresh chunk, which may touch older chunks, keeps the invariant and adds exactly the chunk |
| `HeapSpec.EveryRunKeepsInv` | src/kernel/kmalloc.c:28-154 | in every state of every run of allocations, frees and growth the list is sorted with one wrap through `base`, and free and live blocks partition all units acquired so far |
| `HeapSpec.RunsAgree` | src/kernel/kmalloc.c:28-154 | two runs, however different, that end with the same live blocks and acquired units end in the same state |
| `HeapSpec.FreeUndoesTake` | src/kernel/kmalloc.c:46-60 | freeing a block just cut from the list restores the list element for element |
| `HeapSpec.GrownFits` | src/kernel/kmalloc.c:77-117 | after growth some free block fits the request, whether the chunk stood alone or was joined to a neighbour |
| `KernelHeap.PayloadHoldsRequest` | src/kernel/kmalloc.c:42 | the block's payload holds the request if and only if the rounding term does not overflow 32 bits |
| `KernelHeap.UnitsMinimal` | src/kernel/kmalloc.c:42 | the block is the smallest number of units that holds the request and a header |
| `KernelHeap.ChunkMinimal` | src/kernel/kmalloc.c:77-82 | the heap grows by the fewest pages that hold the request, or 1024 units for smaller ones |
| `KernelHeap.ChunkLargeEnough` | src/kernel/kmalloc.c:77-82 | a chunk inside the 4 GB address space is large enough for the request, in spite of 32-bit arithmetic |
| `KernelHeap.SearchStops` | src/kernel/kmalloc.c:129-134 | the stop condition of kfree's search holds at exactly one element of the ring, the one in front of the block |
| `KernelHeap.FreedLinks` | src/kernel/kmalloc.c:136-150 | the pointer and size writes of kfree leave links and sizes that represent the list with the block inserted and joined |
| `KernelHeap.KernelHeap.FindFront` | src/kernel/kmalloc.c:129-134 | the search terminates from any list head and returns the element in front of the block |
| `KernelHeap.KernelHeap.KFree` | src/kernel/kmalloc.c:120-154 | a null pointer changes nothing; a live block becomes free, the heap becomes the specified one, and the next search starts at the list element in front of the freed block |
| `KernelHeap.KernelHeap.AcquireMoreHeap` | src/kernel/kmalloc.c:72-118 | without a chunk the heap is unchanged and 0 is returned; with one the heap is the grown one and the list head, the element in front of the chunk, is returned |
| `KernelHeap.KernelHeap.TakeFrom` | src/kernel/kmalloc.c:46-60 | unlinking the block, or splitting off its tail, gives the specified heap and the address behind the new header; `freep` is the element in front of the one served, in the list as it was |
| `KernelHeap.KernelHeap.Search` | src/kernel/kmalloc.c:45-69 | the loop terminates, grows at most once and only after a full lap without a fit, and serves the first fit behind the list head |
| `KernelHeap.KernelHeap.KMalloc` | src/kernel/kmalloc.c:28-70 | the result is null exactly for a request of zero bytes or when nothing fits and no chunk can be had; otherwise it is served from the first fit of the old heap behind the list head, or of the grown heap behind the element in front of the chunk, and `freep` is left in front of the element served |
| `KernelHeap.ServedAtTail` | src/kernel/kmalloc.c:46-60 | the units served are the last ones of a maximal run of free units, and exactly they change hands |
| `KernelHeap.NextFromSameBlock` | src/kernel/kmalloc.c:43-60 | while the units right below a served block are free, the next equal request is served from them |
| `KernelHeap.FreeThenServe` | src/kernel/kmalloc.c:129-153 | after a free with nothing free right below the block, an equal or smaller request comes from the end of the run that starts at the block |
| `KernelHeap.AllocateTwice` | src/kernel/kmalloc.c:28-70 | two equal requests in a row give adjacent blocks, the second below the first, if the units there are free |
| `KernelHeap.FreeAndAllocate` | src/kernel/kmalloc.c:28-154 | allocating as much as was just freed gives the same block back, if it touched no free unit |
| `KernelHeap.FreeUndoesServe` | src/kernel/kmalloc.c:28-154 | freeing what was just served gives back the heap as it was |
| `KernelHeap.AllocateAndFree` | src/kernel/kmalloc.c:28-154 | an allocation without growth followed by a free restores free list, live blocks and acquired units |
| `HeapGrowth.UnmappedIsFresh` | src/kernel/kmalloc.c:93-115 | while the heap is mapped, address space that was not mapped is disjoint from every older chunk and clear of `base` |
| `HeapGrowth.TakeFrames` | src/kernel/kmalloc.c:81-91 | the frames taken were free, are contiguous and below 4 GB, and the page tables stay apart from the free frames |
| `HeapGrowth.MapFrames` | src/kernel/kmalloc.c:93-110 | on success exactly the chunk's pages, all unmapped before, are mapped to the frames; on failure no address range or no table frame was left; no earlier translation is lost |
| `HeapGrowth.AcquireChunk` | src/kernel/kmalloc.c:72-113 | every chunk handed out is fresh, inside 4 GB and mapped; failure means no frame run was found, no address range, or no table frame |
| `HeapGrowth.KMallocMapped` | src/kernel/kmalloc.c:28-118 | heap, page tables and frame allocator stay sound together; page tables and bitmap change only when nothing fits; every unit handed out is mapped; null means zero bytes or that the heap cannot grow |
| `HeapGrowth.KFreeMapped` | src/kernel/kmalloc.c:120-154 | freeing keeps the three sound together and the acquired units as they are |
| `FrameSpec.FramesIncrease` | src/kernel/page_frame_allocator.c:191-219 | frame addresses strictly increase with the bit index, so each frame has one bit |
| `FrameSpec.RunContiguous` | src/kernel/page_frame_allocator.c:221-238 | a run of bits inside one region is physically contiguous |
| `FrameSpec.SkipCleared` | src/kernel/page_frame_allocator.c:245-268 | skipping a word of cleared bits gives the same result as looking at each of them |
| `FrameSpec.ScanSound` | src/kernel/page_frame_allocator.c:240-272 | what the scan finds is a run of set bits inside one region and below `len`, whatever the bits past `len` hold; a request for no frames finds nothing |
| `FrameSpec.ScanFirstFit` | src/kernel/page_frame_allocator.c:240-272 | for one frame, or when only the first non-empty region is large enough, the scan finds the lowest free run and misses none |
| `FrameSpec.MissedRun` | src/kernel/page_frame_allocator.c:254-261 | whenever a later region is large enough for two or more frames, there is a bitmap with a free run that the scan misses |
| `FrameSpec.ScanCompleteIff` | src/kernel/page_frame_allocator.c:240-272 | the scan misses no free run, on any bitmap, if and only if one frame is asked for or no region but the first non-empty one holds the request |
| `FrameSpec.OneFrame` | src/kernel/page_frame_allocator.c:240-272 | a one-frame request gets the lowest free frame and fails only when no frame is free |
| `FrameSpec.AllocationFrames` | src/kernel/page_frame_allocator.c:254-257 | an allocation takes a contiguous run of free frames and removes exactly those from the free set |
| `FrameSpec.EveryRunKeepsFrames` | src/kernel/page_frame_allocator.c:240-290 | over every run of allocations and frees of live frames, from any bitmap, free and live frames partition the frames of the regions and no bit past `len` changes |
| `FrameSpec.TakePartition` | src/kernel/page_frame_allocator.c:240-272 | every successful allocation is disjoint from all live frames |
| `Bitmap.FlipInWord` | src/kernel/page_frame_allocator.c:177-181 | the exclusive-or of one word flips exactly one bit of the bitmap |
| `FrameAllocator.FrameAllocator.ToggleBits` | src/kernel/page_frame_allocator.c:183-189 | exactly the bits of the run are flipped |
| `FrameAllocator.FrameAllocator.PaddrForIdx` | src/kernel/page_frame_allocator.c:191-204 | the address is that of the frame behind the bit, over empty regions too, and 0 past the last frame |
| `FrameAllocator.FrameAllocator.IdxForPaddr` | src/kernel/page_frame_allocator.c:206-219 | the inverse: the bit of a frame's address, `len` for an address above all regions, and for any other address the bit that the 32-bit arithmetic gives |
| `FrameAllocator.FrameAllocator.FitsInOneEntry` | src/kernel/page_frame_allocator.c:221-238 | true exactly when the run lies inside one region |
| `FrameAllocator.FrameAllocator.Allocate` | src/kernel/page_frame_allocator.c:240-272 | the word-skipping loop returns what the bit-by-bit scan finds, with exactly those bits cleared, or 0 and an unchanged bitmap |
| `FrameAllocator.FrameAllocator.Free` | src/kernel/page_frame_allocator.c:274-282 | the bit computed for the address is flipped, nothing for an address above all regions; the free frames gain exactly this frame if and only if it is a frame in use |
| `FrameAllocator.FrameAllocator.FreeCont` | src/kernel/page_frame_allocator.c:284-290 | the bits of a run of frames are flipped, and exactly the run becomes free if and only if all of it was in use |
| `FrameSpec.IndexOfFrame` | src/kernel/page_frame_allocator.c:206-219 | the index computed for a frame's address is the frame's bit, without 32-bit wrap-around |
| `FrameSpec.FreesIff` | src/kernel/page_frame_allocator.c:274-282 | freeing any address adds exactly the frame at it to the free set if and only if there is one and it is in use |
| `FrameSpec.RunFreesIff` | src/kernel/page_frame_allocator.c:284-290 | the same for a run of frames |
| `FrameAllocator.FrameAllocator.AllocateAndFree` | src/kernel/page_frame_allocator.c:240-290 | freeing a run just allocated restores the bitmap bit for bit |
| `PagingSpec.TestsAgree` | src/kernel/paging.c:22 | on every entry the code makes or clears, its own presence test agrees with the hardware's present bit |
| `PagingSpec.SaneWords` | src/kernel/paging.c:22 | such an entry is a zero word or a word with its present bit set |
| `PagingSpec.EntryWords` | src/kernel/paging.c:433-520 | the entries as 32-bit words: the frame in bits 31 to 12, present in bit 0, writable in bit 1 as `rw`, user in bit 2 as `pl`, write-through in bit 3, and the page size in bit 7 of a directory entry |
| `PagingSpec.EntryFields` | src/kernel/paging.c:68-86 | the address and the permissions read from an entry are those at the hardware's places in its word |
| `PagingSpec.MadeEntries` | src/kernel/paging.c:433-520 | entries are present, well formed, and give back the page-aligned address and the permissions they were made for |
| `PagingSpec.EditOther` | src/kernel/paging.c:191-221 | editing the table behind one slot changes no translation through any other table, in any directory |
| `PagingSpec.NewTableInv` | src/kernel/paging.c:242-274 | entering a fresh frame as a table keeps the separation of tables, directories and free frames |
| `UnmapSpec.DropTableIff` | src/kernel/paging.c:351-356 | giving a table back keeps the separation of tables, directories and free frames if and only if no other directory enters it |
| `UnmapSpec.GivenBackIff` | src/kernel/paging.c:333-359 | the same for all tables that one unmapping gives back |
| `PagingSpec.MapStep` | src/kernel/paging.c:237-282 | one round of the mapping loop overrides exactly the pages it entered, keeps the separation, and leaves other directories alone |
| `PagingSpec.SlotMappedLookup` | src/kernel/paging.c:191-221 | behind one slot exactly the requested pages are mapped, linearly and with the requested permissions, and all others are as before |
| `PagingSpec.MapStepTmp` | src/kernel/paging.c:240-276 | a mapping round puts the temporary entry back, also when the table it edits is the kernel table that holds it |
| `UnmapSpec.UnmapUndoesMap` | src/kernel/paging.c:223-362 | mapping a free range and then removing it restores translation and permissions |
| `UnmapSpec.StuckIff` | src/kernel/paging.c:333-358 | one round of the loop makes no progress if and only if it stands at the start of an absent slot or at the temporary page |
| `UnmapSpec.EndsIff` | src/kernel/paging.c:333-358 | the loop, as a sequence of addresses, ends inside the address space if and only if the range holds no such place and the sweep does not reach the end of the address space |
| `UnmapSpec.SweptIs` | src/kernel/paging.c:330-359 | an unmap sweeps exactly as many pages as asked for if and only if the range stays in one slot, ends at the end of one, or ends at the temporary page |
| `UnmapSpec.UnmapsExactlyIff` | src/kernel/paging.c:330-359 | an unmap removes exactly the requested pages if and only if no page that is swept along past the end was mapped |
| `UnmapSpec.SweptTooFar` | src/kernel/paging.c:346-358 | unmapping the two pages around a slot boundary also unmaps the page after them |
| `Paging.Paging.PtMap` | src/kernel/paging.c:191-221 | entries are filled up to the first one that is present or the temporary one, and only those |
| `Paging.Paging.OpenTable` | src/kernel/paging.c:238-257 | the table in the window is the one behind the slot, or a cleared new one on a free frame; it fails exactly when no frame is left for a new one |
| `Paging.Paging.MapSlot` | src/kernel/paging.c:237-276 | one round maps a maximal run behind the slot or reports what stopped it |
| `Paging.Paging.Map` | src/kernel/paging.c:223-285 | the result is the rounded size or 0; the translation is the old one overridden by the requested linear mapping, every page writable iff `rw` is odd and open to user mode iff `pl` is, on failure by a prefix of it; new directory entries have the same permissions and old ones keep theirs; no earlier translation or permission is lost; failure means no frame or a page in the way; the temporary entry is restored |
| `Paging.Paging.PtUnmap` | src/kernel/paging.c:297-321 | entries are cleared up to the size, the end of the table or the temporary entry |
| `Paging.Paging.UnmapSlot` | src/kernel/paging.c:341-358 | one round removes exactly its pages, gives back the table of a slot that was cleared as a whole, and leaves every other table in its slot |
| `Paging.Paging.UnmapRound` | src/kernel/paging.c:333-359 | a round goes on by the specified stride, skipping an absent slot it starts inside of |
| `Paging.Paging.Unmap` | src/kernel/paging.c:323-362 | the pages removed are exactly the swept ones and the tables given back exactly those of whole slots; other directories keep their private translations; the temporary entry is restored; the size of the last round is returned; a range up to the end of the address space is left alone; separation is kept if and only if no table given back is entered elsewhere |
| `Paging.Paging.LoadKernelSlots` | src/kernel/paging.c:408-419 | the present kernel slots are copied, the directory then translates kernel pages as the kernel does, and separation is kept |
| `TableRuns.BootInv` | src/kernel/loader.s:63-78 | the tables at boot satisfy the invariant |
| `TableRuns.LoadedInv` | src/kernel/paging.c:408-419 | sharing the kernel's tables keeps tables, directories and free frames apart |
| `TableRuns.StepIff` | src/kernel/paging.c:191-419 | a mapping round, a clearing, a table given back, a new directory, a loading, or frames taken keeps separation if and only if no shared table is given back |
| `TableRuns.EveryRunIff` | src/kernel/paging.c:191-419 | in every state of every run from boot tables, directories and free frames are apart if and only if the run never gives back a shared table |
| `TableRuns.SharedTableFreed` | src/kernel/paging.c:351-356 | a run of four steps from boot ends with a free frame that a directory still enters |
| `Paging.Paging.PtFind` | src/kernel/paging.c:139-161 | the address of the lowest usable run of entries in a table, or 0 when there is none |
| `Paging.Paging.FindNextVaddr` | src/kernel/paging.c:163-189 | a non-zero result, from 0xC0000000 on, names the lowest unmapped range in one slot that avoids the temporary page at 0xC03FF000, 0 means there is none, and memory is unchanged |
| `Paging.FindMapUnmap` | src/kernel/paging.c:139-362 | for every size up to 4 MB, mapping a range that was found fails only when no frame is left, and unmapping it again restores every translation; separation is lost exactly when a whole slot is unmapped whose table was there before and is shared |
| `AefsSpec.BlocksForIs` | src/mkfs.c:21-24 | the truncated, wrapping block count is the rounded-up quotient for every size below 2^24, zero included |
| `AefsSpec.EncodesAgree` | src/mkfs.c:127-252 | whether an image holds a tree depends only on the tree's own inodes and blocks |
| `AefsSpec.ChainNext` | src/mkfs.c:47-55 | entering the next block, with a new tail inode after every fifth, extends a correct tail chain |
| `AefsSpec.DirPacked` | src/mkfs.c:181-209 | a directory whose children are packed and entered and whose chain is filled in holds the tree |
| `Mkfs.Packer.FillInodeBlocks` | src/mkfs.c:42-56 | the inode and its tails list the blocks in order and end with tail 0; no other inode below the counter changes |
| `Mkfs.Packer.FillInodeSize` | src/mkfs.c:58-62 | the two size fields give back the size, below 2^24 |
| `Mkfs.Packer.VisitFile` | src/mkfs.c:219-252 | the file is held in the next free inodes and blocks, and everything before them is untouched |
| `Mkfs.Packer.VisitDir` | src/mkfs.c:127-217 | the whole tree is held in the next free inodes and blocks, in entry order, with blank unused entries, and everything before them is untouched |
| `AefsReaders.EntryRecord` | src/kernel/aefs.h:35-40 | the 256 bytes of an entry: the name, zeros up to byte 254, the inode number, low byte first |
| `AefsReaders.EntryDecodes` | src/mkfs.c:200-201 | a directory entry gives back the name and the inode number it was written with |
| `AefsReaders.PrintInodeTail` | src/rdaefs.c:49-59 | the recursion terminates and prints, for every inode left of the chain, its blocks in order and its tail |
| `AefsReaders.VisitInode` | src/rdaefs.c:78-87 | walking a packed inode terminates and rebuilds names, types, sizes and order of the tree |
| `AefsReaders.VisitDir` | src/rdaefs.c:102-135 | the loop over entries, blocks and tails rebuilds the directory with all its children |
| `AefsImage.OutlineLists` | src/rdaefs.c:78-135 | the expected listing has, at every position of the tree and nowhere else, a file with its own number of bytes or a directory with 256 bytes an entry and its names in order |
| `AefsImage.PackAndList` | src/rdaefs.c:89-93 | packing any tree that fits into an image file and listing the file from inode 1 gives the tree back, position by position |
| `AefsReaders.Read` | src/kernel/aefs.c:51-78 | a read of any count returns exactly the first min(count, size) bytes of a packed file; a directory is refused |
| `AefsLayout.AreasFit` | src/mkfs.c:96-102 | the inode area ends before the data area and the data blocks fit in the file if and only if the size is not a multiple of 64 MB |
| `AefsImage.LayoutNumbers` | src/mkfs.c:96-102 | the number of inodes, the start block, and the byte addresses of inodes and blocks |
| `AefsImage.InodeRecord` | src/kernel/aefs.h:18-25 | the 16 bytes of an inode record, field by field, low byte first |
| `AefsImage.InodeRoundTrip` | src/kernel/aefs.h:18-25 | they give the inode back |
| `AefsImage.ImageRead` | src/rdaefs.c:44-47 | every inode and every block is read back from the image file, at the addresses its superblock gives, as it was put there |
| `AefsImage.InodeWritten` | src/mkfs.c:42-62 | writing an inode changes the 16 bytes of its record in the image file and no other byte |
| `AefsImage.BlockWritten` | src/mkfs.c:96-105 | writing a block changes the bytes of that block in the image file and no other byte |
| `AefsImage.Init` | src/kernel/aefs.c:165-204 | an image is mounted exactly if its first four bytes are the magic number 0xAE12AE34, low byte first |
| `AefsImage.PackImage` | src/mkfs.c:96-125 | the image file has the asked size, its superblock has the magic number, the number of inodes and the start block, and it holds the tree, an empty root directory included |
| `AefsLayout.NothingShared` | src/mkfs.c:127-252 | two different nodes of a packed tree share no inode, no tail inode and no block |
| `AefsLayout.EncodedAt` | src/mkfs.c:127-217 | every node of a packed tree is held at the place its path gives |
| `AefsLookup.Strncmp` | src/kernel/string.c:56-81 | the result is 0 exactly when the first bytes agree or nothing is compared, and its sign orders the first bytes, a terminator first |
| `AefsLookup.Lookup` | src/kernel/aefs.c:92-126 | over tails and blank entries: the first entry that starts with the name's first byte is found; a file is refused; an empty directory searches the root's first block |
| `AefsLookup.FindsChildIff` | src/kernel/aefs.c:116-122 | a child is found by its own name if and only if no earlier sibling starts with the same byte |
| `AefsLookup.RefusesIff` | src/kernel/aefs.c:109-125 | a lookup in a non-empty directory fails if and only if no child starts with the name's first byte |
| `AefsLookup.EmptyName` | src/kernel/aefs.c:109-125 | an empty name, as between two slashes, is refused exactly if the entries fill their blocks, and otherwise leads to inode 0 |
| `AefsLookup.EmptyRefusesIff` | src/kernel/aefs.c:106-125 | a lookup in an empty directory fails if and only if none of the first four names of the root starts with the same byte |
| `AefsLookup.EmptyFindsItself` | src/kernel/aefs.c:106-125 | an empty directory that is the root's first entry contains itself |
| `AefsLookup.FoundHeld` | src/kernel/aefs.c:117-121 | whatever is found is a node that the image holds |
| `Vfs.ComponentsOfJoin` | src/kernel/vfs.c:87-102 | joining names with slashes and cutting the path again gives the names back |
| `Vfs.TrailingSlash` | src/kernel/vfs.c:87-102 | a slash at the end of a path changes nothing |
| `Vfs.Cut` | src/kernel/vfs.c:88-97 | the terminator written in place leaves the next component at the pointer and the rest of the path behind it |
| `Vfs.VfsLookup` | src/kernel/vfs.c:54-107 | the walk is the lookup of the slash-separated components, one after the other, from the root; a path without a leading slash is refused, and `/` is inode 1 |
| `Vfs.PathArrivesIff` | src/kernel/vfs.c:87-102 | the path made of the names on the way to a node leads to that node if and only if, at every level, no earlier sibling starts with the same byte |
| `Vfs.OpenFile` | src/kernel/vfs.c:54-117 | looking a file of a packed image up by such a path and reading it gives the file's bytes |
| `AefsImage.PackAndOpen` | src/kernel/vfs.c:54-117 | the same from the tree to one image file, mounted, and back, for every size the areas fit in |
| `SchedulerSpec.NextLists` | src/kernel/scheduler.c:136-273 | every step keeps runnable and terminated numbers distinct, parents 0 or listed and smaller, and the child count equal to the forks |
| `SchedulerSpec.NextContexts` | src/kernel/scheduler.c:60-108 | every step keeps the trap registers of processes in a system call and the saved context of every waiting process, and a dispatch finds that context |
| `SchedulerSpec.EveryRunKeepsInv` | src/kernel/scheduler.c:136-291 | both hold in every state of every run from boot |
| `SchedulerSpec.ProcessesStay` | src/kernel/scheduler.c:198-252 | no process leaves the lists, terminated ones stay terminated, and only a fork issues a number, one never used before |
| `SchedulerSpec.ForkNumbersIncrease` | src/kernel/scheduler.c:52-58 | numbers handed out by forks strictly increase along every run and are never reused |
| `SchedulerSpec.ChildrenAreForks` | src/kernel/scheduler.c:218-238 | the number of children counted for a process is the number of its successful forks |
| `SchedulerSpec.WaitSucceeds` | src/kernel/syscall.c:226-250 | once a process has a terminated child, none of its later waits blocks |
| `SchedulerSpec.SyscallRoundTrip` | src/kernel/syscall.c:263-301 | over any interleaving, a returning system call hands back the registers given at its trap with only eax replaced |
| `SchedulerSpec.ResumesWhatItLeft` | src/kernel/scheduler.c:76-108 | over any interleaving, a process that is dispatched again resumes what the step that took it off the processor left: the interrupted registers in user mode, in kernel mode the same with esp twelve higher and ss 0x10, the trap registers with eax 0 after yield, the kernel context with eax 0 in wait, the image after execve; and a fork child the parent's trap registers with eax 0 |
| `SchedulerSpec.KernelPreemption` | src/kernel/scheduler.c:85-91 | over any run a process preempted in kernel mode resumes with exactly these registers |
| `SchedulerSpec.Waiting` | src/kernel/scheduler.c:254-273 | while a process waits, dispatches so far plus its position stay within its first position plus a full queue per removal, and are equal to it without removals |
| `SchedulerSpec.BoundedWaiting` | src/kernel/scheduler.c:164-291 | a process at position d is dispatched within d + (N-1)k dispatches, with N bounding the queue and k counting exits and execves |
| `SchedulerSpec.RoundRobin` | src/kernel/scheduler.c:254-291 | without exits and execves it is dispatched by exactly the d-th dispatch |
| `Scheduler.PsList.Add` | src/kernel/scheduler.c:136-157 | the process is appended and the start and end pointers stay well formed |
| `Scheduler.PsList.Rotate` | src/kernel/scheduler.c:254-273 | the first process goes to the end; a single one stays |
| `Scheduler.PsList.Remove` | src/kernel/scheduler.c:164-196 | exactly the first element with the number is unlinked, from the start, the middle or the end |
| `Scheduler.PsList.MaxId` | src/kernel/scheduler.c:38-50 | the largest number in the list, 0 for an empty one |
| `Scheduler.PsList.CountChildren` | src/kernel/scheduler.c:218-230 | how many elements have the given parent |
| `Scheduler.PsList.HasChild` | src/kernel/scheduler.c:205-216 | whether some element has the given parent |
| `Scheduler.Scheduler.NextPid` | src/kernel/scheduler.c:52-58 | one past the last number issued, and not the number of any process |
| `Scheduler.Scheduler.NumChildren` | src/kernel/scheduler.c:232-238 | the successful forks of the process |
| `Scheduler.Scheduler.ScheduleOnInterrupt` | src/kernel/scheduler.c:94-108 | the timer step of the state machine; the context saved for the interrupted process is the one the interrupt leaves it, and the one returned is that saved for the new head |
| `Scheduler.Scheduler.HandlePit` | src/kernel/scheduler.c:110-122 | every interrupt counts two milliseconds, and at ten the time slice is over |
| `Scheduler.Scheduler.Trap` | src/kernel/syscall.c:263-284 | the trap step: the user registers are those given |
| `Scheduler.Scheduler.Return` | src/kernel/syscall.c:296-300 | the registers handed back are those of the trap with eax replaced |
| `Scheduler.Scheduler.SysYield` | src/kernel/syscall.c:184-200 | the yield step; the next process resumes its saved context |
| `Scheduler.Scheduler.SysFork` | src/kernel/syscall.c:160-182 | -1 and no change if the process cannot be cloned; otherwise the fork step, and the number returned is new and belongs to the last process of the queue |
| `Scheduler.Scheduler.ReplaceProcess` | src/kernel/scheduler.c:240-252 | the head leaves the queue and the replacement joins the end |
| `Scheduler.Scheduler.TerminateProcess` | src/kernel/scheduler.c:198-203 | the head leaves the queue and joins the terminated processes |
| `Scheduler.Scheduler.SysExecve` | src/kernel/syscall.c:126-158 | -1 and no change if there is no image; otherwise the execve step, and the image keeps number and parent |
| `Scheduler.Scheduler.SysExit` | src/kernel/syscall.c:202-224 | the exit step; the process is among the terminated ones |
| `Scheduler.Scheduler.SysWait` | src/kernel/syscall.c:226-250 | -1 exactly without forks, 0 exactly with a terminated child, otherwise the waiting step |
| `Console.PutSound` | src/kernel/fb.c:95-122 | every byte keeps the cursor inside the window and nothing below the lowest row |
| `Console.ScrollShown` | src/kernel/fb.c:81-93 | moving every row up and blanking the last one shows the window one row further down |
| `Console.AlwaysSound` | src/kernel/fb.c:95-129 | over every byte sequence the cursor stays in the window |
| `Console.PlainText` | src/kernel/fb.c:95-129 | text without control characters lies on the terminal as written, row after row |
| `Console.CharacterWritten` | src/kernel/fb.c:97-116 | an ordinary character is written under the cursor, which moves one cell on, and nothing else changes |
| `Console.TabBlanks` | src/kernel/fb.c:109-113 | a tab moves the cursor four cells on and blanks exactly these four, also across a scroll |
| `Console.NewlineMoves` | src/kernel/fb.c:102-104 | a newline moves the cursor to the start of the next row and changes no cell |
| `Console.BackspaceBlanks` | src/kernel/fb.c:105-108 | a backspace moves one cell back, but not past the top of the window, and blanks exactly the cell it ends on |
| `Console.WindowFollows` | src/kernel/fb.c:118-121 | the window of 25 rows ends with the lowest row the cursor has been in, once there are more |
| `Console.BufferBytes` | src/kernel/fb.c:20-44 | the buffer holds, two bytes a cell, the character and the attribute 0x0F of every cell of the window |
| `Console.BackspaceUndoes` | src/kernel/fb.c:105-108 | a backspace takes back an ordinary character, also across a scroll |
| `Console.Console.Scroll` | src/kernel/fb.c:81-93 | the in-place loops move every cell up by a row and blank the last row |
| `Console.Console.PutB` | src/kernel/fb.c:95-122 | the buffer keeps showing the terminal's window and the cursor is below 2000 |
| `Console.Console.PutS` | src/kernel/fb.c:124-129 | the same over a whole string |
| `Console.Console.Clear` | src/kernel/fb.c:165-174 | whatever was there, the buffer shows a fresh terminal |

## Left out

- The boot-time memory map and bitmap set-up (src/kernel/page_frame_allocator.c:28-175): the model starts from regions that are page aligned, sorted, disjoint and below 4 GB, and from an arbitrary bitmap.
- `kfree` of pointers that `kmalloc` did not return: the code does not check them.
- FrameAllocator.FrameAllocator.Free: an address in a gap between regions whose computed bit lies outside the bitmap, for which the code writes outside it.
- KernelHeap.KernelHeap.KMalloc: takes the chunk that would be supplied as a parameter and assumes it fresh; `HeapGrowth.AcquireChunk` supplies such chunks.
- HeapGrowth.AcquireChunk: chunks of more than 4 MB, which the address search is not meant for (src/kernel/paging.c:166).
- HeapGrowth.KMallocMapped: the same; it searches a full lap, acquires the chunk, and searches again, where the code acquires it inside the loop. That the pages of `base` and of the unit before it are mapped is assumed at the start and kept.
- Paging.Paging.Unmap: ranges on which the loop does not end, and ranges whose sweep reaches the end of the address space, where the address wraps around to 0 and the loop goes on from there. Addresses are page aligned.
- `pdt_delete`, the frame and address handling of `pdt_create` (a new directory is a step of `TableRuns`), TLB invalidation, and `get_pdt_paddr`. Permissions are those of the table entry; the processor also asks for those of the directory entry, which an existing slot keeps.
- src/kernel/process.c, except for the numbers, parents and registers it assigns; its failure paths are left out; that fork or execve fails is a parameter of the handlers.
- Scheduler.Scheduler.SysExit: needs a second runnable process, as does SysExecve; unlinking the only element dereferences a null pointer (src/kernel/scheduler.c:177-180).
- Scheduler.Scheduler.SysWait: models one turn of the loop; the turns after a resumption are further calls.
- Memory for list elements is assumed to be available, and numbers, addresses in registers and counters of the scheduler do not wrap around at 32 bits.
- Freeing of list elements and process resources; registers are values of the process, not pointers shared with other code.
- Interleavings inside kernel code: handlers are atomic, apart from timer interrupts between the steps of a system call.
- Trees that mkfs cannot hold: files of 2^24 bytes or more, names longer than 253 bytes, and images with fewer inodes or blocks than the tree needs.
- Host calls of mkfs and rdaefs: the input is a tree value, the output a listing value; error exits are left out.
- The choice of the mount point (src/kernel/vfs.c:32-52): one file system mounted at `/` is assumed; `vfs_mount`, devfs and open file descriptors are left out.
- Cursor port writes of the console, and its number printing.
- Keyboard, module, log, PIC, PIT, serial, GDT, IDT, TSS and all assembly code. The order in which the trap entry pushes registers is not modelled; registers start at the values the C code receives.
