# The kernel's memory core, initial ramdisk and tick wait, in Dafny

This project models the parts of the kernel on which everything else rests and proves what they
keep, over every state, every run and every input:

- **Buddy allocator** (`BuddyBlocks`, `BuddyMaps`, `BuddySpec`, `BuddyInvariant`, `BuddyTheorems`,
  `BuddyRelease`, `BuddyRequests`, `BuddyCounterexample`, `BuddyAllocator`). Eleven free lists with counters and
  eleven bitmaps describe a forest of binary trees. The invariant is local to each block; slicing,
  allocation, merging and release are sequences of four steps that keep it. From it follow the
  tiling of the managed range, the meaning of every bit, full coalescing, the exact failure
  condition, and that a release undoes an allocation down to the order of the lists. The class
  `Buddy` is the allocator itself, each method proved against the specification.
- **Frame bitmap** (`FrameSpec`, `FrameTheorems`, `FrameRuns`, `FrameBitmap`). Words of 32 frames cut
  into four submaps of group sizes 1, 2, 4 and 8.
- **Slab allocator** (`SlabLists`, `SlabSpec`, `SlabChains`, `SlabTheorems`, `SlabAllocator`). Three doubly linked
  lists of slabs, and in each slab an address-ordered chain of free chunks ended by a sentinel.
- **Paging, mapping and address-space cloning** (`PageTables`, `Mmu`, `Fork`). The two-level walk,
  mapping of kernel regions built on the buddy allocator and the bitmap, unmapping, and the clone
  of a whole directory with its page copies.
- **Initial ramdisk** (`TarParse`, `TarTable`, `TarListing`, `TarLookup`, `TarPaths`, `Octal`). From the
  archive in memory through the recursive parse, the entry table, the base names and the directory
  listings to the lookup of a path.
- **Tick wait** (`Pit`).

## What the code does not do

Several properties one would expect are false of the code. The model keeps the code as it is, shows
a failing input and proves the exact condition under which the property holds.

- A merge passes the released address up unchanged (mem/buddy_frame_alloc.c:282). `FreeAsWrittenIff`:
  the release is right if and only if that address is aligned to the order the merging reaches, that
  is (`AlignedIffLeftMerges`) every merge starts at a left half. `MergeFromRightHalf` gives a run of
  two allocations and two releases after which a 4 MiB request is answered with memory that ends
  outside the managed range. The variant `PairBase`, which passes the pair's base, is right for all
  releases.
- The bitmap search tests only the first frame of a group (mem/frame_alloc.c:170). `KeepsGroupsIff`:
  a request size keeps the groups whole if and only if it is 0, 1, 2 or 4 modulo 8.
  `TwiceHandedOut` shows requests for 3, 4 and 3 frames that hand out two frames twice.
- The marking loop keeps its place across one word boundary only (mem/frame_alloc.c:68-83).
  `MarksIff`: exactly the run is marked if and only if it has at most 32 frames, or 33 from the start
  of a word.
- A cloned user directory entry is stored without flags (mem/paging.c:339). `ClonePageDir` proves that
  it is not present, and states isolation for the software walk, which ignores directory flags.
- A directory listing steps by child counts (fs/initrd.c:136) and has no end of its own
  (fs/initrd.c:124). `RootListingIff` and `DirListingIff`: the listing shows exactly the children if
  and only if no child has grandchildren and, below the root, the directory ends the table. It never
  misses a child (`ListsEveryTop`).
- A path component matches any name that begins with it (fs/initrd.c:169). `FindsChildIff`: a child is
  found under its name if and only if no entry listed before it has a name beginning with that name.
  `LongerNameShadows` is an instance where it is not.
- `wait_ticks` takes one tick too many when the counter wraps on the way (drivers/pit.c:95).

## How the model is cut

- Integers are unbounded where the code stays in range; 32-bit wrap-around is written out in `Octal`
  and `Pit`. Bitmap words are sets of bit positions.
- `mem_start` is a multiple of 4 MiB, as 0xD0000000 is (mem/mmap.c:191); with 0x100000
  (proc/proc.c:64) the code's absolute bit numbers do not match natural alignment. Each order has a
  bitmap of its own, where the code packs the orders with a divided offset
  (mem/buddy_frame_alloc.c:337-339). List tails are NULL.
- `kmalloc` supplies fresh memory, page aligned where a table is wanted; it does not fail. Where kernel
  pointers lie in physical memory is a parameter (`Layout`), of which only this is asked.
- Page contents are a function from frames to pages, and `copy_page` copies one.
- Header names hold no NUL and fit their field; the archive is a sequence of headers laid out in
  memory and closed by an empty name.
- The child count of an empty directory is never written by the parser; listings take it as 0.
- A file node has no `opendir`, so a lookup that goes on below a file finds nothing.

## Model

| member | source | states |
|---|---|---|
| BuddySpec.BuddyOrderLeast | mem/buddy_frame_alloc.c:41-53 | the order chosen for a frame count is the smallest whose block holds it, and the top order beyond 1024 frames |
| BuddyMaps.MapIdIsBlk | mem/buddy_frame_alloc.c:123-132 | word and bit of an address are quotient and remainder of its block number at that order, for every order and address |
| BuddyMaps.BuddyIsSibling | mem/buddy_frame_alloc.c:134-139 | the map position with the lowest bit flipped is the sibling block, and its address is the sibling's base |
| BuddyInvariant.TakeValid | mem/buddy_frame_alloc.c:108-121 | taking a list head keeps the tree invariant; the block was not live and is in range |
| BuddyInvariant.SplitValid | mem/buddy_frame_alloc.c:162-182 | splitting a live block leaves its left half live, its right half listed, and the invariant intact |
| BuddyInvariant.MergeValid | mem/buddy_frame_alloc.c:263-288 | merging a live block with its free sibling makes the parent live and keeps the invariant |
| BuddyInvariant.PutValid | mem/buddy_frame_alloc.c:59-77 | listing a live block whose sibling is not free keeps the invariant |
| BuddyTheorems.CreateValid | mem/buddy_frame_alloc.c:345-382 | the created state satisfies the invariant with nothing live |
| BuddyTheorems.SliceValid | mem/buddy_frame_alloc.c:162-182 | recursive slicing replaces a live block by its leftmost sub-block of the target order and keeps the invariant |
| BuddyTheorems.AllocValid | mem/buddy_frame_alloc.c:184-224 | a success makes one aligned managed block live, none of whose bytes was live; a failure changes nothing |
| BuddyTheorems.Tiling | mem/buddy_frame_alloc.c:162-224 | every managed byte lies in exactly one block that is either listed free or live |
| BuddyTheorems.HeldIsManaged | mem/buddy_frame_alloc.c:162-224 | no free or live block reaches outside the managed range |
| BuddyTheorems.ManagedIsInterval | mem/buddy_frame_alloc.c:345-382 | the managed bytes are exactly the interval of the top blocks |
| BuddyTheorems.BitMeaning | mem/buddy_frame_alloc.c:141-160 | a bit is set if and only if its block is live or holds a smaller block that is free or live |
| BuddyTheorems.SplitHasLive | mem/buddy_frame_alloc.c:263-288 | a split block always has a live byte: coalescing is complete |
| BuddyTheorems.AllocFailsIff | mem/buddy_frame_alloc.c:184-224 | ENOMEM if and only if every aligned run of the requested order has a live byte |
| BuddyRelease.Coalescing | mem/buddy_frame_alloc.c:263-288 | the base-passing variant of the merge keeps the invariant for every live block |
| BuddyRelease.AsWrittenIsReheaded | mem/buddy_frame_alloc.c:263-288 | the source's merge and the variant differ in exactly the address of the block finally listed |
| BuddyRelease.FreeFindsOrder | mem/buddy_frame_alloc.c:290-305 | a release with any count the block can hold climbs to exactly the order of the allocation |
| BuddyRelease.FreePairBase | mem/buddy_frame_alloc.c:263-305 | under the variant a release of any live block keeps the invariant |
| BuddyRelease.FreeAsWrittenIff | mem/buddy_frame_alloc.c:263-305 | the source's release is valid, and equal to the variant's, if and only if the address is aligned to the order merging reaches; otherwise no set of live blocks explains the lists |
| BuddyRelease.AlignedIffLeftMerges | mem/buddy_frame_alloc.c:263-288 | that alignment holds if and only if every merge starts at the left half |
| BuddyRelease.FreeUndoesAlloc | mem/buddy_frame_alloc.c:79-224 | freeing the block just allocated restores every list as a sequence, every counter and every bitmap, in the source's version too |
| BuddyRelease.NestRestores | mem/buddy_frame_alloc.c:162-305 | any well-nested run of allocations and releases returns to its starting state |
| BuddyRelease.StepValid | mem/buddy_frame_alloc.c:184-305 | every enabled operation keeps the invariant, and the two versions agree on enabled releases |
| BuddyRelease.RunsValid | mem/buddy_frame_alloc.c:184-382 | every state of every run from a created allocator is valid: all releases under the variant, left-half merges under the source's version |
| BuddyCounterexample.MergeFromRightHalf | mem/buddy_frame_alloc.c:282-282 | a concrete run after which an allocation ends outside the managed range |
| BuddyAllocator.GetBuddyOrder | mem/buddy_frame_alloc.c:41-53 | the order loop returns the least sufficient order |
| BuddyAllocator.Buddy.constructor | mem/buddy_frame_alloc.c:345-382 | creation yields a valid allocator of whole 4 MiB blocks inside the given range |
| BuddyAllocator.Buddy.InsertBuddy | mem/buddy_frame_alloc.c:59-77 | listing an aligned address makes exactly its block free besides those that were, and proper lists stay proper if the block was in range and not free |
| BuddyAllocator.Buddy.RemoveFreeFrame | mem/buddy_frame_alloc.c:79-106 | the list loop removes exactly the entry covering the address |
| BuddyAllocator.Buddy.RemoveFreeHead | mem/buddy_frame_alloc.c:108-121 | of proper lists exactly the head's block stops being free and all stay proper; an empty list is left alone |
| BuddyAllocator.Buddy.SetFrameUsed | mem/buddy_frame_alloc.c:147-151 | exactly the bit of the address's block at that order is set |
| BuddyAllocator.Buddy.SetFrameUnused | mem/buddy_frame_alloc.c:141-145 | exactly that bit is cleared |
| BuddyAllocator.Buddy.BuddySlice | mem/buddy_frame_alloc.c:162-182 | returns the block's own address and leaves the sliced state of the specification |
| BuddyAllocator.Buddy.AllocFramesMaxOrder | mem/buddy_frame_alloc.c:184-224 | keeps the invariant; fails if and only if no aligned run is free of live bytes; a success is aligned, in range and fresh |
| BuddyRequests.NoRoom | mem/buddy_frame_alloc.c:226-257 | if the next piece finds no aligned run without a live byte, there never was room for all pieces in different top blocks: serving the pieces greedily loses nothing |
| BuddyRequests.Answer | mem/buddy_frame_alloc.c:226-257 | a fresh aligned block for the next piece lies in a top block no earlier piece has taken |
| BuddyRequests.RequestsAddUp | mem/buddy_frame_alloc.c:226-257 | the pieces of a request add up to exactly the count asked for, each 1 to 1024 frames and all but the last 1024 |
| BuddyRequests.ServedTightly | mem/buddy_frame_alloc.c:226-257 | the blocks handed out for a request hold together the whole count: whole 1024-frame blocks and, for the rest, the least power of two that holds it |
| BuddyAllocator.Buddy.AllocFrames | mem/buddy_frame_alloc.c:226-257 | a request of any size is served by fresh aligned blocks in different top blocks whose frames hold the count with the least to spare; it succeeds if and only if the state before had room for all pieces |
| BuddyAllocator.Buddy.FindBuddy | mem/buddy_frame_alloc.c:263-275 | the computed position and address are those of the sibling block |
| BuddyAllocator.Buddy.BuddyCoalesce | mem/buddy_frame_alloc.c:263-288 | performs the source's merge; the entry it removes is always listed |
| BuddyAllocator.Buddy.FreeFramesRec | mem/buddy_frame_alloc.c:290-300 | the climb ends at the block's order and never passes the top |
| BuddyAllocator.Buddy.FreeFrames | mem/buddy_frame_alloc.c:302-305 | removes exactly the block from the live ones; the allocator stays valid if and only if the address is aligned to the merged order |
| FrameSpec.ShortRunMarked | mem/frame_alloc.c:68-83 | up to 32 frames, or 33 from a word's start, the marked frames are the consecutive run across the word boundary |
| FrameSpec.MarksIff | mem/frame_alloc.c:68-83 | the marked frames are the run if and only if the count is within those bounds |
| FrameSpec.FrameMetaInverse | mem/frame_alloc.c:85-94 | word and bit of a page address, and the address of a word and bit, are inverse |
| FrameTheorems.NothingFoundIff | mem/frame_alloc.c:156-180 | a word offers no group if and only if its submap is full |
| FrameTheorems.FoundCount | mem/frame_alloc.c:182-210 | for every count, a search hands out at most that many frames and succeeds if and only if it hands out all |
| FrameTheorems.SearchSound | mem/frame_alloc.c:182-210 | a search marks exactly the frames it hands out; they are distinct, in range and were unused; it succeeds if and only if it hands out all |
| FrameTheorems.SearchSucceedsIff | mem/frame_alloc.c:182-210 | the greedy search succeeds if and only if some choice of words in increasing order serves all pieces |
| FrameTheorems.GroupFailsIff | mem/frame_alloc.c:182-214 | a single group is refused if and only if its submap is full in every word; for one frame, the low eight bits of every word |
| FrameTheorems.SingleFoundIff | mem/frame_alloc.c:182-214 | a request for one frame succeeds if and only if one of the low eight frames of some word is free, and takes one of those |
| FrameRuns.StepGood | mem/frame_alloc.c:182-233 | searches and releases of whole groups keep groups uniform and live frames marked |
| FrameRuns.RunsGood | mem/frame_alloc.c:182-233 | in every run no live frame is handed out again |
| FrameRuns.KeepsGroupsIff | mem/frame_alloc.c:96-180 | a request size keeps groups uniform if and only if it is 0, 1, 2 or 4 modulo 8 |
| FrameRuns.BadCountTears | mem/frame_alloc.c:170-170 | every other size tears a group in some memory |
| FrameRuns.TwiceHandedOut | mem/frame_alloc.c:170-170 | requests for 3, 4 and 3 frames hand out frames 20 and 21 twice |
| FrameBitmap.GetFrameMeta | mem/frame_alloc.c:85-90 | word and bit name the frame that holds the address |
| FrameBitmap.GetFrameSubmapMask | mem/frame_alloc.c:96-105 | the mask is the eight bits of the size class |
| FrameBitmap.Bitmap.SetFrameUsed | mem/frame_alloc.c:59-66 | adds exactly one frame, and reports it if and only if it was used |
| FrameBitmap.Bitmap.SetNframesUsed | mem/frame_alloc.c:68-83 | adds exactly the marks, the consecutive run up to 32 frames; reports an error if and only if one of them was used |
| FrameBitmap.Bitmap.AllocNframes | mem/frame_alloc.c:107-143 | takes the run from an address and returns each page address or-ed with the flags, for all addresses and flags |
| FrameBitmap.Bitmap.FindFrameInMap | mem/frame_alloc.c:156-180 | for 1 to 8 frames, serves at the first stepped bit of the class that is free, marking exactly the frames from there on |
| FrameBitmap.Bitmap.FindAllocNframes | mem/frame_alloc.c:182-210 | for every count the word loop computes the specified search and returns its frames' addresses or-ed with the flags |
| FrameBitmap.Bitmap.SetNallocAddrs | mem/frame_alloc.c:149-154 | one entry per frame of the group, address or-ed with the flags |
| FrameBitmap.Bitmap.DeallocFrame | mem/frame_alloc.c:226-233 | frees exactly the frame of the address |
| FrameBitmap.Bitmap.DeallocNframes | mem/frame_alloc.c:220-224 | frees exactly the consecutive run |
| PageTables.WalkAfterSplice | mem/paging.c:59-80 | writing entries into one table changes the entries found by the walk for exactly their pages |
| PageTables.FlagBits | include/mem/paging.h:33-62 | the present and user tests read the bits that the flag constants stand for |
| PageTables.PresentCleared | mem/paging.c:393-396 | clearing the present flag makes an entry not present and keeps every other bit, its frame and its user flag |
| PageTables.FrameOr | mem/paging.c:206-212 | or-ing flags into an entry keeps its frame, for every entry and all twelve flag bits |
| PageTables.AddsFlags | mem/paging.c:203-211 | the entry stored for a table already there has, bit for bit, its old bits less the accessed flag and the flags asked for |
| PageTables.OrUser | mem/paging.c:188-224 | or-ing flags into an entry sets the user bit if and only if one of them has it |
| Mmu.RunInTable | mem/mmap.c:17-45 | a run of pages at the start of a naturally aligned block never leaves its page table |
| Mmu.RunMapped | mem/mmap.c:47-73 | after the entries are written each page of the run has its entry and every other mapped page the whole entry it had |
| Mmu.EntriesMap | mem/mmap.c:47-73 | consecutive entries translate every byte of the run to the matching physical byte, under the flags asked for |
| Mmu.SlotLinked | mem/paging.c:188-224 | asking for a table keeps every present directory entry naming the frame of the table its pointer reaches |
| Mmu.Kernel.AllocPt | mem/paging.c:177-186 | a fresh zeroed table and the physical address of exactly that pointer, page aligned |
| Mmu.Kernel.MapAllocPt | mem/paging.c:188-229 | the directory has a table afterwards: a present entry keeps its table and frame, loses the accessed flag and gains the flags bit by bit; otherwise a fresh table whose entry names its frame with just the flags; no other slot changes |
| Mmu.Kernel.KnmmapTable | mem/mmap.c:17-45 | reserves a fresh aligned block whose pages share one table, changing only that table's slot, whose entry gains the flags |
| Mmu.Kernel.Knmmap | mem/mmap.c:47-73 | virt+x translates to phys+x for the whole region (or to the found frames), each entry with exactly the flags asked for; every other mapped page keeps its whole entry; it fails if and only if the page allocator refuses or, with no address given, the frame search does |
| Mmu.Kernel.UnmapPage | mem/paging.c:393-396 | one entry is not present afterwards and has all its other bits; nothing else changes |
| Mmu.Kernel.UnmapPages | mem/paging.c:398-412 | exactly the entries from pde*1024+pte for the count, cut off at the end of the directory, are not present afterwards and keep all other bits; every other entry is as before |
| Fork.KnmunmapContiguous | mem/mmap.c:104-114 | gives the block back to the buddy allocator; exactly its pages' entries are not present afterwards and keep all other bits |
| Fork.MapsOneIff | mem/paging.c:231-237 | a temporary mapping can be had if and only if some page of the mapping area is not in use |
| Fork.MapTemporarily | mem/paging.c:231-243 | succeeds if and only if such a page is left; the temporary page then walks to the target frame, the source page still to its own, and releasing it will restore the allocator |
| Fork.UnmapTemporarily | mem/paging.c:231-243 | the buddy allocator is back in its earlier state; outside the mapping area every directory entry is as it was, bit for bit |
| Fork.CopyPage | mem/paging.c:231-243 | succeeds if and only if a page of the mapping area is left; the target frame then holds the source page's bytes, and no other frame, no bitmap bit and no allocator state changes |
| Fork.FindAllocFrame | mem/frame_alloc.c:212-214 | succeeds if and only if a single frame is left; a frame that was free, with the flags asked for, is then the only new one marked |
| Fork.ClonePage | mem/paging.c:263-275 | one user page is copied to a frame of its own with the same flags, if and only if there is a frame and a page to copy it through |
| Fork.ClonePageTable | mem/paging.c:245-284 | if and only if there are frames for all its user pages and a page to copy through: every present user page of the table has been copied to its own new frame, every other entry is shared, and exactly those frames are new |
| Fork.PageCountIs | mem/paging.c:245-350 | the number of frames a clone asks for is the number of present user pages behind present user tables |
| Fork.CloneIsolates | mem/paging.c:296-350 | slot by slot cloning yields isolated address spaces |
| Fork.AllCopied | mem/paging.c:317-345 | the physical entries of a finished clone: the old directory loses only accessed flags, every slot that is not a user's is the same in both, every table of the new one is named by its entry, user entries carry no flag |
| Fork.ClonePageDir | mem/paging.c:296-350 | succeeds if and only if there is a page to copy through and a free single frame for every user page. Then: same bytes and flags through the new directory for every user page, on frames that were free and serve no other page; every other page has the same whole entry in both; slots that are not a user's have the same directory entry in both, and the old directory loses only accessed flags outside the mapping area; nothing in use is overwritten and every frame taken holds a copy; cloned directory entries name their tables and are not present |
| SlabLists.InsertList | mem/slav_allocator.c:35-51 | inserting after a list head puts the slab first, links consistent both ways |
| SlabLists.InsertOther | mem/slav_allocator.c:35-51 | the other lists are untouched |
| SlabLists.RemoveList | mem/slav_allocator.c:23-33 | unlinking removes exactly that slab, order kept |
| SlabLists.RemoveOther | mem/slav_allocator.c:23-33 | the other lists are untouched |
| SlabSpec.AddSlabInv | mem/slav_allocator.c:54-138 | a new slab keeps the invariant and makes nothing live |
| SlabSpec.AllocInv | mem/slav_allocator.c:211-258 | exactly one object, not live before, becomes live; every slab is in the list its free count calls for |
| SlabSpec.AllocChoice | mem/slav_allocator.c:211-242 | an allocation draws on a partly free slab while there is one, then on a wholly free one, and on new memory only when every slab is full; it takes the lowest free chunk |
| SlabSpec.FreeInv | mem/slav_allocator.c:282-331 | exactly the released object stops being live; the invariant holds |
| SlabSpec.NoOverlap | mem/slav_allocator.c:77-109 | two different objects of a cache share no byte |
| SlabSpec.ClearOfHeaders | mem/slav_allocator.c:54-109 | an object lies behind its slab's header, clear of every chunk header and of the sentinel, and within the memory asked for |
| SlabTheorems.Conservation | mem/slav_allocator.c:211-331 | the objects callers hold and the `num_free` counters of the slabs add up to 16 times the number of slabs |
| SlabTheorems.FreeUndoesAlloc | mem/slav_allocator.c:211-331 | releasing the object just allocated restores the cache, list orders included; where no slab had room it leaves the new slab, wholly free |
| SlabTheorems.StepGood | mem/slav_allocator.c:211-331 | every operation keeps the invariant and the record of what callers hold; an allocation returns nothing held, sharing no byte with anything held |
| SlabTheorems.RunsSound | mem/slav_allocator.c:211-331 | in every run, with the objects handed out recorded apart from the cache, they are exactly the chunks not free, never overlap, and are never handed out again |
| SlabChains.ChainIff | mem/slav_allocator.c:85-133 | the slab invariant holds if and only if the links in memory lead from the base chunk upward through exactly the free slots and `num_free` links reach the sentinel |
| SlabChains.FindPrevious | mem/slav_allocator.c:323-325 | the search loop stops at the last free chunk below the released one, never past the sentinel |
| SlabChains.ReturnChunk | mem/slav_allocator.c:305-329 | the chunk is linked back in address order, the count grows by one |
| SlabAllocator.SlabCache.constructor | mem/slav_allocator.c:140-163 | a cache with one free slab |
| SlabAllocator.SlabCache.SlabInsertInCache | mem/slav_allocator.c:35-51 | whatever the list after the head was, it is that list with the slab in front; every list disjoint from it is as before |
| SlabAllocator.SlabCache.SlabRemoveFromCache | mem/slav_allocator.c:23-33 | whatever list the slab was in, it is that list without it; every list disjoint from it is as before |
| SlabAllocator.SlabCache.AllocSlab | mem/slav_allocator.c:54-138 | sixteen linked chunks at the head of the free list; lists, chains and headers agree with the specification |
| SlabAllocator.SlabCache.CountsHold | mem/slav_allocator.c:211-331 | in every state of the allocator itself, what callers hold and its counters make 16 per slab |
| SlabAllocator.SlabCache.AllocFromCache | mem/slav_allocator.c:211-258 | returns the lowest free chunk of the chosen slab, which no caller holds, records it, and moves the slab to its list |
| SlabAllocator.SlabCache.SlabFree | mem/slav_allocator.c:282-331 | releases exactly the object held at the address; a null pointer changes nothing |
| TarParse.GetFileDepth | fs/initrd.c:255-265 | the depth loop counts the slashes before the last character |
| TarParse.DepthOfPath | fs/initrd.c:255-265 | an entry under a prefix of d-1 components has depth d, as a file or as a directory |
| TarParse.ParsesForest | fs/initrd.c:267-328 | an activation takes in exactly a forest's headers, adds its entries in pre-order with their child counts, and tells its parent the number of top entries |
| TarParse.ParseRoundTrip | fs/initrd.c:267-349 | parsing the archive of any forest gives the root and the forest's entries in archive order, each non-empty directory with its number of direct children |
| TarTable.ParseTables | fs/initrd.c:267-328 | for any header sequence, an activation enters each real header it passes and stops only at the end or at a shallower entry |
| TarTable.ParseConsumesAll | fs/initrd.c:267-349 | the parse of any archive, in whatever order, reaches its end and enters each real header once, in order |
| TarTable.PlacedNode | fs/initrd.c:291-322 | whatever the archive, node k stands for the k-th real header: its address, its payload right behind it, its size, and a directory if and only if the name ends in a slash |
| TarTable.PayloadsApart | fs/initrd.c:315-322 | payloads start right after their headers and end before the next entry's header |
| TarTable.Parser.TarParseRec | fs/initrd.c:267-328 | the recursive loop over memory terminates and computes the specified parse |
| TarTable.Parser.PassHeader | fs/initrd.c:291-322 | enters a real header of the activation's depth with its address, payload, size and kind, and moves the cursor past header and payload |
| TarTable.ParseArchive | fs/initrd.c:330-349 | one node for the root and one for each real header, each with that header's address, payload interval, size and kind; the entry count and the size of the archive |
| TarTable.BuildTree | fs/initrd.c:394-412 | the table filled from its end equals the last entries of the list in archive order, and the list's tail pointer is never followed |
| TarListing.WalkLands | fs/initrd.c:121-138 | a listing that enters a subtree anywhere comes exactly to the subtree's end |
| TarListing.ListsEveryTop | fs/initrd.c:121-138 | a listing shows every direct child once and in order, whatever the archive's shape |
| TarListing.ListsOnlyTopsIff | fs/initrd.c:121-138 | it shows nothing else before the forest's end if and only if no top node has grandchildren |
| TarListing.RootListingIff | fs/initrd.c:121-138 | the root's listing is exactly its children if and only if no child has grandchildren |
| TarListing.DirListingIff | fs/initrd.c:121-138 | another directory's listing is exactly its children if and only if, besides, the directory ends the table |
| TarListing.DirHandle.ReadDir | fs/initrd.c:121-138 | returns the next listed entry and advances the offset past it, or nothing at the end |
| TarLookup.ParseFileBasename | fs/initrd.c:236-253 | the backward loop finds the last component, without a closing slash |
| TarLookup.BasenameOfPath | fs/initrd.c:236-253 | the base name of an entry's path is the node's own name |
| TarLookup.BuildFs | fs/initrd.c:351-391 | every entry is given its base name, kind, size and child count |
| TarLookup.MountedTable | fs/initrd.c:330-412 | parsing and naming the archive of a forest gives the forest's table |
| TarLookup.ArchiveNodes | fs/initrd.c:267-412 | the list parsed from the archive of any forest describes the forest's nodes in pre-order: kind, size and number of children |
| TarPaths.ParseFileDirName | fs/initrd.c:172-186 | the loop finds the length of the first component, slash included |
| TarPaths.PiecesJoin | fs/initrd.c:172-234 | the pieces of a path are non-empty components and make up the path again |
| TarPaths.PiecesUnique | fs/initrd.c:172-234 | no other sequence of components makes up the path |
| TarPaths.Strneq | lib/slibc.c:77-88 | equal if and only if the strings agree up to the length or their common end |
| TarPaths.EntNameEq | fs/initrd.c:162-170 | true if and only if the entry's name begins with the component, less the slash for a directory |
| TarPaths.Search | fs/initrd.c:208-228 | the listing loop finds the first match |
| TarPaths.GetNode | fs/initrd.c:188-234 | the lookup terminates and resolves the whole path when it has at most 256 characters, and its first 256 otherwise; a path without a leading slash gives nothing |
| TarPaths.ResolveIff | fs/initrd.c:188-234 | a node is returned if and only if a chain of first matches, one listed entry for each component, leads to it |
| TarPaths.FindsChildIff | fs/initrd.c:162-234 | a child is found under its name if and only if no entry listed earlier begins with that name |
| TarPaths.LookupFinds | fs/initrd.c:188-234 | every node at any depth is found under its path if no component is taken earlier |
| TarPaths.NameFinds | fs/initrd.c:188-234 | a node whose path has at most 256 characters and is not taken earlier is found under a slash and its path: the cut at the name size loses nothing |
| TarPaths.TopLookupIff | fs/initrd.c:188-234 | for a node at the top of the directory searched, if and only if |
| TarPaths.ShadowedStillFound | fs/initrd.c:188-234 | below the top not only if: a node whose directory is taken by another, and which the other's listing still reaches |
| TarPaths.ArchiveLookup | fs/initrd.c:188-412 | from the archive to the lookup: the entry found under a node's path is the one whose header bears that path |
| TarPaths.LongerNameShadows | fs/initrd.c:169-169 | with files ab and a, looking up a finds ab |
| Octal.Atoi | lib/slibc.c:7-19 | the digit loop computes the number modulo 2^32, passing over NUL bytes |
| Octal.SizeRoundTrip | lib/slibc.c:7-19 | a ustar size field of eleven octal digits is read back exactly below 4 GiB |
| Octal.LargeSizeWraps | lib/slibc.c:7-19 | of all sizes the field can hold, exactly those below 4 GiB are read back |
| Pit.Timer.Halt | drivers/pit.c:55-59 | one tick passes, in 32 bits |
| Pit.Timer.WaitTicks | drivers/pit.c:86-102 | returns after exactly the delay if the counter does not wrap on the way, and after one more tick if it does |

## Left out

- BuddyAllocator.Buddy.constructor: asks for a start that is a multiple of 4 MiB, because with another (proc/proc.c:64) the bit numbers, taken from absolute addresses, do not pair the blocks that the free lists hold.
- BuddyAllocator.Buddy.RemoveFreeFrame: asks that an entry covers the address, because the code follows the last link otherwise; `BuddyCoalesce` shows that one always does.
- BuddyAllocator.Buddy.InsertBuddy: the allocation of the list node does not fail.
- FrameBitmap.Bitmap.FindFrameInMap: asks that the frames served lie within the bitmap, because for 5, 6 or 7 frames the code may mark past its last word.
- FrameBitmap.Bitmap.FindAllocNframes: asks the same of the whole answer; for counts of 0, 1, 2 or 4 modulo 8 `SearchSound` shows it.
- Mmu.Kernel.AllocPt: the physical address of a new table is given by the heap's layout, a parameter, where the code walks the current directory.
- Mmu.Kernel.Knmmap: stated for 1 to 1024 pages, since a larger count overruns the page table, and for a page-aligned physical address and flags below 4096, since other flags are or-ed into the address; of the state after a failed mapping only that allocator, bitmap and directory are consistent, because the code keeps what it has reserved. It asks for a directory whose entries are present exactly where there are tables, which a cloned directory is not (mem/paging.c:339).
- Fork.KnmunmapContiguous: does not release frames in the bitmap, because the code passes the virtual address there (mem/mmap.c:112).
- Fork.UnmapTemporarily: leaves out the same release.
- Fork.CopyPage: leaves out the same release.
- Fork.ClonePageTable: the frames of the user pages are marked in the bitmap; a page on an unmarked frame could be given its own frame as the copy.
- Fork.ClonePageDir: user tables lie below the kernel's mapping area, the frames of user pages and frame 0 are marked, directory entries are present exactly where there are tables and name them. A cloned directory does not meet this, its user entries not being present, so nothing is stated of cloning or mapping in a child. When a clone fails is stated exactly, the state it then leaves is not, because the code abandons it half-way.
- TarLookup.BuildFs: the node's mode, owner, inode number and operations are left out.
- `buddy_alloc_clone`, `buddy_alloc_clean`, `buddy_alloc_destroy`, `slab_cache_destroy`: copying and teardown with no new invariant.
- Slab caches with an alignment, and the `prev_free` pointers, which no operation reads.
- `kmalloc` and `kfree` (mem/allocator.c), `map_pages`, `mmap_pages`, `kfsmmap` and the page-fault handler.
- TLB flushes, control registers and all assembly.
- Modes, owners and the 8-byte number fields of an archive header, of which `atoi` reads twelve bytes.
- Reading and mapping file contents, and the array in a directory handle where listed entries are stored.
- Scheduling, processes, system calls, drivers other than the tick wait, and the user interface.
