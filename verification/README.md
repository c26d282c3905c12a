# A model of the QiOS memory manager

QiOS is a small x86_64 kernel. This project models its memory management, and four pieces of its
library, in Dafny and proves what they are for:

- **Paging** (`PageTables`, `RecursiveSlot`, `WindowWords`, `PagingSpec`, `PagingRefinement`,
  `Paging`, `PagingInit`). Physical memory is a set of slots, each an entry of a frame number and flags;
  the processor's walk (section 5.3 of the AMD64 Architecture Programmer's Manual, Volume 2) is a
  function. `Paging.Mmu` holds the code of map, unmap and translate: every entry is reached
  through an address of the recursive window that the walk translates; `WindowWords` ties these
  addresses to the words that the shifts and masks of the code compute. `PagingSpec` says what
  these methods compute, `PagingRefinement` that this is a flat partial map from pages to frames and
  flags, over every run, and `PagingInit` that start-up builds tables that map themselves.
- **Kernel heap** (`HeapView`, `HeapLinks`, `HeapAlign`, `HeapState`, `HeapClaims`, `KHeap`).
  Block and chunk headers are records at addresses, with the source's links. A ghost view, a list
  of blocks with lists of chunks, is tied to them by the invariant `HeapState.HeapOk`.
- **Frames and address ranges** (`Bits`, `BitmapSearch`, `BmpPageAllocators`, `FrameStack`,
  `PageAllocators`, `AddressPools`): the packed bitmap, the free stack whose nodes live in the
  free frames, the dispatcher over both, and the pool of virtual ranges.
- **Library** (`Strchrs`, `Mutexes`, `Memcpy`, `Numbers`): word-at-a-time `strchr`, the recursive
  mutex as a state machine over its memory accesses, `memcpy`, and numbers to text and back.

## Where the code departs from its purpose

The code is kept, and where it is wrong the model carries both: `AsWritten` is the source,
`Corrected` the intended computation (`Forms`; for the mutex the processor number is a parameter). For each
departure a lemma says exactly when the code as written is right, with a failing input:

| departure | exactly right when | lemma |
|---|---|---|
| the PML4 constant has lowest index 511, not 510 (`Paging.cpp:29`) | a map request faults if and only if its root entry is empty; for lookups the probed entry must tell as much as the root entry | `PagingRefinement.MapFaultsIff`, `PagingRefinement.LookupRefines`, `PagingInit.LiteralMapFaults` |
| until the memory manager is set up, tables are taken from `g_LastUsed`, which start-up leaves at the old buffer, below the tables that it has built (`Paging.cpp:62-69`, `MemoryManager.cpp:108-116`) | the pointer, rounded up to a page, has reached the new buffer | `PagingInit.BootReady`, `PagingInit.OldBufferFaults`, `PagingInit.OldBufferLoses` |
| the alignment record is written below the pointer before rounding (`KHeap.cpp:32`) | the chunk is 16-byte aligned | `HeapAlign.LiteralUnalignIff` |
| case 2 of the heap leaves the header's request field as it was, and `ReAlloc` goes by it (`KHeap.cpp:222-241`, `483-494`) | a chunk that stays has room for the new size, or one that moves had no less recorded than was asked for; for every new size, what is recorded lies between the request and the room behind the pointer | `HeapClaims.MoveRightIff`, `HeapClaims.AnySizeRightIff`, the contract of `KHeap.KHeap.ReAlloc`; `KHeap.NothingBrought` is a run that copies 0 of 16 bytes |
| the sums of a request wrap at 2^64 (`KHeap.cpp:144-147`, `191`) | request, rounding and header fit 64 bits, or the first sum wraps to 0 and the code stops, or not even the remainder is free | `HeapState.AllocRightIff`, the contract of `KHeap.KHeap.Alloc` |
| the page count of a new block is compared as an `int`, and its bytes wrap (`KHeap.cpp:108-119`) | the bytes fit 64 bits, and the count, read as an `int`, is not below the minimum, or the minimum suffices | `HeapAlign.NewBlockFitsIff`, `HeapAlign.TooFewPages` |
| the page for a stack node is mapped without override and the status ignored, and a page given back stays mapped (`StackPageAllocator.cpp:54-64`, `MemoryManager.cpp:153-167`) | push: the page handed out is unmapped, or mapped to that very frame; pop: so is the page of the rest, and the node pushed midway does not go into another node's frame | `FrameStack.PushLinkedIff`, `FrameStack.PopLinkedIff`, `FrameStack.StaleRun` |
| the general run search adds `1 << j` for `j` (`BmpPageAllocator.cpp:153`) | at most one frame is asked for | `BitmapSearch.LiteralSoundIff` |
| the single-frame search counts frames where it reads words (`BmpPageAllocator.cpp:72`) | some frame is free | `BitmapSearch.LiteralFirstFreeIff` |
| the inner loop of the run search moves the word but keeps the bit, so runs are missed even with both repairs (`BmpPageAllocator.cpp:157-164`) | one frame is asked for | `BitmapSearch.FindsAnyIff` |
| page counts are converted in 32 bits (`MemoryManager.cpp:29-35`) | the bytes fit 32 bits | `PageAllocators.ConvertIff` |
| the bytes in use are computed in 32 bits (`PageAllocator.cpp:37-38`) | fewer than 2^20 frames are in use | `PageAllocators.BytesIff` |
| a range is split behind its size in 32 bits, before it shrinks, and its rest is a signed number (`AddressPool.cpp:35-41`, `196-207`) | the range is taken whole, or the rest is below 2^31 pages and the wrapped size is that of the pages taken | `AddressPools.LiteralTakeIff`, `AddressPools.KernelPoolRepeats` |
| merging compares the tail with the next base (`AddressPool.cpp:155`) | nothing is to be merged | `AddressPools.LiteralMergeIff` |
| page counts of ranges are 32 bits wide (`AddressPool.cpp:27`, `156`) | a range added has fewer than 2^32 pages; two neighbours that merge have fewer together | `AddressPools.AddCoversIff`, `AddressPools.JoinKeepsIff`, `AddressPools.WideMergeLoses` |
| a negative `char` fills the mask with ones (`strchr.cpp:18`, `48`) | the character is below 128 or is 255 | `Strchrs.LiteralIff` |
| the processor number is a constant 0 (`mutex.cpp:77`, `84`) | there is one processor | `Mutexes.StubIff`, `Mutexes.ExcludesIff` |
| `reverse` of an empty string starts at index 2^64 - 1 (`reverse.cpp:19`) | the string is not empty | `Numbers.Reverse` |
| `atoi` does not read the sign that `itoa` writes (`atoi.cpp:21-26`) | the number is not negative | `Numbers.SignedRoundTripIff` |
| `memcpy` moves upwards in strides | the regions do not overlap, or the destination is not above the source, or one stride does it all | `Memcpy.CopiesIff` |

Further, without a condition to state: `KHeap::Alloc` acquires its mutex a second time where it
should release it when not even a first block can be had (in the contract of `KHeap.KHeap.Alloc`);
`StackPageAllocator::Alloc` hands a frame out with a stack node in it, written after the frame was
zeroed, and loses one virtual page per call (in its contract, from a valid stack): so no run of
calls takes more frames from the stack than the pool has pages that are not lost
(`FrameStack.RunBounded`), and after the last the pool goes on through a null pointer, here the
outcome `NoPage` and for `AddressPools` the status `Fault`; a single frame freed at an address
inside a page stays outstanding for ever (`PageAllocators.PageAllocator.Free`).

What keeps the free stack right over a whole run is the pool of virtual pages. As long as pages are
taken and given back one at a time, first fit answers with the page that was just given back, still
mapped to the frame it is now wanted for, or with one that was never mapped
(`FrameStack.RunLinked`; that first fit answers with the lowest free page is
`AddressPools.RunOrdered`). So the contracts of `StackPageAllocator`, in the form as written, start
from a clean space: every mapped page is taken, and the taken pages have no gap. A `VirtualFree` of
several pages keeps that exactly when none of them is mapped and none above them is taken
(`FrameStack.GiveCleanIff`), and after one that does not, a push writes its node into a frame that
is no longer the stack's (`FrameStack.StaleRun`). The booted kernel does not start clean:
`SetupKernelHeap` maps the first 0x2000 pages of the pool without taking them, so a node lands
right only in the one frame of the heap that its page shows (`FrameStack.HeapOverPool`). Already
the first frame taken after that leaves the stack unlinked, with its node in a frame of the heap
(`FrameStack.BootUnlinks`).

Documentation and code differ in two places, and the model follows the code: mapping and
translating answer `E_ARG_NULL` only when both arguments are zero (`Paging.hpp:48`, `72`), and a
mapping without memory for tables panics instead of returning `E_MEMMAN_OUTOFMEM`
(`Paging.hpp:73-74`).

## Model

| member | source | states |
|---|---|---|
| `RecursiveSlot.PointersLand` | src/kernel/arch/x86_64/Paging.cpp:26-42 | for every address, the computed recursive addresses, run through the processor's walk, land exactly on that address's P4 (with the corrected constant), P3, P2 and P1 entries, each as soon as the entries above are links |
| `RecursiveSlot.LiteralP4Lands` | src/kernel/arch/x86_64/Paging.cpp:29-29 | the PML4 constant as written lands in the table below root entry 511 instead |
| `RecursiveSlot.PointerPaths` | src/kernel/arch/x86_64/Paging.cpp:113-133 | the four nine-bit indices and the entry number that each computed address decodes to |
| `RecursiveSlot.IndexWordExact` | src/include/kernel/mm/Paging.hpp:33-38 | the index macros, with their truncation to 32 bits, give the nine bits of the address |
| `WindowWords.IndicesArePath` | src/include/kernel/mm/Paging.hpp:33-38 | for every 64-bit address the four index macros, truncation included, denote the indices of the number that the address denotes |
| `WindowWords.P1Bridge` | src/kernel/arch/x86_64/Paging.cpp:130-133 | the word that the code joins for the P1 entry, with its sign extensions, denotes the address used in the proofs, for every virtual address |
| `WindowWords.P2Bridge` | src/kernel/arch/x86_64/Paging.cpp:125-126 | the same for the P2 entry |
| `WindowWords.P3Bridge` | src/kernel/arch/x86_64/Paging.cpp:119-120 | the same for the P3 entry |
| `WindowWords.P4Bridge` | src/kernel/arch/x86_64/Paging.cpp:114-114 | the same for the root entry, with the constant as written and with the one it is meant to be |
| `PageTables.WalkIsLocate` | src/kernel/arch/x86_64/Paging.cpp:111-134 | in a well-formed tree the code's tests for zero entries find a page's entry exactly where the processor's walk does |
| `PageTables.AddTable` | src/kernel/arch/x86_64/Paging.cpp:236-275 | hanging a fresh zeroed table keeps the tree unshared and every page's translation |
| `PageTables.SetLeaf` | src/kernel/arch/x86_64/Paging.cpp:279-284 | writing the last entry changes the translation of that page only |
| `PagingSpec.InstallKeeps` | src/kernel/arch/x86_64/Paging.cpp:62-83 | a new page is no table yet, is zeroed through the temporary page, and is hung, with the table flags asked for and no other new link, without changing any ordinary translation or its flags |
| `PagingRefinement.DescendKeeps` | src/kernel/arch/x86_64/Paging.cpp:233-281 | creating the missing levels keeps the invariant and all translations with their flags, and every new link carries the table flags, also when it stops half-way in a panic |
| `PagingRefinement.MapRefines` | src/kernel/arch/x86_64/Paging.cpp:198-292 | mapping v to p gives v's page the entry of p's frame with exactly the page flags asked for, when the flat map accepts the request, with its status; no other page's entry changes; tables made on the way are linked with the table flags |
| `PagingRefinement.MapFaultsIff` | src/kernel/arch/x86_64/Paging.cpp:233-236 | with the constant as written a request faults if and only if the root entry of its address is empty |
| `PagingRefinement.LookupRefines` | src/kernel/arch/x86_64/Paging.cpp:103-141 | looking an address up answers from its walk exactly under the stated condition on the probed entry; with the corrected constant always |
| `PagingRefinement.UnmapRefines` | src/kernel/arch/x86_64/Paging.cpp:143-193 | unmapping removes exactly that page, with the flat map's status, and changes no other page's frame or flags; a page mapped to frame 0 counts as unmapped |
| `PagingRefinement.ExecRefines` | src/kernel/arch/x86_64/Paging.cpp:103-292 | one request of any kind is answered as by the flat map, and the tables implement the flat map that results, frames and flags |
| `PagingRefinement.RunRefines` | src/kernel/arch/x86_64/Paging.cpp:103-292 | over every run of map, unmap and translate the replies are those of a flat partial map; only the frame allocator can cut a run short, in a panic |
| `PagingRefinement.RunLeaves` | src/kernel/arch/x86_64/Paging.cpp:143-292 | after every run that is not cut short each ordinary page has the frame and the flags of its last mapping, or none |
| `Paging.Mmu.GetNewPage` | src/kernel/arch/x86_64/Paging.cpp:62-83 | the code, by way of the temporary page, does what the specification of taking a page says |
| `Paging.Mmu.PagingMapPage` | src/kernel/arch/x86_64/Paging.cpp:198-292 | the code, through the recursive window, equals the specification `PagingSpec.MapPage`, flags and faults included |
| `Paging.Mmu.PagingVirtToPhys` | src/kernel/arch/x86_64/Paging.cpp:103-141 | status and physical address are those of `PagingSpec.VirtToPhys` |
| `Paging.Mmu.PagingUnmapPage` | src/kernel/arch/x86_64/Paging.cpp:143-193 | the code equals `PagingSpec.UnmapPage` |
| `Paging.LeafWindow` | src/kernel/arch/x86_64/Paging.cpp:277-281 | once the three levels are set, the window address of the P1 entry is mapped and names the page's slot |
| `PagingInit.BootTables.SetNewTable` | src/kernel/arch/x86_64/Paging.cpp:44-60 | a table is hung with the default table flags and zeroed in the next frame, if missing or unconditionally; the tree stays unshared |
| `PagingInit.BootTables.MapImage` | src/kernel/arch/x86_64/Paging.cpp:314-341 | every page of the kernel image maps to itself minus the virtual offset, with the default page flags |
| `PagingInit.BootTables.MapTables` | src/kernel/arch/x86_64/Paging.cpp:368-379 | the loop whose bound each new table raises ends, with every page up to the final bound mapped to itself minus the offset, with the default page flags |
| `PagingInit.BootTables.MakeHeapTables` | src/kernel/arch/x86_64/Paging.cpp:352-366 | the heap's region gets its lowest tables and no mapping |
| `PagingInit.BootTables.PagingInitialize` | src/kernel/arch/x86_64/Paging.cpp:294-391 | on return every page from the image's start to the end of the new tables maps to itself minus the offset with the default page flags, every table is linked with the default table flags, and nothing else but video and temporary page is mapped; the invariant of map, unmap and translate holds exactly for bump pointers that have reached the new buffer; the kernel's P3 table is the second page behind the old one |
| `PagingInit.BootReady` | src/kernel/arch/x86_64/Paging.cpp:381-391 | the tables left by start-up implement the flat map that the runs above start from, whatever the source of pages; they meet the invariant exactly when the bump pointer, rounded up, has reached the new buffer |
| `PagingInit.BootWalks` | src/kernel/arch/x86_64/Paging.cpp:314-379 | on the booted tables the processor's walk finds every page of image and tables, with the default page flags, and the heap's region has its lowest tables |
| `PagingInit.BootWalksOnly` | src/kernel/arch/x86_64/Paging.cpp:294-391 | and every other ordinary page but the video page faults |
| `PagingInit.OldPages` | src/kernel/arch/x86_64/Paging.cpp:62-69 | taken from the old buffer on, the first page is the old copy of the root and the second the kernel's own P3 table |
| `PagingInit.SecondTable` | src/kernel/arch/x86_64/Paging.cpp:62-83 | hanging a table in that second page empties the table behind the kernel's root entry |
| `PagingInit.OldBufferLoses` | src/kernel/arch/x86_64/BmpPageAllocator.cpp:249-253 | two pages of the kernel's slot mapped, with either constant, that each need a new lowest table: both are served, and then no page of the kernel is mapped any more but behind one P3 entry |
| `PagingInit.OldBufferFaults` | src/kernel/arch/x86_64/Paging.cpp:233-281 | the request at 0x200000 faults from the old buffer on, with the kernel's pages gone, even with the corrected constant |
| `PagingInit.LiteralMapFaults` | src/kernel/arch/x86_64/Paging.cpp:29-29 | on the booted tables, with pages from the new buffer on, the constant as written faults for a map request at 0x200000 |
| `PagingInit.CorrectedMaps` | src/kernel/arch/x86_64/Paging.cpp:235-284 | with pages from the new buffer on the corrected constant serves that request |
| `HeapView.GapWithinFree` | src/kernel/mm/KHeap.cpp:190-191 | no gap is larger than a block's size less its `Used`, so case 1 passes over no block that could serve |
| `HeapView.NoGapIff` | src/kernel/mm/KHeap.cpp:221-348 | no gap between the chunks of a block is large enough exactly when nowhere in the block so many bytes in a row are free |
| `HeapView.FirstGapLeast` | src/kernel/mm/KHeap.cpp:243-348 | the first gap that is large enough starts at the least address of the block with so many free bytes |
| `HeapState.ExhaustedIff` | src/kernel/mm/KHeap.cpp:180-373 | the search of all blocks fails exactly when nowhere in the heap so many bytes in a row are free |
| `HeapLinks.LinkInKeeps` | src/kernel/mm/KHeap.cpp:219-345 | linking a chunk into a gap keeps both list directions, owners and magic numbers |
| `HeapLinks.UnlinkKeeps` | src/kernel/mm/KHeap.cpp:411-419 | so does taking one out |
| `HeapLinks.DropKeeps` | src/kernel/mm/KHeap.cpp:422-434 | and taking an empty block out of the block list |
| `HeapState.Admit` | src/kernel/mm/KHeap.cpp:222-345 | a placement in any gap that fits keeps the whole heap invariant, with what every header records of its request, and adds exactly its size to the counters |
| `HeapState.ReleaseKeeps` | src/kernel/mm/KHeap.cpp:407-419 | a release that leaves its block non-empty keeps the invariant, what the remaining headers record included, and subtracts exactly |
| `HeapState.DropBlockKeeps` | src/kernel/mm/KHeap.cpp:422-434 | a release that empties its block keeps the invariant for the other blocks |
| `HeapState.GrownKeeps` | src/kernel/mm/KHeap.cpp:364-367 | a new block behind the last keeps the invariant |
| `HeapAlign.PtrInside` | src/kernel/mm/KHeap.cpp:23-33 | the pointer handed out is 16-byte aligned, behind the record, and every request that the chunk was sized for lies inside |
| `HeapAlign.UnalignInverts` | src/kernel/mm/KHeap.cpp:23-41 | with the record in place `UNALIGN` undoes `HEAP_ALIGN` |
| `HeapAlign.LiteralUnalignIff` | src/kernel/mm/KHeap.cpp:32-41 | as written it does so for every memory content exactly when the chunk is 16-byte aligned |
| `HeapAlign.NewBlockFits` | src/kernel/mm/KHeap.cpp:105-131 | a page count that did not wrap and is not below the minimum as an `int` gives a block with room for its chunk |
| `HeapAlign.NewBlockFitsIff` | src/kernel/mm/KHeap.cpp:105-131 | for every chunk size, page size and minimum the new block has room exactly then |
| `HeapAlign.NewBlockLeast` | src/kernel/mm/KHeap.cpp:105-119 | the page count is not below the minimum, and no smaller count from the minimum on would hold the bytes that the block needs |
| `HeapAlign.TooFewPages` | src/kernel/mm/KHeap.cpp:117-119 | with pages of 4096 bytes and a minimum of 16, a block of 2^31 pages is made with 16 |
| `HeapState.AllocRightIff` | src/kernel/mm/KHeap.cpp:144-191 | for which requests the answer is right on every heap and supply: those whose sums do not wrap, and the one whose first sum wraps to 0; for all others a fresh block of 4096 bytes is a failing heap |
| `HeapClaims.UsersApart` | src/kernel/mm/KHeap.cpp:142-378 | every live request is aligned, inside its own chunk, disjoint from every other, and free of alignment records |
| `HeapClaims.UserWriteKeeps` | src/kernel/mm/KHeap.cpp:142-378 | users writing to their own bytes keep the heap invariant |
| `HeapClaims.MoveRightIff` | src/kernel/mm/KHeap.cpp:483-497 | a move that copies the recorded bytes keeps the first min(old, new) bytes, whatever memory holds, exactly when no less was recorded than asked for |
| `HeapClaims.AnySizeRightIff` | src/kernel/mm/KHeap.cpp:483-497 | a recorded value is right for every new size exactly between the request and the room behind the pointer |
| `HeapClaims.FreedKeepsOthers` | src/kernel/mm/KHeap.cpp:382-446 | freeing one chunk keeps all others |
| `KHeap.KHeap.constructor` | src/kernel/mm/KHeap.cpp:51-92 | the placed constructor leaves one empty block behind the mutex, in the invariant, whatever memory held before |
| `KHeap.KHeap.AllocNewPage` | src/kernel/mm/KHeap.cpp:105-138 | the size computed for a new block, its header, and the counter |
| `KHeap.KHeap.PlaceFirst` | src/kernel/mm/KHeap.cpp:221-241 | case 2: an empty block gets its first chunk, whose header as written keeps its old request field; the invariant is kept, or a request whose sums wrapped gets a pointer from which it runs past the end of memory |
| `KHeap.KHeap.PlaceFront` | src/kernel/mm/KHeap.cpp:247-272 | case 3: before the first chunk |
| `KHeap.KHeap.PlaceBack` | src/kernel/mm/KHeap.cpp:282-311 | case 4.1: behind the last chunk |
| `KHeap.KHeap.PlaceBetween` | src/kernel/mm/KHeap.cpp:313-345 | case 4.2: between two chunks |
| `KHeap.KHeap.FindGap` | src/kernel/mm/KHeap.cpp:279-348 | the walk finds the first gap that is large enough, or there is none |
| `KHeap.KHeap.TryBlock` | src/kernel/mm/KHeap.cpp:221-348 | a block with enough free space in total serves the request, or has no contiguous gap for it |
| `KHeap.KHeap.Visit` | src/kernel/mm/KHeap.cpp:180-373 | one turn of the search serves the request or makes progress in the measure (growth, restart, blocks left) |
| `KHeap.KHeap.Grow` | src/kernel/mm/KHeap.cpp:157-163 | the new block is linked behind the last one or becomes the root, with the size that the page count gives |
| `KHeap.KHeap.Alloc` | src/kernel/mm/KHeap.cpp:142-378 | the answer, null and an unchanged heap or a chunk with the whole request inside, is right if and only if the sums did not wrap, or wrapped to 0, or nothing was free; a request whose sums do not wrap gets null exactly when the supply has nothing and nowhere in the heap that many bytes in a row are free; the request is placed in the first large enough gap of some block; new pages are asked for only when no block has a contiguous gap, and then the new block serves; the mutex is released, but for the failed first block |
| `KHeap.KHeap.HeldChunk` | src/kernel/mm/KHeap.cpp:389-407 | from a pointer handed out, `UNALIGN` finds precisely its chunk's header |
| `KHeap.KHeap.Free` | src/kernel/mm/KHeap.cpp:382-446 | a held pointer gives back exactly its chunk, with its block if that is empty, and is refused from then on; null or a bad magic number change nothing but a counter; the mutex is released |
| `KHeap.KHeap.Resize` | src/kernel/mm/KHeap.cpp:482-498 | for whatever the header records: if that is right for the size, the first min(old, new) bytes are at the returned address in a chunk with room for the new size; if not, the pointer stays, with the size recorded, and its request runs past the end of its chunk, or the bytes behind the recorded ones are what the new place held before; every other live request keeps its chunk and bytes in each case; a move gives the old chunk back, and its pointer is refused from then on; the mutex is released |
| `KHeap.KHeap.ReAlloc` | src/kernel/mm/KHeap.cpp:450-498 | the same for every held pointer, and in the corrected form always the right outcome; size 0 frees, null allocates, a bad header is refused; a failed allocation is a fault; the mutex is released, but for the failed first block |
| `KHeap.NothingBrought` | src/kernel/mm/KHeap.cpp:222-241 | on a fresh zeroed heap a reallocation from 16 to 32 bytes loses the first byte as written |
| `Bits.MasksApart` | src/kernel/arch/x86_64/BmpPageAllocator.cpp:43-66 | the masks of different bits are disjoint |
| `Bits.SetAdds` | src/kernel/arch/x86_64/BmpPageAllocator.cpp:50-56 | setting a bit of the packed words adds exactly one frame to the set in use |
| `Bits.UnsetRemoves` | src/kernel/arch/x86_64/BmpPageAllocator.cpp:60-66 | clearing one removes exactly that frame |
| `Bits.OnesSet` | src/kernel/arch/x86_64/BmpPageAllocator.cpp:52-55 | the number of set bits grows by one exactly when the bit was clear |
| `Bits.OnesUnset` | src/kernel/arch/x86_64/BmpPageAllocator.cpp:62-65 | and shrinks by one exactly when it was set |
| `Bits.OnesIsSize` | src/kernel/arch/x86_64/BmpPageAllocator.cpp:29-32 | the number of set bits is the size of the set in use, at most the number of frames |
| `Bits.ZeroWord` | src/kernel/arch/x86_64/BmpPageAllocator.cpp:109-112 | a word without a set bit is zero, which is what the aligned path tests |
| `BitmapSearch.FirstClearLeast` | src/kernel/arch/x86_64/BmpPageAllocator.cpp:70-85 | the single-frame search returns the least free frame, or none is free; when it reads outside |
| `BitmapSearch.CountMeans` | src/kernel/arch/x86_64/BmpPageAllocator.cpp:155-169 | the inner count succeeds exactly on a run of clear bits in bounds |
| `BitmapSearch.LargeSound` | src/kernel/arch/x86_64/BmpPageAllocator.cpp:102-140 | the 32-aligned path returns only clear runs in bounds, in both forms, and reads outside only as written with the last frame free |
| `BitmapSearch.ScanSound` | src/kernel/arch/x86_64/BmpPageAllocator.cpp:142-173 | so does the general path, repaired; the search ends although the inner loop moves the outer index |
| `BitmapSearch.SearchSound` | src/kernel/arch/x86_64/BmpPageAllocator.cpp:90-176 | any frame f returned for n frames has bits f to f+n-1 clear and in bounds, on all three paths |
| `BitmapSearch.SearchInside` | src/kernel/arch/x86_64/BmpPageAllocator.cpp:90-176 | even as written the frames returned lie inside the bitmap |
| `BitmapSearch.ScanFinds` | src/kernel/arch/x86_64/BmpPageAllocator.cpp:142-173 | from any frame not behind a free run, the repaired general path returns that run or one before it, if the last frame of every word before the word of the run is in use |
| `BitmapSearch.LargeFinds` | src/kernel/arch/x86_64/BmpPageAllocator.cpp:102-140 | the repaired 32-aligned path returns a run wherever there is an aligned one, and none behind it |
| `BitmapSearch.SearchFinds` | src/kernel/arch/x86_64/BmpPageAllocator.cpp:90-176 | the repaired search finds a run of n frames in every bitmap that has one in whose earlier words the last frame is in use, and for n > 128 in every bitmap that has a 32-aligned one |
| `BitmapSearch.LeastFound` | src/kernel/arch/x86_64/BmpPageAllocator.cpp:142-173 | up to 128 frames, a run that starts at the least free frame is the answer |
| `BitmapSearch.AlignedFound` | src/kernel/arch/x86_64/BmpPageAllocator.cpp:102-140 | beyond 128 frames, the first 32-aligned run is the answer |
| `BitmapSearch.LiteralFirstFreeIff` | src/kernel/arch/x86_64/BmpPageAllocator.cpp:70-85 | as written the single-frame search reads outside the bitmap exactly when no frame is free |
| `BitmapSearch.LiteralTakesUsed` | src/kernel/arch/x86_64/BmpPageAllocator.cpp:151-168 | for every n of two or more, a bitmap on which the search as written returns a frame in use |
| `BitmapSearch.LiteralSoundIff` | src/kernel/arch/x86_64/BmpPageAllocator.cpp:90-176 | as written the search is sound for all bitmaps exactly for at most one frame |
| `BitmapSearch.MissesRun` | src/kernel/arch/x86_64/BmpPageAllocator.cpp:157-164 | for every n of two or more, a bitmap with a free run that the repaired search does not find |
| `BitmapSearch.FindsAnyIff` | src/kernel/arch/x86_64/BmpPageAllocator.cpp:86-176 | the repaired search finds a run in every bitmap that has one exactly for n = 1 |
| `BmpPageAllocators.BmpPageAllocator.Set` | src/kernel/arch/x86_64/BmpPageAllocator.cpp:50-56 | the packed word, the set of frames in use and the counter move together |
| `BmpPageAllocators.BmpPageAllocator.Unset` | src/kernel/arch/x86_64/BmpPageAllocator.cpp:60-66 | the same for clearing |
| `BmpPageAllocators.BmpPageAllocator.SetRegion` | src/kernel/arch/x86_64/BmpPageAllocator.cpp:304-318 | adds the interval of the region's whole blocks |
| `BmpPageAllocators.BmpPageAllocator.UnsetRegion` | src/kernel/arch/x86_64/BmpPageAllocator.cpp:320-336 | removes it, and frame 0 is in use afterwards |
| `BmpPageAllocators.BmpPageAllocator.FirstFree` | src/kernel/arch/x86_64/BmpPageAllocator.cpp:70-85 | the loop computes `BitmapSearch.FirstClear` |
| `BmpPageAllocators.BmpPageAllocator.FindRun` | src/kernel/arch/x86_64/BmpPageAllocator.cpp:142-175 | the nested loops, with the index moved from inside, compute `BitmapSearch.Scan` |
| `BmpPageAllocators.BmpPageAllocator.FindLarge` | src/kernel/arch/x86_64/BmpPageAllocator.cpp:102-140 | the large-run loops compute `BitmapSearch.LargeScan` |
| `BmpPageAllocators.BmpPageAllocator.FirstFreeRun` | src/kernel/arch/x86_64/BmpPageAllocator.cpp:90-176 | the choice of the path is that of `BitmapSearch.Search` |
| `BmpPageAllocators.BmpPageAllocator.AnswerMeans` | src/kernel/arch/x86_64/BmpPageAllocator.cpp:338-365 | in terms of free frames alone: which run the repaired search answers, and when it is sure to answer one |
| `BmpPageAllocators.BmpPageAllocator.Alloc` | src/kernel/arch/x86_64/BmpPageAllocator.cpp:338-365 | the run found is added to the set in use, and with the repaired search it was free: held runs are disjoint; a run at the least free frame, beyond 128 frames the first 32-aligned one, is the one returned; a request is served whenever enough frames count as free and one of the runs of `BitmapSearch.SearchFinds` exists, and refused for none or with too few free |
| `BmpPageAllocators.BmpPageAllocator.Free` | src/kernel/arch/x86_64/BmpPageAllocator.cpp:367-381 | removes the interval |
| `FrameStack.LinkedHeld` | src/kernel/arch/x86_64/StackPageAllocator.cpp:42-52 | the frames of the linked runs are as many as their page counts say, through taken virtual pages |
| `FrameStack.PushLinkedIff` | src/kernel/arch/x86_64/StackPageAllocator.cpp:54-64 | for every linked stack, free frame and page handed out: the list is linked with the new node on top exactly when the page leads to that frame; if not, the node is in the frame that it leads to |
| `FrameStack.PopLinkedIff` | src/kernel/arch/x86_64/StackPageAllocator.cpp:90-110 | taking the first frame, with the push in between, leaves a linked list exactly when the rest's page leads to the rest and the node pushed midway spares the nodes below |
| `FrameStack.PopRemoves` | src/kernel/arch/x86_64/StackPageAllocator.cpp:101-110 | exactly the first frame of the top run leaves |
| `FrameStack.PopLoses` | src/kernel/arch/x86_64/StackPageAllocator.cpp:97-110 | whatever the pages lead to, the virtual page of the node that was pushed and dropped stays taken |
| `FrameStack.PopLeaves` | src/kernel/arch/x86_64/StackPageAllocator.cpp:95-99 | with its page right the frame handed out holds a node, written after the zeroes, and no other frame but the next is touched; with it wrong the frame is zero and an older frame holds the node |
| `FrameStack.CallKeeps` | src/kernel/mm/MemoryManager.cpp:130-183 | each call for a single page, by first fit from a clean space inside the pool, leaves the stack linked and the space clean |
| `FrameStack.RunLinked` | src/kernel/mm/MemoryManager.cpp:130-183 | so does every run of such calls, by the code as written |
| `FrameStack.RunLoses` | src/kernel/arch/x86_64/StackPageAllocator.cpp:97-110 | over every run of such calls the pages that neither a node nor a caller uses grow by exactly one for every frame taken from the stack |
| `FrameStack.RunBounded` | src/kernel/arch/x86_64/StackPageAllocator.cpp:97-110 | so frames taken and pages lost before are together at most the pages of the pool, on every run |
| `FrameStack.GiveCleanIff` | src/kernel/mm/MemoryManager.cpp:153-167 | pages given back keep the space clean exactly when none is mapped and none above them is taken |
| `FrameStack.StaleRun` | src/kernel/mm/MemoryManager.cpp:130-167 | two or more pages allocated and given back, then one frame freed: first fit answers with the first of these pages, the node goes to the frame it was mapped to, and the stack is not linked |
| `FrameStack.HeapOverPool` | src/kernel/mm/MemoryManager.cpp:37-66 | after the heap's mapping a page from the pool's start leads to the heap's frame, and the heap does not get the stack's pages |
| `FrameStack.BootUnlinks` | src/kernel/mm/MemoryManager.cpp:37-66 | with the heap mapped over the pool the first frame taken from a run of several leaves the stack unlinked, and its node in a frame of the heap |
| `FrameStack.StackPageAllocator.constructor` | src/kernel/arch/x86_64/StackPageAllocator.cpp:66-80 | starts with max(16, n) frames of the bitmap, or stops for want of memory, and then no run that the bitmap is sure to serve exists |
| `FrameStack.StackPageAllocator.GetPageFromBitmap` | src/kernel/arch/x86_64/StackPageAllocator.cpp:20-40 | n frames that were clear are set and headed by a node; it panics exactly when the bitmap answers no run, and then has none that it is sure to serve, and fails exactly when it has one and the pool no page; as written, from a clean space, which stays clean |
| `FrameStack.StackPageAllocator.GetTotalPages` | src/kernel/arch/x86_64/StackPageAllocator.cpp:42-52 | the number of frames on the stack |
| `FrameStack.StackPageAllocator.VirtualFree` | src/kernel/mm/MemoryManager.cpp:153-167 | gives the virtual page back, still mapped, and pushes the frame behind it through the lowest free page, whatever that leads to |
| `FrameStack.StackPageAllocator.Alloc` | src/kernel/arch/x86_64/StackPageAllocator.cpp:82-116 | from a valid stack, as written one in a clean space: exactly one frame leaves, and the total falls by one, though the call pushes the same frame midway; one virtual page is lost, the frame holds a node, only it and the next are written; it panics exactly when stack and bitmap are empty, and fails for want of virtual pages exactly when the pool is full and the top run has a rest, or the stack is empty and at most one page is free |
| `FrameStack.StackPageAllocator.LostBound` | src/kernel/arch/x86_64/StackPageAllocator.cpp:82-116 | in every valid state the pages lost, one for each frame taken, are at most the pages of the pool |
| `FrameStack.StackPageAllocator.Free` | src/kernel/arch/x86_64/StackPageAllocator.cpp:118-135 | from a valid stack adds the frame of an aligned address and stays valid, or fails exactly when the pool is full; ignores other addresses |
| `PageAllocators.PageAllocator.PartitionMeans` | src/kernel/mm/PageAllocator.cpp:43-75 | every frame is in exactly one of clear, on the stack, outstanding, reserved; frames set in the bitmap are those on the stack plus those outstanding plus those reserved |
| `PageAllocators.PageAllocator.constructor` | src/kernel/mm/PageAllocator.cpp:15-26 | establishes the partition |
| `PageAllocators.PageAllocator.Alloc` | src/kernel/mm/PageAllocator.cpp:43-61 | keeps the partition; the frames returned were not outstanding; address 0 is a refused run, one that the bitmap was not sure to serve; when exactly a single frame panics or fails |
| `PageAllocators.PageAllocator.Free` | src/kernel/mm/PageAllocator.cpp:63-75 | keeps the partition whichever way the frames were obtained: single frames go to the stack, unless the pool is full, runs to the bitmap |
| `PageAllocators.PageAllocator.GetUsedBytes` | src/kernel/mm/PageAllocator.cpp:33-41 | outstanding and reserved frames, less those never counted, in bytes in 32 bits |
| `PageAllocators.ConvertIff` | src/kernel/mm/MemoryManager.cpp:29-35 | page counts are converted right exactly when their bytes fit 32 bits |
| `PageAllocators.BytesIff` | src/kernel/mm/PageAllocator.cpp:37-38 | the bytes in use are right exactly below 2^20 frames |
| `AddressPools.MergeKeeps` | src/kernel/mm/AddressPool.cpp:148-168 | in a pool of fewer than 2^32 pages merging keeps every address free or used and the page count, and leaves no free neighbours that touch |
| `AddressPools.JoinKeepsIff` | src/kernel/mm/AddressPool.cpp:153-160 | joining two free neighbours keeps addresses, ranges and pages exactly when their pages together fit 32 bits |
| `AddressPools.WideMergeLoses` | src/kernel/mm/AddressPool.cpp:148-168 | a run of four calls on two ranges of 2^31 pages after which the pool has no page left |
| `AddressPools.MergeCoalesces` | src/kernel/mm/AddressPool.cpp:148-168 | merging any list leaves no free neighbours that touch |
| `AddressPools.MergeIdempotent` | src/kernel/mm/AddressPool.cpp:148-168 | merging twice is merging once |
| `AddressPools.TakeKeeps` | src/kernel/mm/AddressPool.cpp:192-209 | an allocation uses exactly its pages; all others keep their state; ranges stay aligned and disjoint; no page is lost |
| `AddressPools.TakenWasFree` | src/kernel/mm/AddressPool.cpp:183-193 | the pages taken were free |
| `AddressPools.FreedKeeps` | src/kernel/mm/AddressPool.cpp:221-253 | in a pool of fewer than 2^32 pages a release frees exactly the pages of its range |
| `AddressPools.FreeUndoesTake` | src/kernel/mm/AddressPool.cpp:173-253 | a release right after the allocation restores a coalesced pool, but for the range's flags |
| `AddressPools.AddCoversIff` | src/kernel/mm/AddressPool.cpp:18-33 | a range covers the addresses asked for exactly when its pages fit 32 bits |
| `AddressPools.AddKeeps` | src/kernel/mm/AddressPool.cpp:64-91 | adding a new range adds exactly its addresses, free |
| `AddressPools.RunKeeps` | src/kernel/mm/AddressPool.cpp:64-253 | over every run of additions, allocations and releases with fewer than 2^32 pages in all the ranges stay aligned and disjoint, cover exactly the addresses added and hold exactly the pages added |
| `AddressPools.LowestFirst` | src/kernel/mm/AddressPool.cpp:173-193 | in a pool in address order first fit answers a request for one page with the lowest free address |
| `AddressPools.RunOrdered` | src/kernel/mm/AddressPool.cpp:173-253 | over every run of allocations and releases a pool of fewer than 2^32 pages stays in address order, so that this is always so |
| `AddressPools.FaultsIffFull` | src/kernel/mm/AddressPool.cpp:183-193 | no range serves a request for one page exactly when every address of the pool is in use |
| `AddressPools.LiteralTakeIff` | src/kernel/mm/AddressPool.cpp:196-208 | when the split as written is the intended one |
| `AddressPools.KernelPoolRepeats` | src/kernel/mm/AddressPool.cpp:201-207 | on the kernel's pool the code as written returns one address twice |
| `AddressPools.LiteralMergeIff` | src/kernel/mm/AddressPool.cpp:153-160 | merging as written is the identity on aligned pools, right exactly on coalesced ones |
| `AddressPools.AddressPool.AddRange` | src/kernel/mm/AddressPool.cpp:64-91 | the range is appended, or refused when unaligned |
| `AddressPools.AddressPool.Merge` | src/kernel/mm/AddressPool.cpp:148-168 | the loop over the changing list computes `AddressPools.MergeFrom` |
| `AddressPools.AddressPool.Allocate` | src/kernel/mm/AddressPool.cpp:173-216 | it faults exactly when no free range has the pages asked for, one for none; otherwise the base is that of the first range that has, and in the corrected form, on a valid pool, exactly the addresses of so many pages from there on become used, all of which were free, as one range with the flags |
| `AddressPools.AddressPool.Free` | src/kernel/mm/AddressPool.cpp:221-253 | refused exactly when no range has this base, or the first that has is not in use, and then nothing changes; otherwise, in the corrected form on a valid pool of fewer than 2^32 pages, exactly the addresses of the pages reported, from the base on, become free, all of which were used |
| `Strchrs.FindFirst` | src/klib/string/strchr.cpp:14-29 | the byte search is the first occurrence up to and with the terminator, or none |
| `Strchrs.MagicBits` | src/klib/string/strchr.cpp:44-45 | the value of the hole-bit constant |
| `Strchrs.FiresIff` | src/klib/string/strchr.cpp:56-112 | the carry test misses no zero byte, and misfires exactly on a top byte of 0x80 |
| `Strchrs.MaskWord` | src/klib/string/strchr.cpp:47-54 | the bytes of the mask; as written, for a negative character, only the lowest is the character |
| `Strchrs.TentativeIff` | src/klib/string/strchr.cpp:94-115 | exactly when the double test of a word fires: terminator, sought byte, or one of two misfires |
| `Strchrs.SearchFinds` | src/klib/string/strchr.cpp:14-156 | the search by words is the search by bytes for every string, alignment and character that the mask is right for |
| `Strchrs.SecondMissed` | src/klib/string/strchr.cpp:18-54 | for every character from 128 to 254 a string in which the code as written misses it |
| `Strchrs.LiteralIff` | src/klib/string/strchr.cpp:18-54 | as written the function is right for all strings and alignments exactly for characters below 128 and 255 |
| `Strchrs.Strchr` | src/klib/string/strchr.cpp:14-156 | the function returns what the byte search finds; misfires only continue the search; no word behind the one with the terminator is read |
| `Mutexes.StepKeeps` | src/klib/Mutex/mutex.cpp:63-118 | one access of any processor keeps: at most one in the edit section, the lock set exactly then, depth equal to acquisitions less releases, nobody owning exactly at depth 0 |
| `Mutexes.RunKeeps` | src/klib/Mutex/mutex.cpp:63-118 | over every interleaving of any number of processors |
| `Mutexes.StepHolders` | src/klib/Mutex/mutex.cpp:75-112 | with distinct numbers and releases by holders, the holder is unique, owns the mutex, and holds it depth times |
| `Mutexes.RunHolders` | src/klib/Mutex/mutex.cpp:54-118 | over every run at most one processor holds the mutex |
| `Mutexes.Acquires` | src/klib/Mutex/mutex.cpp:63-93 | a free mutex, or one's own, is acquired without waiting, one deeper |
| `Mutexes.Releases` | src/klib/Mutex/mutex.cpp:95-117 | a holder releases without waiting: the lock is clear again, depth and holds are one less, and nobody owns the mutex exactly when the depth was 1 |
| `Mutexes.Waits` | src/klib/Mutex/mutex.cpp:59-93 | a try while another owns the mutex changes nothing, and the processor is back before its next try |
| `Mutexes.RunCounts` | src/klib/Mutex/mutex.cpp:54-118 | over every fair run the holds of a processor have grown by its completed acquisitions less its completed releases |
| `Mutexes.CallsCount` | src/klib/Mutex/mutex.cpp:54-118 | whatever the others do meanwhile, a call of `Acquire` that has returned has added one to its holds, and one of `Release` has taken one away |
| `Mutexes.DepthCounts` | src/klib/Mutex/mutex.cpp:63-118 | with nobody in a call, the depth is the number of completed acquisitions less releases of the owner, every other processor has none, and nobody owns the mutex exactly at depth 0 |
| `Mutexes.ExcludesIff` | src/klib/Mutex/mutex.cpp:77-84 | mutual exclusion over every run holds exactly when the processor numbers are distinct |
| `Mutexes.StubIff` | src/klib/Mutex/mutex.cpp:77-84 | with the constant 0, exactly for one processor |
| `Memcpy.Memory.Memcpy` | src/klib/string/memcpy.cpp:31-61 | the 4-, 2- and 1-byte loops compute the strides, and without a harmful overlap a byte copy |
| `Memcpy.StridesCopy` | src/klib/string/memcpy.cpp:36-58 | the strides agree with a byte copy for every length when regions are disjoint or the destination is not above |
| `Memcpy.PrefixIff` | src/klib/string/memcpy.cpp:31-61 | copying n bytes to an area apart from the first q of the source brings these over, whatever memory holds, exactly when n is at least q, even where the rest overlaps |
| `Memcpy.HarmfulFails` | src/klib/string/memcpy.cpp:40-57 | for every harmful overlap a memory that is copied wrongly |
| `Memcpy.CopiesIff` | src/klib/string/memcpy.cpp:31-61 | every memory is copied right exactly without a harmful overlap; scrolling the screen (`src/kernel/KTextMode.cpp:59-61`) is one such case |
| `Numbers.LowValue` | src/klib/stdlib/utoa.cpp:20-25 | the digits evaluate back to the number, are below the base, and have no leading zero |
| `Numbers.Reverse` | src/klib/string/reverse.cpp:14-24 | the string is reversed in place; it fails exactly on the empty string |
| `Numbers.Utoa` | src/klib/stdlib/utoa.cpp:7-31 | the buffer holds the number's text and the size is its length; another base gives an empty string |
| `Numbers.Ultoa` | src/klib/stdlib/ultoa.cpp:17-41 | the same for 64 bits |
| `Numbers.Itoa` | src/klib/stdlib/itoa.cpp:15-44 | sign and digits of a signed number, the lowest one included |
| `Numbers.QuotStep` | src/klib/stdlib/itoa.cpp:28-33 | division toward zero and the absolute remainder give the digits of the absolute value |
| `Numbers.SignedDigits` | src/klib/stdlib/itoa.cpp:27-38 | sign and digits evaluate back to the number |
| `Numbers.AbsIsAbs` | src/klib/stdlib/abs.cpp:14-17 | the branch-free form is the absolute value of every word |
| `Numbers.AbsOfRemainder` | src/klib/stdlib/itoa.cpp:28-33 | on the remainders that itoa divides off, the branch-free form is the absolute value of the number |
| `Numbers.AbsOfNegative` | src/klib/stdlib/abs.cpp:14-17 | the branch-free form negates a negative word |
| `Numbers.Atoi` | src/klib/stdlib/atoi.cpp:14-29 | the value of the leading digits modulo 2^32, in spite of wrap-around on the way; 0 for null |
| `Numbers.RoundTrip` | src/klib/stdlib/atoi.cpp:21-26 | atoi of utoa of v in base 10 is v for all 32-bit v; of a longer number its lowest 32 bits |
| `Numbers.SignedRoundTripIff` | src/klib/stdlib/itoa.cpp:35-38 | atoi of itoa of v is v exactly when v is not negative |

## Left out

- Control registers, `InvalidatePage` and the translation cache: walks see the current tables, although `GetNewPage` rewrites the temporary entry without invalidating it (`Paging.cpp:78-79`).
- Addresses are told apart by their 48 translated bits; the check of canonical form and large pages are not modelled.
- The page supply of paging and heap is a source of fresh frames or regions: the calls from paging into the frame allocator and back, and from the heap into `VirtualAlloc`, which maps only the first page it is asked for (`MemoryManager.cpp:142-147`) and is given bytes for pages on release (`KHeap.cpp:433`), are not followed.
- PagingRefinement.RunRefines: is about pages outside the recursive window and the temporary page, with table flags that contain PRESENT and not the large-page bit.
- PagingInit.BootTables.PagingInitialize: assumes that image and tables stay inside the 1 GiB behind P4 index 511 and P3 index 510, and that the loader's identity map reaches the new tables.
- KHeap.KHeap.constructor: only with a base address; without one the block's size would be a page count (`KHeap.cpp:77-82`).
- KHeap.KHeap.Alloc: as written, requests are multiples of 16, see `HeapAlign.LiteralUnalignIff`; a supply that is not empty gives memory apart from the heap, for a page count of which `HeapAlign.PageCountOk` holds. Of the heap after a request whose sums wrapped and that was served all the same, it says only that the request runs past the end of memory.
- KHeap.KHeap.ReAlloc: where the chunk has to move, the new size is one that `Alloc` answers rightly.
- `CHECK_OVERRUN`, `AllocInit`, the destructor and the heap's statistics.
- BmpPageAllocators.BmpPageAllocator.Alloc: counts of 2^31 frames and more, where `int_t` wraps, and the bytes of a last partial word of the bitmap.
- `BmpPageAllocator::Initialize`, `MemoryManager::Initialize` and `SetupKernelHeap`: boot sequencing over the loader's memory map.
- The guards of `PhysAlloc`, `PhysFree` and `VirtualFree` against zero arguments, and the mutex calls of the allocators; `GetUsedBytes` returns with its mutex held (`PageAllocator.cpp:35-40`).
- PageAllocators.PageAllocator.Alloc: over the repaired run search; the one as written may return frames in use, see `BitmapSearch.LiteralTakesUsed`.
- FrameStack.StackPageAllocator.Alloc: the pool of virtual pages is its bounds and its set of taken pages, and answers with the lowest that is not taken until none is left, as the repaired pool of `AddressPools` does (`AddressPools.RunOrdered`); the pool as written may answer with a page in use, see `AddressPools.KernelPoolRepeats`. A mapping finds its tables, and a run that has left the clean space is followed for one call only.
- `AddressPool::CloneRanges`, `ReleaseRanges`, `GetRanges`, `Find`: copies and lookups without further structure; cloned ranges keep the other pool as owner.
- Mutexes.RunKeeps: the initialisation of a mutex, its magic number, interrupts, and an overflow of the depth.
- `ltoa`, `vsprintf`, the text console, the logger, device drivers and the other string functions.
