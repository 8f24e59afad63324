# Verified models of a teaching kernel's allocators, queues and arithmetic

The repository is a small paravirtualised teaching kernel (it runs on Xen) with its support libraries. This
project models the parts of it whose correctness is an argument rather than a glance, and proves them:

- **Division** (with DigitArith and Bits): unsigned 64-bit division as Knuth's Algorithm D (The Art of Computer
  Programming, volume 2, section 4.3.1) on 16-bit digits, every intermediate result a wrapping 32-bit word.
- **Qsort**: Bentley and McIlroy's quicksort, in place, with its four-part partition.
- **FreeList, LmmRegion, LmmSearch, Lmm, LmmRuns, Malloc**: the List Memory Manager and the kernel malloc on it.
  FreeList is the theory of address-ordered coalesced lists, LmmRegion the linked lists in raw memory, LmmSearch
  the search for an aligned block in a range, Lmm the operations over all regions, LmmRuns whole runs, Malloc the
  size headers, alignment and reallocation.
- **BoundaryHeap**: the user-level malloc, an implicit list of blocks with boundary tags in raw words.
- **Zone**: the page allocator, with one free list per order and merging of adjacent blocks.
- **VariableQueue, VariableHash, Sched**: the intrusive queues, the hash index on them, and the scheduler's run
  queue, done queue and wait lists, built from those queues.
- **XenTime**: the lock-free read of the time fields that the hypervisor updates, against any interleaving.
- **Mersenne**: the Mersenne Twister with in-place batch regeneration.
- **NumText**: printing an unsigned number and reading one.

Conventions. Memory is an array with one cell per byte address; a 32-bit word sits in the cell of its first byte, so
word accesses that overlap without being equal are not represented. Address 0 is the null pointer. Where the code
writes through pointers, the model is a class with the code's own fields; a ghost field or parameter gives the
abstract value (a list of blocks, a queue's contents, the chunks in use), `Valid()` ties the two together, and each
method's contract says what the abstract value becomes. Pure lemmas then carry the theorems. Where a proof only
needs the name of a definition, the definition is hidden (`hide`) to keep the proof small.

What the main theorems say:

- Division: `Qdivrem` returns the exact quotient and remainder for all 64-bit operands; every pass's digit estimate is
  the true digit or one more, so one add-back suffices.
- Every LMM region list is address-ordered, on 8-byte granules, inside its region and fully coalesced, and the
  region's free count is the sum of its node sizes (`Lmm.Manager.Valid`). The free lists are a function of the bytes in
  use (`LmmRuns.LiveDetermines`): freeing everything, in any order, restores the initial lists exactly. `AllocGen` fails
  only if no region has a fitting range, and returns the lowest fit of the first region that has one, unless the address
  wraps; nothing wraps while free memory lies low enough, however far up the regions reach (`Lmm.LowMemoryNoWrap`).
- `RemoveFree` removes everything that meets its range if and only if the range begins on an 8-byte granule or its
  first byte was not free (`Lmm.RemovesAllThatMeet`): the rounding up of the start address in `lmm_find_free` leaves the
  first, partly covered granule in the list otherwise (`Lmm.PartialGranuleExample`).
- The kernel's malloc and memalign return null only when no region at all has the bytes they need free in a row, at an
  aligned place for memalign (`Malloc.NoRoomAnywhere`, `Malloc.NoAlignedRoom`).
- The boundary-tag heap hands out less than 16 bytes more than payload and tags need, takes nothing else from the free
  memory, and fails only when no free block has room (`BoundaryHeap.Heap.Malloc`). It is likewise determined by the
  blocks in use (`BoundaryHeap.LiveDetermines`).
- The page allocator's free and live blocks always cover each page of the zone exactly once, so merging can never
  reach beyond the order table. Freeing keeps that if and only if the block is in use or still on the list of its order.
- The zone's lists are stacks: a block freed without a free neighbour comes back with the next request of its order, and
  the lists are then what they were (`Zone.FreedComesBack`).
- A zone that has everything back is one block again if and only if every free block begins at a multiple of its size
  (`Zone.RebuiltIff`). Taking pages keeps all blocks so; freeing does if and only if each neighbour it meets is the other
  half of a block of the next order, which the lists before the call tell (`Zone.FreeingKeepsAligned`). The code takes in
  any neighbour, and four pages freed in the order second, third, first, fourth stay three blocks (`Zone.NotRebuilt`).
- Hash lookup gives the oldest entry of a key. That is the entry last inserted and not removed if and only if the key has
  at most one (`VariableHash.LookupIsLastPut`), and it is so throughout a run, for every key, if and only if nothing is
  inserted under a key that is taken (`VariableHash.AlwaysLastPut`).
- The versioned time read is consistent if and only if the version it read is even. The loop's test reads the version
  twice in operands of `|`, whose order C leaves open and which no barrier separates: every pass that ends is consistent if
  and only if the load for the parity comes before the load for the comparison (`XenTime.OrderDecides`); with the other
  order a torn read can get through (`XenTime.TornRead`). The loop ends with the first pass whose test lets it, and a pass
  during which the writer rests always does (`XenTime.SteadyEnds`). The 2^32 bound on version steps is exact
  (`XenTime.WrapsAround`).
- The scheduler never loses or duplicates a thread (`Sched.Scheduler.ExactlyOnePlace`); a yield picks the idle
  thread exactly when the run queue is empty; with yields only, the thread at place p runs after exactly p yields. A
  current thread behind threads that were woken in front of it goes to the tail all the same and runs after all the
  others (`Sched.RunsAfterFrom`).
- 624 consecutive outputs of the generator determine all later ones, all earlier ones and the seed
  (`Mersenne.OutputsDetermine`, `Mersenne.OutputsDetermineSeed`).

Where code and comments disagree the code is followed. The header of mm_realloc in 410user/libmalloc/mm_malloc.c calls
it not implemented; it is implemented, and is modelled. Its copy takes the old block's size with both tags, so it can
read past the old payload; the new payload still begins with the old one.

`dafny verify dfyconfig.toml` checks the whole project.

## Model

| member | source | states |
|---|---|---|
| Division.Qdivrem | 410kern/misc/gccisms.c:89-283 | For all 64-bit operands: a divisor of 0 faults; otherwise the quotient and, when asked for, the remainder are exact. |
| Division.Udivdi3 | 410kern/misc/gccisms.c:317-322 | The 64-bit quotient, or a fault exactly when the divisor is 0. |
| Division.Umoddi3 | 410kern/misc/gccisms.c:305-312 | The 64-bit remainder, or a fault exactly when the divisor is 0. |
| Division.AlgorithmD | 410kern/misc/gccisms.c:197-261 | The main loop: the digits it stores are the quotient of the whole dividend, the remainder is left in the last digits below the divisor, and digits already divided out are 0. |
| Division.DividePass | 410kern/misc/gccisms.c:203-261 | One pass appends one true quotient digit and keeps the partial remainder below the divisor. |
| Division.DivideStep | 410kern/misc/gccisms.c:206-260 | Estimate, multiply-subtract and at most one add-back leave exactly the remainder of the partial dividend and yield exactly its quotient digit. |
| Division.EstimateDigit | 410kern/misc/gccisms.c:206-231 | Step D3 gives min(B - 1, three leading digits of the partial dividend divided by the two leading digits of the divisor). |
| Division.EstimateWithinOne | 410kern/misc/gccisms.c:206-258 | That estimate is the true quotient digit or exactly one more, whenever the divisor is normalised and the partial remainder is below it. |
| DigitArith.QhatWithinOne | 410kern/misc/gccisms.c:206-258 | The arithmetic behind it, for digits of any base-2^16 numbers: Knuth's theorems A and B with two divisor digits. |
| Division.MulSub | 410kern/misc/gccisms.c:232-244 | Step D4: the window becomes its value minus qhat times the divisor, modulo one power of the base, and the high half of the last borrow is nonzero exactly when that wrapped. |
| Division.AddBack | 410kern/misc/gccisms.c:251-258 | Step D6 adds the divisor to the window modulo one power of the base. |
| Division.ShiftDigits | 410kern/misc/gccisms.c:290-299 | shl multiplies the number in the digits by 2^sh, up to the bits that fall out at the top. |
| Division.LeadingShift | 410kern/misc/gccisms.c:190-192 | The shift that brings the leading divisor digit to at least B/2 and still below B. |
| Division.Normalise | 410kern/misc/gccisms.c:188-196 | Both operands are scaled by the same power of two and the divisor becomes normalised. |
| Division.ShiftBack | 410kern/misc/gccisms.c:268-274 | The remainder digits are shifted back down by d bits, the bits shifted out being the low bits of the last digit. |
| Division.TakeRemainder | 410kern/misc/gccisms.c:263-278 | The stored remainder is the unscaled one. |
| Division.DivideByDigit | 410kern/misc/gccisms.c:157-166 | Short division by one digit: quotient digits and remainder of the whole dividend. |
| Division.DivideByLastDigit | 410kern/misc/gccisms.c:144-170 | The change of plan for a one-digit divisor gives the exact quotient and remainder. |
| Division.DivideStored | 410kern/misc/gccisms.c:173-282 | From the stored operands with the leading zeros of the dividend still in place: exact quotient and remainder. |
| Qsort.Sort | 410kern/stdlib/qsort.c:90-167 | For every comparison function the result is a permutation of the input; for every total preorder it is sorted. |
| Qsort.QuickSort | 410kern/stdlib/qsort.c:96-165 | The same for a part of the array, through the recursion and the tail loop; nothing outside the part changes. |
| Qsort.Round | 410kern/stdlib/qsort.c:105-157 | One round either sorts the part, or leaves it as less than, equal to and greater than the pivot, in that order. |
| Qsort.Partition | 410kern/stdlib/qsort.c:117-144 | The partition ends with equal, less, greater, equal runs that meet, for any comparison function. |
| Qsort.ScanLeft | 410kern/stdlib/qsort.c:122-129 | The left scan keeps the four runs and stops at an element greater than the pivot or where the scans meet. |
| Qsort.ScanRight | 410kern/stdlib/qsort.c:130-137 | The right scan keeps the four runs and stops at an element less than the pivot or where the scans meet. |
| Qsort.VecSwap | 410kern/stdlib/qsort.c:153-157 | Two stretches of r elements trade places and nothing else moves. |
| Qsort.InsertionSort | 410kern/stdlib/qsort.c:98-104 | The fallback sorts its part and only rearranges it. |
| Qsort.Med3IsMedian | 410kern/stdlib/qsort.c:80-88 | med3 picks a median of its three elements, for every total preorder. |
| FreeList.Canonical | 410kern/lmm/lmm_free.c:56-106 | Two ordered, fully coalesced lists that cover the same bytes are equal: a list is a canonical form of its free bytes. |
| FreeList.RangeInOneBlock | 410kern/lmm/lmm_alloc_gen.c:83-91 | In a coalesced list a free range lies inside one block, so looking at single nodes misses nothing. |
| FreeList.CarvedCovers | 410kern/lmm/lmm_alloc_gen.c:100-133 | Carving a range out of a block removes exactly its bytes. |
| FreeList.CarvedSound | 410kern/lmm/lmm_alloc_gen.c:100-133 | Carving keeps a list ordered, on granules and coalesced. |
| FreeList.MergedCovers | 410kern/lmm/lmm_free.c:56-106 | Inserting a range adds exactly its bytes. |
| FreeList.MergedSound | 410kern/lmm/lmm_free.c:56-106 | Inserting with coalescing on both sides keeps a list ordered, on granules and coalesced. |
| FreeList.MergedTotal | 410kern/lmm/lmm_free.c:52-54 | Inserting a range adds exactly its size to the total. |
| FreeList.CarvedTotal | 410kern/lmm/lmm_alloc_gen.c:135-137 | Carving subtracts exactly the size carved from the total. |
| LmmRegion.Region.CarveNode | 410kern/lmm/lmm_alloc_gen.c:100-137 | The splits and relinking of an allocation turn the linked list into the carved list, lower the free count, and write only free memory. |
| LmmRegion.Region.SplitFront | 410kern/lmm/lmm_alloc_gen.c:100-114 | Splitting off the space in front leaves the same list with the block cut at the allocation. |
| LmmRegion.Region.TakeHead | 410kern/lmm/lmm_alloc_gen.c:116-133 | Taking the head of the cut block, with or without a tail left over, gives the carved list. |
| LmmRegion.Region.FindPlace | 410kern/lmm/lmm_free.c:56-60 | The walk stops between the last node below the address and the first one not below it. |
| LmmRegion.Region.GrowPrev | 410kern/lmm/lmm_free.c:62-85 | Growing the node before, around the node after when it touches, gives the merged list. |
| LmmRegion.Region.PlaceNew | 410kern/lmm/lmm_free.c:86-106 | Linking in a new node, merged with the node after when it touches, gives the merged list. |
| LmmRegion.Region.GiveNode | 410kern/lmm/lmm_free.c:52-107 | Freeing turns the linked list into the merged list, raises the free count, and writes only memory that is free afterwards. |
| LmmSearch.AlignUp | 410kern/lmm/lmm_alloc_gen.c:79-89 | The bit-by-bit loop finds the least address, from the start on, with the wanted low bits, whenever there is one below 2^32; it passes the start by less than 2^align_bits. |
| LmmSearch.SomeCongruent | 410kern/lmm/lmm_alloc_gen.c:79-84 | From any start on there is an address with the wanted low bits within 2^align_bits, so the loop can wrap only near the top of memory. |
| LmmSearch.AlignedPastRange | 410kern/lmm/lmm_alloc_gen.c:96-100 | Once the aligned address passes the range constraint no later block of the region can fit: the early break is sound. |
| Lmm.Manager.AllocFromRegion | 410kern/lmm/lmm_alloc_gen.c:64-148 | Within a region: the lowest address that fits, or 0 exactly when none fits; the granules around the block are taken. |
| Lmm.Manager.AllocGen | 410kern/lmm/lmm_alloc_gen.c:26-154 | Sound and complete: the lowest fit of the first region with the flags, costing exactly its enclosing granules, or 0 and nothing changed when no region with the flags has a fit; memory in use is not written. |
| Lmm.Manager.AllocAligned | 410kern/lmm/lmm_alloc_aligned.c:25-31 | The same with an alignment and no range. |
| Lmm.Manager.AllocHead | 410kern/lmm/lmm_alloc.c:47-81 | First fit in one region for whole granules, taking the head of the node. |
| Lmm.Manager.Alloc | 410kern/lmm/lmm_alloc.c:26-85 | First fit over the regions with the flags for the size rounded up to granules, or 0 and nothing changed when none has room. |
| Lmm.Manager.FreeBlock | 410kern/lmm/lmm_free.c:26-107 | The granules around the block become free in the region they lie in and nothing else does, even for blocks that are not aligned. |
| Lmm.Manager.FindFree | 410kern/lmm/lmm_find_free.c:26-73 | The lowest free address from the rounded start on over regions in any order, with the rest of its block and its region's flags; size 0 exactly when there is none. |
| Lmm.Manager.RemoveFree | 410kern/lmm/lmm_remove_free.c:26-48 | Terminates, its inner assertion holds at every pass, and exactly the free bytes from the rounded start to the rounded end are removed. |
| Lmm.RemovesAllThatMeet | 410kern/lmm/lmm_remove_free.c:26-48 | Every granule that meets the range is removed if and only if the range begins on a granule or its first byte was not free. |
| Lmm.FlagsJoin | 410kern/lmm/lmm_alloc_gen.c:51 | A request without attributes is met by every region, and a union of attributes asks for both. |
| Lmm.FlagsSingle | 410kern/lmm/lmm_alloc.c:44 | A single attribute is met by exactly the regions that have its bit. |
| Lmm.Rounding | 410kern/lmm/lmm_add_free.c:34-35 | Rounding gives the last granule boundary not above an address and the first one not below it. |
| Lmm.Manager.AddFree | 410kern/lmm/lmm_add_free.c:26-70 | In every region exactly the part of the inward-rounded block that lies in it becomes free. |
| Lmm.LowMemoryNoWrap | 410kern/lmm/lmm_alloc_gen.c:76-88 | When every free block ends at least 2^align_bits below the top of the address space, and so does the start of the range plus the size, no address computed for any request wraps, wherever the regions end. |
| Lmm.PartialGranuleExample | 410kern/lmm/lmm_remove_free.c:26-48 | A sound list and an unaligned range for which the first, partly covered granule stays free: the byte range given is not all removed. |
| Lmm.CoveredInBounds | 410kern/lmm/lmm_find_free.c:46-47 | Every free byte lies within its region's bounds, so every node does. |
| Lmm.FreeWithinRegion | 410kern/lmm/lmm_alloc_gen.c:47-48 | The free count of a region never exceeds its size, the assertion of every allocation and free. |
| LmmRuns.AccountsTaken | 410kern/lmm/lmm_alloc_gen.c:116-137 | An allocation moves its granules from free to in use: afterwards every initially free byte is still in exactly one place. |
| LmmRuns.AccountsGiven | 410kern/lmm/lmm_free.c:26-107 | Freeing moves them back. |
| LmmRuns.RunAccounts | 410kern/lmm/lmm_free.c:26-107 | After any run of allocations and frees each initially free byte is free or in one live chunk, never both, and every list is sound. |
| LmmRuns.LiveDetermines | 410kern/lmm/lmm_free.c:26-107 | The free lists are determined by what is in use, whatever calls led there. |
| LmmRuns.SameLiveSameLists | 410kern/lmm/lmm_free.c:26-107 | Two moments of a run with the same chunks in use have identical lists. |
| LmmRuns.FreeingAllRestores | 410kern/lmm/lmm_free.c:26-107 | When a run has freed everything, in any order, the lists are those it began with. |
| LmmRuns.LiveApart | 410kern/lmm/lmm_alloc_gen.c:100-137 | Two live chunks of a run never overlap each other or free memory. |
| Malloc.Heap.Alloc | 410kern/malloc/malloc.c:26-37 | A new chunk with its size word in place, or null and nothing changed, and then no region has size + 4 bytes free in a row anywhere; every other chunk keeps its memory. |
| Malloc.NoRoomAnywhere | 410kern/lmm/lmm_alloc.c:39-84 | When no region has the granules, none has even the bytes asked for free in a row, whatever its attributes. |
| Malloc.Heap.Release | 410kern/malloc/free.c:24-28 | Freeing by the stored size word returns exactly the granules taken; other chunks keep their memory. |
| Malloc.Heap.MemAlign | 410kern/malloc/memalign.c:25-46 | The block is a multiple of the least power of two that is at least the alignment; other chunks keep their memory; null only if no region has the bytes free in a row with the payload aligned. For all alignments up to 2^31 whose addresses do not wrap. |
| Malloc.ShiftFor | 410kern/malloc/memalign.c:30-31 | The loop finds the least shift whose power of two is at least the alignment. |
| Malloc.LeastOfShifts | 410kern/malloc/memalign.c:30-31 | A shift would do if and only if it is not below the one found, so an alignment that is a power of two is met as it is. |
| Malloc.NoAlignedRoom | 410kern/malloc/memalign.c:33-39 | When the constrained allocation finds nothing, no region has the bytes free in a row with an aligned end of the header. |
| Malloc.AlignedChunk | 410kern/malloc/memalign.c:33-41 | The lowest chunk meeting the request holds a whole aligned header word and ends where an aligned block begins, even for alignments below the header size, where the offset wraps around. |
| Malloc.Heap.Realloc | 410kern/malloc/realloc.c:28-50 | The common prefix of the payload is kept, the old chunk is freed, other chunks keep their memory; on failure everything is as before; a null block allocates. |
| Malloc.Heap.Move | 410kern/malloc/realloc.c:44-49 | Copying, freeing the old chunk and rewriting the size word keep the payload prefix and every other chunk. |
| Malloc.AllFreedRestores | 410kern/malloc/free.c:24-28 | With no chunk in use the free lists are those the heap began with. |
| BoundaryHeap.Heap.Init | 410user/libmalloc/mm_malloc.c:57-75 | Succeeds exactly when both requests for memory do, and leaves the prologue, one free block of 4096 bytes and the epilogue. |
| BoundaryHeap.Heap.Malloc | 410user/libmalloc/mm_malloc.c:83-112 | 8-aligned payload of at least the size, a block not in use before, no payload in use changed; the first fit is placed when one exists, and only otherwise does the heap grow; null exactly when it cannot, and then no free block has room. The block has less than 16 bytes more than payload and tags need, and free memory falls by just its size. |
| BoundaryHeap.Heap.Free | 410user/libmalloc/mm_malloc.c:120-137 | The block leaves the set in use, nothing else does, payloads in use are kept, free memory grows by just its size, and no two free neighbours remain; null is a no-op. |
| BoundaryHeap.Heap.Realloc | 410user/libmalloc/mm_malloc.c:142-158 | The new block begins with the old payload, the old block is freed, other payloads are kept, and free memory changes by just the two sizes; on failure nothing changes. |
| BoundaryHeap.Heap.ExtendHeap | 410user/libmalloc/mm_malloc.c:192-209 | Appends a free block of an even number of words, merged with a free last block, or fails and changes nothing. |
| BoundaryHeap.Heap.Place | 410user/libmalloc/mm_malloc.c:218-234 | The first asize bytes of the free block are allocated and the rest is split off when it can be a block. |
| BoundaryHeap.Heap.FindFit | 410user/libmalloc/mm_malloc.c:242-254 | The first free block that is large enough, or null exactly when there is none. |
| BoundaryHeap.Heap.Merge | 410user/libmalloc/mm_malloc.c:261-292 | In all four cases header and footer of the combined block are written and no cell outside it changes. |
| BoundaryHeap.Heap.Coalesce | 410user/libmalloc/mm_malloc.c:261-292 | The free block and its free neighbours become one; the blocks in use and their payloads stay. |
| BoundaryHeap.PackParts | 410user/libmalloc/mm_malloc.h:21-29 | Size and allocated bit can be read back from a packed word. |
| BoundaryHeap.ReplacedTiled | 410user/libmalloc/mm_malloc.c:218-292 | Replacing blocks by blocks with the same span and correct tags keeps the heap tiled from prologue to epilogue. |
| BoundaryHeap.CoalescedApart | 410user/libmalloc/mm_malloc.c:261-292 | After coalescing no two neighbours are both free. |
| BoundaryHeap.PlacedApart | 410user/libmalloc/mm_malloc.c:218-234 | Placing and splitting never leaves two free neighbours. |
| BoundaryHeap.BlocksApart | 410user/libmalloc/mm_malloc.c:1-27 | Two different blocks of a tiled heap have no byte in common. |
| BoundaryHeap.CopiedTiled | 410user/libmalloc/mm_malloc.c:1-27 | Whatever a caller writes into a payload, the heap stays tiled and other payloads are kept. |
| BoundaryHeap.LiveDetermines | 410user/libmalloc/mm_malloc.c:261-292 | Two heaps of the same extent with the same blocks in use are tiled identically, whatever calls led there. |
| BoundaryHeap.AllFreed | 410user/libmalloc/mm_malloc.c:120-137 | When everything is freed all memory after the prologue is one free block. |
| BoundaryHeap.AdjustedFits | 410user/libmalloc/mm_malloc.c:93-97 | The adjusted size is a multiple of 8 of at least 16 with room for the payload and both tags, and less than 8 bytes more than that. |
| BoundaryHeap.AdjustedLeast | 410user/libmalloc/mm_malloc.c:93-97 | A block has room for the payload and both tags if and only if it has the adjusted size: it is the least such size. |
| BoundaryHeap.PlacedTotal | 410user/libmalloc/mm_malloc.c:218-234 | Placing takes from the free memory just the block that comes into use: what is cut off stays free. |
| BoundaryHeap.PlacedSize | 410user/libmalloc/mm_malloc.c:218-234 | The block that comes into use has less than 16 bytes more than payload and tags need. |
| BoundaryHeap.NoneLarge | 410user/libmalloc/mm_malloc.c:242-254 | When nothing fits, every free block is too small for the payload and both tags. |
| BoundaryHeap.CoalescedTotal | 410user/libmalloc/mm_malloc.c:261-292 | Coalescing neither gains nor loses free memory. |
| Zone.PageZone.constructor | kern/vmm_zone.c:21-57 | The zone is one free block: the largest power of two of pages that fits after the single page of the order table, which has room for every order; it is aligned. |
| Zone.FloorLog2 | kern/vmm_page.c:141-151 | The position of the highest bit, 0 for 0. |
| Zone.PageZone.GetFreePages | kern/vmm_zone.c:105-129 | Takes the front of the smallest nonempty list of sufficient order and lists its upper halves, each alone on its list, and leaves the rest of every list in its order; or returns null exactly when all those lists are empty; all pages stay accounted for, and aligned blocks stay aligned. |
| Zone.PageZone.Split | kern/vmm_zone.c:66-103 | Splitting lists exactly the upper half of every order down to the wanted one. |
| Zone.PageZone.FreePages | kern/vmm_zone.c:130-187 | For any block of the zone: the invariant is kept if and only if the block is in use or still on the list of its order, and in the latter case nothing changes. A block in use and the free blocks inside one larger block, told by the lists before the call, become that one free block, in front of its list; each list below has lost the first neighbour it had and every other list is unchanged, no two free neighbours of one order remain, and merging stops inside the order table. Aligned blocks stay aligned if and only if only other halves are met. |
| Zone.FreedComesBack | kern/vmm_zone.c:112-125 | A block freed without meeting a neighbour is what the next request of its order gets, and the lists are then as before. |
| Zone.MergedAligned | kern/vmm_zone.c:141-179 | The block that freeing leads to is aligned if and only if it starts aligned and each neighbour taken in is the other half of a block of the next order. |
| Zone.TakingKeepsAligned | kern/vmm_zone.c:66-129 | Splitting keeps every block at a multiple of its size. |
| Zone.FreeingKeepsAligned | kern/vmm_zone.c:130-187 | Freeing keeps every block at a multiple of its size if and only if, in the lists before the call, each neighbour met is an other half. |
| Zone.RangeInOne | kern/vmm_zone.c:141-187 | With nothing in use and every free block aligned, every aligned range of 2^k pages lies in one free block. |
| Zone.RebuiltIff | kern/vmm_zone.c:130-187 | A sound zone with nothing in use is one free block if and only if every free block begins at a multiple of its size. |
| Zone.StrayEnd | kern/vmm_zone.c:130-187 | Freeing a block that overlaps one free or in use ends with two blocks over one page: only a block on the list of its order is recognised. |
| Zone.PageZone.FindNeighbour | kern/vmm_zone.c:142-175 | The scan stops at the first list entry that is the node or adjacent to it, and passes over no such entry. |
| Zone.SplitTiling | kern/vmm_zone.c:72-88 | Splitting a block into halves keeps every page of the zone in exactly one block. |
| Zone.MergeTiling | kern/vmm_zone.c:153-172 | Merging two adjacent blocks of one order keeps every page of the zone in exactly one block. |
| Zone.OnlyOneWhole | kern/vmm_zone.c:142-177 | Two different blocks of one order in a zone are each smaller than the zone, so merging never produces order max_order + 1. |
| Zone.MergePair | kern/vmm_zone.c:153-177 | One merging step, with the neighbour on either side, keeps counts, order fields, lists and tiling right and stays below max_order + 1. |
| Zone.NotRebuilt | kern/vmm_zone.c:105-187 | A run on a zone of four usable pages: taken one by one and freed in the order second, third, first, fourth, they stay three free blocks, since adjacent blocks merge without regard to alignment. |
| VariableQueue.Queues.InsertFront | kern/inc/variable_queue.h:98-109 | Refines putting the element in front of the sequence; every other queue on the link is unchanged. |
| VariableQueue.Queues.InsertTail | kern/inc/variable_queue.h:126-137 | Refines appending the element; every other queue is unchanged. |
| VariableQueue.Queues.InsertAfter | kern/inc/variable_queue.h:208-218 | Refines insertion after a given element. |
| VariableQueue.Queues.InsertBefore | kern/inc/variable_queue.h:235-245 | Refines insertion before a given element. |
| VariableQueue.Queues.Remove | kern/inc/variable_queue.h:267-285 | Refines removal of the element and leaves its links null. |
| VariableQueue.RemovedLinks | kern/inc/variable_queue.h:267-285 | The writes of Q_REMOVE, in its order, give heads and links that spell out the sequence without the element, forwards and backwards, and no other queue changes. |
| VariableQueue.FrontLinks | kern/inc/variable_queue.h:98-109 | The writes of Q_INSERT_FRONT give heads and links that spell out the new sequence, forwards and backwards. |
| VariableQueue.LinksDetermine | kern/inc/variable_queue.h:25-51 | A head and its links spell out at most one sequence. |
| VariableHash.Table.Insert | kern/inc/variable_hash.h:31-36 | Enters the element at the end of its bucket; every bucket still answers for the run of calls so far. |
| VariableHash.Table.Remove | kern/inc/variable_hash.h:38-42 | Takes the element out; every other entry stays. |
| VariableHash.Table.Lookup | kern/inc/variable_hash.h:44-55 | The oldest entry for the key after the run of inserts and removes so far, or null; the element last inserted and not removed if and only if the key has at most one entry. |
| VariableHash.LatestIsLast | kern/inc/variable_hash.h:31-42 | Read backwards, a run names as last inserted and not removed the last of the entries it leaves under the key. |
| VariableHash.LookupIsLastPut | kern/inc/variable_hash.h:31-55 | For runs that enter no element twice, lookup gives the element last inserted for the key and not removed if and only if the key has at most one entry. |
| VariableHash.AlwaysLastPut | kern/inc/variable_hash.h:31-55 | Lookup does so at every moment of a run and for every key if and only if no element is inserted under a key that is taken. |
| VariableHash.IsMap | kern/inc/variable_hash.h:31-55 | With unique keys the table after any run is a finite map: each key has at most the element last inserted for it. |
| VariableHash.OldestWins | kern/inc/variable_hash.h:44-55 | With two elements under one key lookup gives the older one. |
| Sched.Scheduler.AddRunnable | kern/sched.c:360-368 | A new thread enters at the tail of the run queue, able to run. |
| Sched.Scheduler.Yield | kern/sched.c:460-548 | The current thread goes to the tail, done threads are set aside, the front of the run queue runs; the idle thread is current exactly when the run queue is empty; no thread is lost or duplicated. |
| Sched.Scheduler.Requeue | kern/sched.c:484-511 | Step 1: a current thread that can run goes to the tail, one that is done goes to the done queue, a waiting one is left on its list. |
| Sched.Scheduler.NextRunnable | kern/sched.c:513-539 | Step 2: the first thread that can run, threads before it moved to the done queue in order; the idle thread only for an empty queue. |
| Sched.Scheduler.WaitOn | kern/sched.c:636-683 | A thread that can run moves from the run queue to the tail of the wait list with its deadline, and another runs; any other thread is left alone. |
| Sched.Scheduler.WakeupThreads | kern/sched.c:698-760 | Threads with a later deadline stay in their old order; those due go in front of the run queue in reverse order and can run; those no longer waiting go to the done queue. |
| Sched.Scheduler.CleanUp | kern/sched.c:550-561 | Every thread of the done queue is let go, and no other. |
| Sched.Scheduler.AfterSwitch | kern/sched.c:550-568 | After a switch the done queue is emptied and the sleep queue scanned; every admitted thread keeps exactly one place. |
| Sched.Scheduler.ExactlyOnePlace | kern/sched.c:460-568 | A thread admitted and not let go stands in exactly one place of the run queue, the done queue and all wait lists together, its state suits that place, and no other thread stands anywhere. |
| Sched.RequeuedAnywhere | kern/sched.c:489-510 | Wherever the current thread stands in the run queue: able to run it becomes the last, done it leaves, and the others keep their order. |
| Sched.YieldedLast | kern/sched.c:484-539 | After a yield an old current thread that can run is last, behind the others without the done threads in front. |
| Sched.RunsAfterFrom | kern/sched.c:484-539 | With a current thread that is not in front, as after a wakeup, all others run in their order, each after exactly its number of yields, and it runs last. |
| Sched.ScanMembers | kern/sched.c:712-757 | The scan keeps a sleeper if and only if its deadline is later, and wakes it if and only if it is due and waiting. |
| Sched.ScanConcat | kern/sched.c:712-757 | The scan keeps the order of those that stay and of those set aside and reverses that of those woken. |
| Sched.SleepsExactly | kern/sched.c:636-757 | A thread put to sleep for some ticks is woken by a scan if and only if they have passed. |
| Sched.Rotation | kern/sched.c:495-524 | With yields only the run queue rotates. |
| Sched.RunsAfterExactly | kern/sched.c:495-539 | With yields only, the thread at place p runs after exactly p yields and not before. |
| Sched.SkipParts | kern/sched.c:516-539 | The threads passed over cannot run and the one chosen can; together they are the old queue. |
| XenTime.FinishedIff | kern/xen_time.c:111-120 | For every interleaving with fewer than 2^32 version steps, a finished pass has words published together under the version it read if and only if that version is even. |
| XenTime.ParityFirstIsEven | kern/xen_time.c:120 | If the test loads the version for the parity first, a pass that ends has read an even version. |
| XenTime.Shadow.Refresh | kern/xen_time.c:149-161 | The retry loop, for any number of words and any schedule of its loads: it ends with the first pass whose test lets it, and only without one at the end of the schedule; the copies are then those of that pass, and with the parity loaded first they were published together. |
| XenTime.SteadyEnds | kern/xen_time.c:120 | A pass during which the version stays at one even value ends the loop, in either load order. |
| XenTime.Shadow.GetTimeValues | kern/xen_time.c:107-123 | The same for the six words of the time values, in either load order, with the derived multiplier. |
| XenTime.OrderDecides | kern/xen_time.c:120 | For any number of words: every finished pass of every run is consistent if and only if the test loads the version for the parity before it loads it for the comparison. |
| XenTime.EvenIsStable | kern/xen_time.c:107-123 | Under the writer's protocol nothing changes while the version stays at one even value. |
| XenTime.TornRead | kern/xen_time.c:120 | If the test loads the version for the comparison first, a pass over any number of words from two on can end with an odd version and words that were never together under an even one. |
| XenTime.WrapsAround | kern/xen_time.c:111-120 | After exactly 2^32 version steps within one pass it can end with words of two different updates. |
| Mersenne.Generator.Genrand | 410kern/RNG/mt19937int.c:62-96 | The n-th number after seeding, from 0, is the tempering of word 624 + n of the recurrence from the seed; without a seed, from 4357. |
| Mersenne.Generator.Sgenrand | 410kern/RNG/mt19937int.c:50-60 | The array holds the first 624 words of the sequence and nothing has been drawn. |
| Mersenne.Generator.Regenerate | 410kern/RNG/mt19937int.c:68-86 | In-place regeneration moves the array's window on the sequence by exactly 624 words. |
| Mersenne.MixStep | 410kern/RNG/mt19937int.c:74-84 | Each of the three parts reads, from words replaced or not yet replaced, exactly the words the recurrence asks for. |
| Mersenne.StepReads | 410kern/RNG/mt19937int.c:74-84 | A step uses the top bit of one word and the other bits of the next, and nothing else of them. |
| Mersenne.StepUndone | 410kern/RNG/mt19937int.c:74-84 | A step can be undone: its result and the word far ahead give back the bits it used. |
| Mersenne.StepLinear | 410kern/RNG/mt19937int.c:74-84 | A step is linear over exclusive or. |
| Mersenne.RunsAdd | 410kern/RNG/mt19937int.c:74-84 | So is the whole sequence, from its first 624 words on. |
| Mersenne.TopBitOnly | 410kern/RNG/mt19937int.c:74-84 | Of the first word only the top bit matters for the words after it. |
| Mersenne.Tempered | 410kern/RNG/mt19937int.c:89-93 | The four assignments lose nothing: the state word is recovered from the number they give. |
| Mersenne.TemperRoundTrip | 410kern/RNG/mt19937int.c:89-93 | The state word can be recovered from the output. |
| Mersenne.TemperInjective | 410kern/RNG/mt19937int.c:89-93 | Tempering is injective on 32-bit words. |
| Mersenne.OutputsDetermine | 410kern/RNG/mt19937int.c:74-93 | 624 consecutive outputs determine every later one, whatever the seed. |
| Mersenne.OutputsDetermineEarlier | 410kern/RNG/mt19937int.c:74-93 | They determine every earlier word too, but for word 0. |
| Mersenne.OutputsDetermineSeed | 410kern/RNG/mt19937int.c:49-93 | They determine the seed. |
| Mersenne.ZeroSeed | 410kern/RNG/mt19937int.c:49-59 | From seed 0 every word and every number is 0: why the seed must not be 0. |
| NumText.Printnum | 410kern/stdio/doprnt.c:147-163 | For every 32-bit number and base 2 to 16: at most 32 lower-case digits, no leading 0 except for 0 itself, whose value is the number; the buffer is never left. |
| NumText.PrintedCharacters | 410kern/stdio/doprnt.c:147-163 | The text has decimal digits and letters from a to f only. |
| NumText.Strtoul | 410kern/stdlib/strtoul.c:26-61 | Leading space, then an optional 0x, then the longest run of digits of the chosen base, whose value modulo 2^32 is returned with the place after it; stays inside the string. |
| NumText.RoundTrip | 410kern/stdlib/strtoul.c:26-61 | Reading back a printed number gives the number and stops at the NUL, for every 32-bit number and base 2 to 16. |
| NumText.DecimalGuessed | 410kern/stdlib/strtoul.c:38-44 | Base 0 reads a printed decimal number correctly too. |
| NumText.HexRoundTrip | 410kern/stdlib/strtoul.c:32-37 | A printed hexadecimal number after 0x or 0X is read back in base 16 and in base 0. |
| NumText.GivenBase | 410kern/stdlib/strtoul.c:32-57 | A base that is given is the one used; in a base below 16 the text 0x is read as 0 and reading stops at the x. |
| NumText.AnySpelling | 410kern/stdlib/strtoul.c:30-57 | After any blanks, with the base given, marked by 0, 0x or 0X, or guessed, and with letters in either case, a printed number is read back and reading stops right after it. |

## Left out

- Hypercalls, page tables, inline assembly, context switching, event channels, consoles and devices: foreign calls or hardware.
- Thread and task teardown, fork, exec, reference counts and forcing a thread to run: these use the queue links with another discipline.
- Sched.Scheduler.MarkDone: stands for whatever part of the kernel marks a thread done, so that the branches for such threads are reachable.
- lmm_init and lmm_add_region: the regions are given, in the order of their list, when the manager is made.
- Lmm.Manager.AllocGen: calls in which, for some block that is large enough, every address with the wanted low bits, or the end of the request there, would lie past the top of the 32-bit address space are excluded by a precondition.
- Lmm.Manager.AllocAligned: the same.
- Lmm.Manager.AllocFromRegion: the same.
- Lmm.Manager.Alloc: sizes within 8 bytes of 2^32, which the rounding would wrap to 0, are excluded.
- Malloc.Heap.Alloc: the same for the size with its header.
- Malloc.Heap.MemAlign: alignments above 2^31, for which the shift loop would not end, and the wrapping addresses of AllocGen are excluded.
- Malloc.Heap.Realloc: sizes that would wrap with the header added are excluded.
- Sched.Scheduler.WaitOn: tick counter overflow is excluded by a precondition; the idle thread never waits.
- Qsort.Sort: elements are single values; copying an element as longs or as characters (swapfunc and SWAPINIT) is not represented.
- Division.Qdivrem: a divisor of 0 is a fault, as the deliberate division by zero makes it on the processor the code is for.
- Zone.PageZone.FreePages: blocks outside the zone, for which the code writes foreign memory, are excluded; the buddy pointers, which nothing reads, are left out.
- VariableHash.Table.Insert: the hash function is a parameter with values below the table size; the Jenkins hash the scheduler uses is one such function.
- BoundaryHeap.Heap.Malloc: requests within 15 bytes of the largest int, where the C addition overflows, are excluded; whether the kernel grants pages is a parameter.
- XenTime.Shadow.Refresh: the writer's protocol is an assumption, and loads are taken to happen in program order, as the barriers ask; a schedule that ends stands for a reader that is still retrying. The clock arithmetic in monotonic_clock and gettimeofday is left out.
- NumText.Printnum: putc appends to the text; the rest of the formatter is not part of this model.
- VariableQueue.Queues: the elements' other fields and the debugging output are left out; Q_GET_FRONT and its kin are the field reads they are.
- The second copies of these algorithms under 410user, string helpers, ELF and Xen headers and test programs: the same algorithms, or easy members.
