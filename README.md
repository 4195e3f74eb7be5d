# Buddy allocator with a sorted free-list queue, in Dafny

This project models the buddy allocator of `buddy.c` and the ordered list of
`libpriqueue.c` it keeps its free blocks in, and proves what they promise.

* The arena `g_memory` is 2^20 bytes. It is made of 256 pages of 4096 bytes
  (`MIN_ORDER` 12, `MAX_ORDER` 20). Addresses are byte offsets from
  `g_memory`, and a page descriptor `&g_pages[i]` is the page index `i`.
* `g_pages[i].blockSize` holds the order of the block page `i` belongs to.
  `free_area[o]` is a priority queue. It holds the first page of every free
  block of order `o`, ordered by page index through `comparer`.
* `buddy_alloc` finds the least order that holds the request. It looks for
  the first non-empty list from that order up. It splits the first block of
  that list, one order at a time, down to the required order, and hands out
  the lower half.
* `buddy_free` finds the buddy of the freed block through the address
  macros. While the buddy is free at the same order, it unlinks the buddy,
  retags both halves one order up and goes on with the lower half.
  Otherwise it lists the block.

The model comes in six modules.

* `PriQueue` (`priqueue.dfy`): the list as a class `Queue` over the
  sequence of its nodes' data. Every operation walks the same loop as the
  C. The specification functions `InsertPos`, `Insert` and `RemoveAll` come
  with lemmas: sorted insert, stability for equal keys, multiset
  preservation, removal count and order preservation.
* `Bits` (`bits.dfy`): powers of two, bitwise XOR on naturals, single bits,
  alignment and aligned runs (`Chunk`), as the address arithmetic needs them.
* `BuddySpec` (`buddy_spec.dfy`):
  * the constants and the three macros;
  * the allocator `State`, which is the `blockSize` of every page and the
    contents of every free list;
  * the invariant `WellFormed`;
  * one function per step of `buddy_alloc` and `buddy_free`:
    `RequiredOrder`, `AvailableFrom`, `SplitStep`, `SplitDown`, `Alloc`,
    `Merge`, `Free`.
* `Buddy` (`buddy.dfy`): the allocator as a class `Allocator` with the
  `blockSize` and `pageIndex` arrays and the `MAX_ORDER + 1` queues of
  `free_area`. Every method follows the loops and branches of the C
  function it models. Each is proved to leave exactly the state the
  matching `BuddySpec` function describes.
* `BuddyProofs` (`buddy_proofs.dfy`): the properties of the specification
  functions:
  * `buddy_init` establishes the invariant;
  * free blocks never overlap;
  * the required order is the least one;
  * `BUDDY_ADDR` flips one bit and is its own inverse;
  * what `buddy_alloc` hands out and what it leaves;
  * `buddy_free` of the block `buddy_alloc` just returned restores the
    state before the allocation.
* `BuddyInvariant` (`buddy_invariant.dfy`): the invariant `WellFormed` is
  kept by every `buddy_alloc` and by every `buddy_free` of an allocated
  block, so any sequence of such calls after `buddy_init` stays inside it.
  Each merge step of `buddy_free` leaves a well-formed state in which the
  merged block is allocated, which is what the recursive call needs.

## Model

| member | source | states |
|---|---|---|
| PriQueue.Queue.constructor | libpriqueue.c:43-68 | priqueue_init: the queue is empty, size 0, with the given comparer |
| PriQueue.Queue.Offer | libpriqueue.c:78-119 | the element goes in at InsertPos (before the first element with a larger key, or at the end), the position is returned, size grows by one, everything else keeps its place |
| PriQueue.InsertPos | libpriqueue.c:88-105 | definition of the position the offer loop stops at: the first element whose comparison with x is negative, or the end; its contract bounds it by the length, and InsertPosBounds and InsertPosUnique characterise it |
| PriQueue.Insert | libpriqueue.c:78-119 | definition of the list after an offer: x linked in at InsertPos; its contract states the length grows by one, and InsertMultiset and InsertKeepsSorted state the rest |
| PriQueue.InsertPosBounds | libpriqueue.c:88-105 | every element in front of the insert position has key at most key(x); the element at the position has a larger key |
| PriQueue.InsertPosUnique | libpriqueue.c:88-115 | the insert position is the only position with those two properties |
| PriQueue.InsertMultiset | libpriqueue.c:78-119 | an offer adds exactly x and keeps every element already queued |
| PriQueue.InsertKeepsSorted | libpriqueue.c:78-119 | an offer keeps a sorted queue sorted |
| PriQueue.InsertAfterEqualKeys | libpriqueue.c:89-95 | an element with the same key as an existing one lands after it, and the existing element keeps its position |
| PriQueue.Queue.Peek | libpriqueue.c:130-137 | NULL exactly when empty, otherwise the front element, which has the least key of a sorted queue; nothing changes |
| PriQueue.Queue.Poll | libpriqueue.c:148-163 | NULL and no change when empty; otherwise the front element is returned and unlinked, size drops by one, the rest stays in order and sorted |
| PriQueue.Queue.At | libpriqueue.c:175-185 | NULL when index >= size, the element at the index otherwise, and for a negative index the front element (NULL when empty); nothing changes |
| PriQueue.Queue.Remove | libpriqueue.c:197-223 | every element identical to x is unlinked, the rest keep their order, the count returned is the number of occurrences of x, size drops by it |
| PriQueue.RemoveAll | libpriqueue.c:197-223 | definition of the list after priqueue_remove: every element identical to x dropped; its contract states x is no longer there, and the RemoveAll lemmas state the rest |
| PriQueue.RemoveAllMultiset | libpriqueue.c:197-223 | after removal x is absent and every other element keeps its multiplicity |
| PriQueue.RemoveAllAppend | libpriqueue.c:202-221 | removal keeps the relative order: it distributes over concatenation |
| PriQueue.RemoveAllSorted | libpriqueue.c:197-223 | removal keeps a sorted queue sorted |
| PriQueue.RemoveAllCount | libpriqueue.c:214-222 | removal shortens the queue by the number of occurrences of x |
| PriQueue.RemoveAllAbsent | libpriqueue.c:202-221 | removing an absent element changes nothing |
| PriQueue.RemoveStep | libpriqueue.c:204-220 | one pass of the removal loop over the node at the cursor: it unlinks it when it is x and steps over it otherwise |
| PriQueue.Queue.RemoveAt | libpriqueue.c:235-257 | NULL and no change when index >= size; otherwise the element at index is returned and unlinked, later elements move up one place, size drops by one |
| PriQueue.Queue.Size | libpriqueue.c:266-269 | the number of nodes between the sentinels |
| Bits.XorPow2 | buddy.c:37-38 | XOR with 2^k flips bit k: it adds 2^k when the bit is clear and subtracts it when set |
| Bits.FlipBitTwice | buddy.c:37-38 | flipping the same bit twice gives the number back |
| Bits.AlignedHalves | buddy.c:178-179 | the two halves of a block aligned to 2^(k+1) are aligned to 2^k, and flipping bit k of the lower one gives the upper one |
| Bits.ChunkRange | buddy.c:189-193 | the aligned run of 2^k numbers that holds x is exactly [x, x + 2^k) when x is aligned |
| BuddySpec.Geometry | buddy.c:26-29 | a page is 2^12 bytes, the arena has 2^8 pages and 2^20 bytes |
| BuddySpec.PageToAddr | buddy.c:31-34 | PAGE_TO_ADDR gives a multiple of PAGE_SIZE, and ADDR_TO_PAGE takes it back to the page |
| BuddySpec.BuddyIndexMacros | buddy.c:178-179 | ADDR_TO_PAGE(BUDDY_ADDR(PAGE_TO_ADDR(x), o)) is page x with bit o - 12 flipped, and it lies in the arena |
| BuddySpec.Comparer | buddy.c:78-83 | when every page holds its own index, comparer is the key difference of the page indices: negative exactly for a lower page, zero exactly for the same page |
| BuddySpec.OfferPage | buddy.c:196-197 | definition of a free list after priqueue_offer through comparer: the page goes in front of the first page with a larger index; its contract states the list grows by one and holds the page |
| BuddySpec.OfferPageIsInsert | buddy.c:196-197 | offering a page to a free list through comparer is the queue's sorted insert by page index |
| BuddySpec.OfferPageMultiset | buddy.c:296 | listing a page adds exactly that page to the list |
| BuddySpec.InitState | buddy.c:91-112 | definition of the state buddy_init leaves: every page of order MAX_ORDER, page 0 the one free block at MAX_ORDER, the other lists empty; its contract states the shape (orders and listed pages in range) |
| BuddySpec.Retag | buddy.c:183-193 | definition of the retagging loops: the pages of the two halves [x, x + d) and [b, b + d), d the distance between x and b, get order o and every other page keeps its order |
| BuddySpec.SameBlock | buddy.c:189-193 | under the invariant, every page of the aligned block at x has x's order |
| BuddySpec.IndexOf | buddy.c:254-264 | the first position of the buddy in the list, the list's length when it is absent; nothing before it is the buddy |
| BuddySpec.FreeCount | buddy.c:238-240 | the count is 0 exactly when every list from the given order up is empty |
| BuddySpec.RequiredOrder | buddy.c:141-150 | definition of step one of buddy_alloc, corrected to refuse oversize requests: an order found is in range and its blocks hold the request; RequiredOrderLeast and RequiredOrderNone state it is the least one and when there is none |
| BuddySpec.FitFrom | buddy.c:142-150 | an order found is in range and its blocks hold size bytes |
| BuddySpec.FitFromNone | buddy.c:142-150 | the search finds nothing exactly when even 2^MAX_ORDER bytes are too few |
| BuddySpec.RequiredOrderNone | buddy.c:141-150 | no order exists exactly when the request exceeds the 2^20-byte arena |
| BuddySpec.AvailableFrom | buddy.c:154-162 | the first non-empty list from the given order up: every list before it is empty, and None exactly when all are empty |
| BuddySpec.RequiredOrderAsWritten | buddy.c:141-150 | the order as the C computes it: 0 or an order in range |
| BuddySpec.ScanAsWritten | buddy.c:155-158 | the unbounded scan stops at an order from the start up to MAX_ORDER + 1 |
| BuddySpec.ScanAsWrittenReads | buddy.c:155-162 | the unbounded scan agrees with AvailableFrom, and it reaches index MAX_ORDER + 1 exactly when AvailableFrom finds nothing |
| BuddySpec.ScanPastEnd | buddy.c:155-158 | with every list empty, the scan reads free_area[21], past the end of the array |
| BuddySpec.OversizeAsWritten | buddy.c:141-158 | a request of 2^20 + 1 bytes gets order 0, and the scan from order 0 over the lists of buddy_init picks the whole arena; the corrected RequiredOrder gives None |
| BuddySpec.SplitStep | buddy.c:169-198 | definition of one pass of the split loop: unlink the first block of order i, retag its halves with order i - 1, offer the lower then the upper half at order i - 1; its contract states the shape and that list i - 1 is then non-empty |
| BuddySpec.SplitDown | buddy.c:169-198 | definition of the split loop from the available order down to the required one, one SplitStep per pass; its contract states the shape and that the required list is then non-empty |
| BuddySpec.SplitStepHalves | buddy.c:169-198 | one split pass unlinks the first block x of order i, retags [x, x + 2·Span(i-1)) with order i - 1, and lists x and x + Span(i-1) at order i - 1 |
| BuddySpec.SplitGeometry | buddy.c:173-193 | the block a split takes and its buddy are the two aligned halves of the block, inside the arena |
| BuddySpec.SplitStepAligned | buddy.c:169-198 | a split pass lists only blocks aligned to their order |
| BuddySpec.SplitDownAligned | buddy.c:169-198 | so does the whole split loop |
| BuddySpec.SplitDownNext | buddy.c:169-198 | one more pass of the split loop takes SplitDown one order lower |
| BuddySpec.Alloc | buddy.c:128-209 | definition of buddy_alloc on the state, with the oversize check of the Findings: NULL and no change without an order or a block, otherwise SplitDown and the unlink of the head of the required list; its contract states the shape, and AllocNull, AllocServesFirstBlock, AllocSplitsBlock, AllocKeepsWellFormed and AllocFreeRoundTrip state what it does |
| BuddySpec.AllocNoOrder | buddy.c:141-165 | case analysis of the definition Alloc: with no order large enough, buddy_alloc returns NULL and changes nothing |
| BuddySpec.AllocNoBlock | buddy.c:154-165 | case analysis of the definition Alloc: with no block in any list from the required order up, buddy_alloc returns NULL and changes nothing |
| BuddySpec.AllocServed | buddy.c:167-207 | case analysis of the definition Alloc: otherwise buddy_alloc splits down to the required order and unlinks and returns the first block there |
| BuddySpec.Merge | buddy.c:255-282 | definition of one merge of buddy_free: the buddy unlinked from its list at position k, both halves retagged with order o + 1; its contract states the shape |
| BuddySpec.Free | buddy.c:220-298 | definition of buddy_free on the state: the top-order guard with its count, the buddy search, a merge and the free of the lower half, or the final offer; its contract states the shape, and FreeKeepsWellFormed and AllocFreeRoundTrip state what it does |
| BuddySpec.MergeGeometry | buddy.c:248-282 | a block and its buddy are the two halves of an aligned block one order up, which lies in the arena |
| BuddySpec.FreeTop | buddy.c:236-244 | case analysis of the definition Free: freeing a block of order MAX_ORDER lists it exactly when every list is empty, and otherwise changes nothing |
| BuddySpec.FreeMerges | buddy.c:269-292 | case analysis of the definition Free: when the buddy is listed, buddy_free unlinks it, retags both halves one order up, and frees the lower half |
| BuddySpec.FreeAfterMerge | buddy.c:269-292 | the merged block is the lower half, of order o + 1 and aligned to it, and freeing it is what is left of the free |
| BuddySpec.FreeLists | buddy.c:294-297 | case analysis of the definition Free: when the buddy is not listed, buddy_free lists the block at its order and changes nothing else |
| Buddy.Allocator.EmptyLists | buddy.c:104-107 | priqueue_init on each of n fresh, distinct lists: each is empty and keyed by page index |
| Buddy.Allocator.NewPages | buddy.c:95-101 | the page loop of buddy_init: fresh arrays in which page i has order MAX_ORDER and pageIndex i |
| Buddy.Allocator.NewFreeArea | buddy.c:103-111 | the lists of buddy_init: fresh, distinct queues, each empty but free_area[MAX_ORDER], which holds page 0 |
| Buddy.Allocator.constructor | buddy.c:91-112 | buddy_init: page i has pageIndex i and order MAX_ORDER, and the only free block is page 0 at MAX_ORDER |
| Buddy.Allocator.SetOrder | buddy.c:189-193 | the retagging loop sets the order of exactly the pages of the two halves |
| Buddy.Allocator.OfferTo | buddy.c:196-197 | priqueue_offer on free_area[o] inserts the page by index into list o; no other list and no order changes |
| Buddy.Allocator.RemoveAtFrom | buddy.c:260 | priqueue_remove_at on free_area[o] unlinks and returns the page at the index; nothing else changes |
| Buddy.Allocator.TakeFirst | buddy.c:173 | priqueue_remove_at(..., 0) unlinks and returns the first page of list o |
| Buddy.Allocator.OfferBoth | buddy.c:196-197 | the two offers of a split pass: list o gets the lower half then the upper half, nothing else changes |
| Buddy.Allocator.Detach | buddy.c:171-193 | the split pass unlinks the first block x, finds its buddy x + Span(i-1) through the macros, and retags both halves |
| Buddy.Allocator.Split | buddy.c:169-198 | one pass of the split loop leaves SplitStep of the state before it |
| Buddy.Allocator.RequiredOrderOf | buddy.c:141-150 | step one of buddy_alloc: 0 exactly when no order holds the request, otherwise RequiredOrder |
| Buddy.Allocator.FirstAvailable | buddy.c:154-162 | step two: the first order from the required one with a free block, MAX_ORDER + 1 exactly when AvailableFrom finds none |
| Buddy.Allocator.SplitFrom | buddy.c:169-198 | the split loop leaves SplitDown of the state before it |
| Buddy.Allocator.Serve | buddy.c:200-207 | the first block of the required order is unlinked and its offset returned |
| Buddy.Allocator.Alloc | buddy.c:128-209 | buddy_alloc leaves the state and returns the offset the function BuddySpec.Alloc gives |
| Buddy.Allocator.CountFree | buddy.c:238-240 | the count of free blocks over every order from MIN_ORDER |
| Buddy.Allocator.Unlink | buddy.c:254-264 | the buddy search reports whether the buddy is listed and, if so, unlinks its first occurrence and nothing else |
| Buddy.Allocator.FreeTopBlock | buddy.c:236-244 | the base case of buddy_free leaves BuddySpec.Free of the state before it |
| Buddy.Allocator.MergeHalves | buddy.c:270-282 | retagging both halves one order up leaves the lower half as a block of order o + 1, whose free completes the free of x |
| Buddy.Allocator.ListBlock | buddy.c:294-297 | listing the block when its buddy is not free leaves BuddySpec.Free of the state before it |
| Buddy.Allocator.FreeMerged | buddy.c:283-292 | the recursive call on the lower half completes the free of x |
| Buddy.Allocator.FreeBelowTop | buddy.c:246-297 | buddy_free of a block below MAX_ORDER leaves BuddySpec.Free of the state before it |
| Buddy.Allocator.Free | buddy.c:220-298 | buddy_free leaves BuddySpec.Free of the state before it |
| BuddyProofs.InitWellFormed | buddy.c:91-112 | the state buddy_init leaves satisfies the invariant: aligned free blocks, uniform block orders, consistent sorted lists, no two free buddies |
| BuddyProofs.ListedBlock | buddy.c:196-197 | a listed block of order o is aligned, lies in the arena, and all its pages have order o |
| BuddyProofs.NestedFreeBlock | buddy.c:196-197 | a free block that starts inside another free block is that block |
| BuddyProofs.FreeBlocksDisjoint | buddy.c:196-197 | two different free blocks occupy disjoint page ranges |
| BuddyProofs.RequiredOrderLeast | buddy.c:142-150 | every order below the required one is too small for the request |
| BuddyProofs.SmallRequestMinOrder | buddy.c:142-150 | every request of at most one page, zero and negative sizes included, is served from MIN_ORDER |
| BuddyProofs.BuddyAddrFlips | buddy.c:37-38 | BUDDY_ADDR complements bit o of the offset and keeps every other bit |
| BuddyProofs.BuddyAddrTwice | buddy.c:37-38 | the buddy's buddy is the block itself |
| BuddyProofs.BuddyIndexTwice | buddy.c:178-179 | the same on page indices |
| BuddyProofs.BuddyIndexAbove | buddy.c:178-179 | for a block aligned to order o + 1, its buddy at order o is Span(o) pages above it |
| BuddyProofs.SplitStepLists | buddy.c:169-198 | a split pass moves the first block of order i to the two halves at order i - 1 in the lists |
| BuddyProofs.InsertTwoIntoEmpty | buddy.c:196-197 | both halves offered to an empty list give the list [lower, upper] |
| BuddyProofs.HeadDown | buddy.c:169-198 | along the split loop, the block taken at the first available order stays at the head of each lower list |
| BuddyProofs.ListsDown | buddy.c:169-198 | along the split loop, each order between the required and the available one holds exactly the upper half split off at it |
| BuddyProofs.OrdersDown | buddy.c:169-198 | along the split loop, the lower block keeps halving and no page outside the split block changes order |
| BuddyProofs.AllocNull | buddy.c:141-165 | buddy_alloc returns NULL exactly when the request exceeds the arena or no list from its order up has a block, and then changes nothing |
| BuddyProofs.AllocServesFirstBlock | buddy.c:117-123 | on success the block handed out is the lowest free block of the first non-empty order, at an offset that is a multiple of 2^required |
| BuddyProofs.AllocSplitsBlock | buddy.c:117-123 | on success the handed-out block is no longer free and has the required order; each order in between holds exactly one split-off upper half; no other list and no page outside the split block changes |
| BuddyProofs.HeadIsLeast | buddy.c:202 | the head of an ascending free list is its lowest block |
| BuddyProofs.RetagTwice | buddy.c:278-282 | retagging the halves of a block one order down and back up restores the orders |
| BuddyProofs.SplitThenTake | buddy.c:169-207 | a last split pass followed by the unlink of the lower half leaves only the upper half listed |
| BuddyProofs.MergeRestores | buddy.c:269-282 | merging the two halves of a split block restores the state before the split |
| BuddyProofs.MergeBack | buddy.c:269-292 | freeing the lower half while its buddy is the only block listed at its order is freeing the whole block |
| BuddyProofs.MergeUndoesSplit | buddy.c:211-216 | freeing the lower half after one more split is freeing the block before the split |
| BuddyProofs.UndoChain | buddy.c:211-216 | freeing the handed-out block undoes every split pass of the allocation |
| BuddyProofs.TopAlone | buddy.c:236-244 | under the invariant, a free block of order MAX_ORDER is page 0 and every other list is empty |
| BuddyProofs.FreeRestores | buddy.c:236-297 | freeing the first free block of an order right after unlinking it restores the state |
| BuddyProofs.AllocFreeRoundTrip | buddy.c:211-216 | under the invariant, buddy_free of the offset buddy_alloc has just returned gives back exactly the state before buddy_alloc |
| BuddyInvariant.UniformSplit | buddy.c:189-193 | retagging both halves of an aligned block whose pages all have order o to order o - 1 keeps every block uniform and every order in range |
| BuddyInvariant.UniformMerge | buddy.c:278-282 | retagging the pages of an aligned block of order n, all of order at most n, to order n keeps every block uniform |
| BuddyInvariant.UniformDown | buddy.c:169-198 | along the split loop every block stays uniform, and each upper half split off at order l starts a block of order l |
| BuddyInvariant.OutsideTaken | buddy.c:173 | every free block other than the one the split loop takes lies outside it |
| BuddyInvariant.HandedOutAligned | buddy.c:169-207 | every list buddy_alloc leaves holds only blocks aligned to its order |
| BuddyInvariant.HandedOutConsistent | buddy.c:169-207 | every list buddy_alloc leaves holds blocks of its own order, in ascending page order |
| BuddyInvariant.HandedOutNoBuddies | buddy.c:169-207 | buddy_alloc leaves no two buddies free at the same order |
| BuddyInvariant.HandedOutWellFormed | buddy.c:169-207 | the state a successful buddy_alloc leaves satisfies the invariant |
| BuddyInvariant.AllocServedKeeps | buddy.c:167-207 | a served request keeps the invariant, returns the offset of the head of the first non-empty list, and leaves that block allocated |
| BuddyInvariant.AllocKeepsWellFormed | buddy.c:128-209 | every buddy_alloc, served or not, keeps the invariant, and a returned offset starts an allocated block |
| BuddyInvariant.OfferPageAscending | libpriqueue.c:88-115 | offering a page that is not listed keeps a free list strictly ascending |
| BuddyInvariant.RemoveAscending | buddy.c:260 | unlinking one position keeps a free list strictly ascending and removes that page from it |
| BuddyInvariant.HalfIsBuddy | buddy.c:255-264 | a free block of the freed block's order inside the freed block or inside its free buddy is that buddy |
| BuddyInvariant.MergeOrders | buddy.c:272-282 | a merge makes the aligned block of order o + 1 made of the two halves, whose pages all had order o, a block of order o + 1, and changes no other page |
| BuddyInvariant.MergedOutside | buddy.c:255-282 | no page still listed after a merge lies in the merged block |
| BuddyInvariant.MergeConsistent | buddy.c:255-282 | after a merge every listed page still has its list's order and every list stays ascending |
| BuddyInvariant.MergeAligned | buddy.c:260 | unlinking the buddy keeps every list aligned |
| BuddyInvariant.MergeNoBuddies | buddy.c:260 | unlinking the buddy leaves no two buddies free at the same order |
| BuddyInvariant.MergeKeeps | buddy.c:269-292 | the state after a merge satisfies the invariant, and the lower half is an allocated block of order o + 1, so the recursive buddy_free meets its own precondition |
| BuddyInvariant.ListKeepsLists | buddy.c:294-297 | listing a freed block keeps every list aligned, of its own order and ascending |
| BuddyInvariant.ListKeepsBuddies | buddy.c:294-297 | listing a freed block whose buddy is not free leaves no two buddies free at the same order |
| BuddyInvariant.ListKeeps | buddy.c:294-297 | listing a freed block whose buddy is not free keeps the invariant |
| BuddyInvariant.TopAloneKeeps | buddy.c:241-242 | with every list empty, listing the whole arena as the one free block at page 0 gives a well-formed state |
| BuddyInvariant.FreeTopKeeps | buddy.c:236-244 | freeing an allocated block of order MAX_ORDER keeps the invariant |
| BuddyInvariant.FreeKeepsWellFormed | buddy.c:220-298 | buddy_free of an allocated block keeps the invariant, through every merge and the final listing |

## Left out

- `buddy_dump` prints only. `priqueue_destroy` and the `malloc`/`free` of list nodes are memory management. Neither has a counterpart here.
- The list's nodes and sentinels are abstracted as the sequence of their data. A failing `malloc` in `priqueue_offer` is not modelled, and neither is the address identity of nodes.
- The bytes of `g_memory` are not modelled: the allocator never reads or writes them.
- The `list`, `blockAddress` and `inUse` fields of `page_t` are not modelled. `blockAddress` is `PAGE_TO_ADDR(pageIndex)` and the other two are never used. Pointers into `g_memory` are byte offsets, so the casts in the macros are arithmetic on naturals.
- `free_area[0..11]` are modelled as empty lists. The C never initialises them: as globals they start with size 0 and a NULL head and tail, so any offer into one of them dereferences NULL. The model never offers into them, because it refuses requests larger than the arena (see Findings).
- BuddySpec.Comparer: the C subtraction of two `int` page indices is exact for indices below 256, so overflow is not modelled.
- Buddy.Allocator.Free: a freed address that `buddy_alloc` did not return, or one freed twice, is undefined use. The method requires only what memory safety of the model needs: an offset on a page boundary inside the arena, aligned to its page's order. AllocFreeRoundTrip states the round trip under the invariant.
- Buddy.Allocator.Free: the two recursive calls of buddy.c:283-292 both free the lower of the two halves. FreeMerged models them as one call on that page.
- PriQueue.Queue.RemoveAt: requires a non-negative index. With a negative index the loop of libpriqueue.c:241 never reaches it and walks off the list. PriQueue.Queue.At, whose loop does stop, is modelled as written for negative indices.
- Buddy.Allocator.Alloc and BuddySpec.Alloc: they return NULL for a request larger than the arena. The C goes on with order 0 (see Findings), so those requests follow the corrected behaviour.
- Buddy.Allocator.FirstAvailable: the scan stops at MAX_ORDER + 1 instead of reading past free_area (see Findings). The duplicated check of buddy.c:164 is dead code and has no counterpart.
- BuddyInvariant.FreeKeepsWellFormed: the invariant is kept only for the free of an allocated block, one that starts a block and is in no free list. Freeing anything else is undefined use of buddy_free, as for Buddy.Allocator.Free.
- The allocator's queues are modelled as page indices with an integer key. The function-pointer comparer is modelled through its sign only, as the queue uses it.

## Findings

| source | as written | input that shows it | evidently intended | confidence | as-written member | corrected member |
|---|---|---|---|---|---|---|
| buddy.c:141-150 | when no order up to MAX_ORDER holds the request, `required_page_size` stays 0 and nothing checks it; the scan then starts at `free_area[0]`, passes the uninitialised lists 0..11 (size 0) and picks the whole arena at order 20; the split loop runs down to `i = 12`, whose `priqueue_offer(&free_area[11], …)` reads `q->head->next` through the NULL head of that never-initialised list (libpriqueue.c:84) | `buddy_alloc(1048577)` right after `buddy_init` | return NULL for a request larger than the arena | not executed | BuddySpec.OversizeAsWritten | BuddySpec.RequiredOrderNone |
| buddy.c:155-158 | the scan for a non-empty list has no upper bound, so it reads `free_area[MAX_ORDER + 1]`, one past the array, before the check at buddy.c:159 | `buddy_alloc(4096)` when every free list is empty, e.g. after `buddy_alloc(1048576)` | stop the scan at MAX_ORDER and return NULL | not executed | BuddySpec.ScanPastEnd | BuddySpec.AvailableFrom |
