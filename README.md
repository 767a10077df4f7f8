# A verified model of the mm.c segregated-list allocator

This project models the allocator engine of `malloclab-handout/mm.c` in Dafny and
proves its heap invariant. The allocator is a boundary-tag heap: every block carries
a header and a footer holding its size and an allocated bit. A one-word allocated
prologue opens the arena and a zero-size allocated epilogue closes it. Free blocks
sit in eleven doubly-linked segregated lists (`segList`), picked by
`listIndex(size)`. `mm_malloc` has three paths:

- a fast path for blocks of at most 64 bytes, which extends the heap by exactly one
  block without coalescing;
- a first-fit search of the lists from the request's own size class upwards;
- extending the heap by at least `CHUNKSIZE` bytes, coalescing with a free last block.

`place` splits off a rest of at least 32 bytes as a new free block. `mm_free` marks
the block free, pushes it on its list and coalesces it with free neighbours.

The allocator is the class `MM.Allocator`. It holds:

- the tag words written into the arena (`tags`, by byte offset from the prologue);
- the `next`/`prev` link words of free blocks;
- the `segList` array of list heads;
- `brk`, the end of the arena.

Two ghost fields give the abstract view. `blocks` lists the blocks between prologue
and epilogue in address order. `lists` gives the members of each free list from
head to tail.

`Allocator.Valid()` is the invariant every public operation keeps. It says:

- **Tiling:** the blocks tile the arena from offset 8 to the epilogue. The
  epilogue is the last word before `brk`.
- **Boundary tags:** every block's header and footer hold the same tag.
- **Sizes:** every size is a multiple of 8, at least 32, and below 2^31.
- **Links:** the link words spell out `lists`, each list head matches, and no
  block occurs twice.
- **Membership:** each list holds exactly the free blocks whose size maps to it
  under `listIndex`.
- **No adjacent free blocks:** no two neighbouring blocks are both free.

Modules:

| module | file | role |
|---|---|---|
| `Wrappers` | `wrappers.dfy` | `Option` |
| `BlockLayout` | `block_layout.dfy` | tags, constants, offsets (`Off`), `get_footer`, tiling lemmas |
| `SizeClass` | `size_class.dfy` | `LOG2`, `listIndex` and the size classes it selects |
| `FreeLists` | `free_lists.dfy` | linked-list invariant and the effect of `insertblock` / `deleteblock` |
| `Membership` | `membership.dfy` | "every free block is in exactly the list of its class" |
| `Placement` | `placement.dfy` | first fit (`FirstFit`) and the block view after `place` |
| `Coalescing` | `coalescing.dfy` | the block view after `coalesce` and its four cases |
| `Heap` | `heap.dfy` | the layout invariant, what `mm_checkheap` tests, the step lemmas |
| `Adjusting` | `adjust.dfy` | `mm_malloc`'s request adjustment, as written and as intended |
| `MM` | `allocator.dfy` | the `Allocator` class: every operation of the core as a method |

`mm_init` puts its initial free block directly into `segList[10]` rather than
computing the index. `Heap.InitExact` proves that `listIndex(CHUNKSIZE - 16)` is
10, so the two agree.

## Model

| member | source | states |
|---|---|---|
| SizeClass.Log2 | malloclab-handout/mm.c:74 | LOG2(x) is the position of the highest set bit: 2^r <= x < 2^(r+1) |
| SizeClass.ListIndex | malloclab-handout/mm.c:283-287 | every block size of at least 32 bytes maps to one of the eleven lists 0..10 |
| SizeClass.ListIndexClass | malloclab-handout/mm.c:283-287 | listIndex(x) == i exactly when 32·2^i <= x < 32·2^(i+1), with list 10 unbounded above (both directions) |
| SizeClass.InClassUnique | malloclab-handout/mm.c:283-287 | the size ranges of the lists do not overlap |
| SizeClass.ListIndexMono | malloclab-handout/mm.c:283-287 | a larger size never maps to a lower list |
| SizeClass.WordsAligned | malloclab-handout/mm.c:343 | `words << 3` cut to 32 bits is still a multiple of 8 |
| BlockLayout.FooterOf | malloclab-handout/mm.c:542-544 | get_footer, applied to a block's header, lands strictly inside the block, on the word just before the next block's header, and that word holds the same tag as the header |
| BlockLayout.OffAligned | malloclab-handout/mm.c:583-585 | every block header and every payload lies at a multiple of 8 |
| BlockLayout.OffMono | malloclab-handout/mm.c:241 | blocks lie end to end, each at least 32 bytes after the previous, so the heap walk advances |
| BlockLayout.AppendKeeps | malloclab-handout/mm.c:349-364 | extend_heap's new block at the end moves no other block |
| BlockLayout.KeepsTrans | malloclab-handout/mm.c:180-202 | keeping every allocated block in place composes across successive steps (extend, coalesce, place) |
| BlockLayout.AppendNoAdjacentBut | malloclab-handout/mm.c:366-369 | a block appended at the end can break "no adjacent free blocks" only at its own edge |
| FreeLists.PushLinks | malloclab-handout/mm.c:290-305 | insertblock keeps every list doubly linked and NULL-terminated, makes b the head of list i, and changes no other list |
| FreeLists.DeletePosition | malloclab-handout/mm.c:307-331 | the link words of b and of the head say where b is; the head has no prev and no next exactly when the list has one member, which is deleteblock's first test |
| FreeLists.OnlyIn | malloclab-handout/mm.c:307-331 | a member of one list is in no other list |
| Membership.FreeInOneList | malloclab-handout/mm.c:283-305 | a free block is in list c if and only if c == listIndex(its size) |
| Membership.AllocatedInNoList | malloclab-handout/mm.c:214-221 | an allocated block is in no list |
| Membership.MemberBlock | malloclab-handout/mm.c:437-445 | every list member is the header of a free block of that list's size class |
| Placement.FirstFitSpec | malloclab-handout/mm.c:431-450 | first fit: nothing is found exactly when no candidate is free and large enough; otherwise the answer is such a candidate and no earlier candidate is |
| Placement.FirstFitStep | malloclab-handout/mm.c:438-446 | one step of the scan: take the current block if it fits, otherwise go on with the rest |
| Placement.CandidatesMembers | malloclab-handout/mm.c:435-448 | find_fit visits exactly the members of lists listIndex(asize)..10 |
| Placement.PlaceSpec | malloclab-handout/mm.c:380-423 | place allocates block k with room for asize bytes. A rest of at least 32 bytes becomes a free block right after it; a smaller rest stays inside as a splinter. Offsets and the heap end are unchanged, and "no adjacent free blocks" is kept |
| Placement.PlaceKeeps | malloclab-handout/mm.c:380-423 | place leaves every allocated block at its offset with its tag |
| Placement.PlaceExact | malloclab-handout/mm.c:412-422 | a request that uses a free block up exactly only marks that block allocated |
| Placement.PlaceSplinterNoAdjacent | malloclab-handout/mm.c:412-422 | using up a block whole clears the one adjacent-free exception left by extend_heap(…, false) |
| Coalescing.CoalesceCases | malloclab-handout/mm.c:469-534 | the four cases of coalesce, each as the sizes it adds up |
| Coalescing.CoalesceSpec | malloclab-handout/mm.c:461-537 | the merged block starts where the run started, covers exactly the run, is free, and moves no other block |
| Coalescing.CoalesceNoAdjacent | malloclab-handout/mm.c:461-537 | when only block k could have a free neighbour, coalescing leaves no two free blocks adjacent |
| Coalescing.CoalesceKeeps | malloclab-handout/mm.c:461-537 | coalesce merges only free blocks, so every allocated block keeps its offset and tag |
| Heap.LayoutChecked | malloclab-handout/mm.c:230-251 | every heap laid out as the invariant says passes mm_checkheap: prologue, every block through checkblock, epilogue |
| Heap.CheckedAppend | malloclab-handout/mm.c:241-245 | the walk with one more block passes exactly when the walk so far passes and that block passes checkblock where the walk ends |
| Heap.WalkNext | malloclab-handout/mm.c:241 | the tag words decide the walk: if some sequence of blocks passes mm_checkheap inside the arena and the walk so far is a prefix of it, the next word read is inside the arena and is that sequence's next block, passing checkblock, or the epilogue at its end |
| Heap.InitExact | malloclab-handout/mm.c:123-136 | the initial free block of CHUNKSIZE - 16 bytes belongs in list 10, where mm_init puts it |
| Heap.InitLayout | malloclab-handout/mm.c:117-141 | the words mm_init writes lay out prologue, one free block and epilogue, filling CHUNKSIZE bytes |
| Heap.ExtendLayout | malloclab-handout/mm.c:349-364 | the old epilogue becomes the header of the new block, and the new epilogue is the last word of the grown arena |
| Heap.ExtendLists | malloclab-handout/mm.c:357-359 | the new block is in no list yet, and pushing it on its class's list keeps the lists exact |
| Heap.EndAbsent | malloclab-handout/mm.c:349 | the epilogue's offset is in no free list |
| Heap.FreeStep | malloclab-handout/mm.c:214-221 | marking allocated block k free keeps the layout, and pushing it keeps the lists exact; only block k can then have a free neighbour |
| Heap.FitBlock | malloclab-handout/mm.c:188-193 | what find_fit answers is the header of a free block of the heap that holds the request |
| Heap.FitComplete | malloclab-handout/mm.c:431-450 | find_fit answers NULL only when no free block of the heap can hold the request: a larger block never sits in a lower list |
| Heap.MembersTagged | malloclab-handout/mm.c:441 | every list member has a header word that says free |
| Heap.Neighbours | malloclab-handout/mm.c:462-467 | the word before a header is the left neighbour's footer (the prologue for the first block); the word after a block is the right neighbour's header (the epilogue for the last) |
| Heap.MergeLayout | malloclab-handout/mm.c:483-528 | writing the merged size into the run's first header and last footer lays out the coalesced heap |
| Heap.MergeNextLists | malloclab-handout/mm.c:474-491 | case 2: after both blocks leave their lists, pushing the grown block keeps the lists exact |
| Heap.MergePrevLists | malloclab-handout/mm.c:493-511 | case 3: after both blocks leave their lists, pushing the grown left neighbour keeps the lists exact |
| Heap.MergeBothLists | malloclab-handout/mm.c:513-534 | case 4: after all three blocks leave their lists, pushing the grown left neighbour keeps the lists exact |
| Heap.PlaceSplitStep | malloclab-handout/mm.c:389-405 | the split writes lay out the allocated front and the free rest, and the rest is in no list |
| Heap.PlaceSplitLists | malloclab-handout/mm.c:407-409 | pushing the rest on its class's list makes the lists exact |
| Heap.PlaceWholeStep | malloclab-handout/mm.c:412-422 | marking the whole block allocated lays out the placed heap and keeps the lists exact |
| Adjusting.AdjustAsWritten | malloclab-handout/mm.c:162-170 | the adjustment as written, with 64-bit arithmetic and then truncation to uint32_t, always gives a multiple of 8 of at least 32 |
| Adjusting.Adjust | malloclab-handout/mm.c:162-170 | the intended adjustment is the smallest multiple of 8 of at least 32 that holds size + 16; it fails exactly when that does not fit 32 bits |
| Adjusting.AdjustAgrees | malloclab-handout/mm.c:162-170 | wherever the block fits 32 bits, the source computes the intended size |
| Adjusting.AdjustTruncates | malloclab-handout/mm.c:154-170 | a request of 2^32 - 16 bytes gets a 32-byte block as written |
| MM.Allocator.MemSbrk | malloclab-handout/mm.c:344 | mem_sbrk grows the arena and returns its old end, or fails and changes nothing when the arena would exceed the provider's capacity |
| MM.Allocator.InsertBlock | malloclab-handout/mm.c:290-305 | b becomes the head of list index, the old head its next, and the old head's prev is b; the list sequence gains b in front and the links stay consistent |
| MM.Allocator.DeleteBlock | malloclab-handout/mm.c:307-331 | b leaves list index, and the link words and heads still spell out the lists |
| MM.Allocator.FindFit | malloclab-handout/mm.c:431-450 | the answer is the first fit among the members of lists listIndex(asize)..10, in scan order |
| MM.Allocator.Place | malloclab-handout/mm.c:380-423 | the heap becomes the placed view of block k, the invariant is kept, and "no adjacent free blocks" is kept (or restored when the block is used up whole) |
| MM.Allocator.Coalesce | malloclab-handout/mm.c:461-537 | the heap becomes the coalesced view, with no two free blocks adjacent; the result is the merged free block, at least as large as block k |
| MM.Allocator.WriteMerged | malloclab-handout/mm.c:483-489 | writing the merged header and footer and pushing the block yields the coalesced view with the invariant |
| MM.Allocator.MergeNext | malloclab-handout/mm.c:474-491 | case 2 of coalesce yields the coalesced view, with b as the merged block |
| MM.Allocator.MergePrev | malloclab-handout/mm.c:493-511 | case 3 of coalesce yields the coalesced view, with the left neighbour as the merged block |
| MM.Allocator.MergeBoth | malloclab-handout/mm.c:513-534 | case 4 of coalesce yields the coalesced view, with the left neighbour as the merged block |
| MM.Allocator.GrowArena | malloclab-handout/mm.c:340-364 | either the arena grows by size bytes and gains one free block of that size at its end, in its list, or, when mem_sbrk fails, nothing changes |
| MM.Allocator.ExtendHeap | malloclab-handout/mm.c:340-371 | it fails exactly when the 32-bit size is 0 or mem_sbrk fails, and then nothing changes. Otherwise the new free block is appended: coalesced with a free last block when coal holds (the result is then the merged block), left beside it otherwise |
| MM.Allocator.MmInit | malloclab-handout/mm.c:99-144 | it returns -1 exactly when mem_sbrk cannot give CHUNKSIZE bytes. Otherwise the heap is valid and holds one free block of CHUNKSIZE - 16 bytes, the head of list 10, with every other list empty |
| MM.Allocator.MmFree | malloclab-handout/mm.c:214-224 | the block is freed and coalesced: the heap becomes the coalesced view of the freed heap and stays valid. The merged block is free and at least as large, and every other allocated block stays in place |
| MM.Allocator.PlacePayload | malloclab-handout/mm.c:180-202 | place followed by returning the payload: block k is allocated, holds the request, and its payload is header + 8, a multiple of 8 |
| MM.Allocator.ExtendPlace | malloclab-handout/mm.c:175-203 | extend then place. It fails exactly when mem_sbrk fails, and then nothing changes. Otherwise the arena grows by extendSize bytes and the heap gains the allocated block of exactly asize bytes at its end (no coalescing), or becomes the new block coalesced with a free last block with the request placed at the start of the merged block. Every earlier allocated block stays in place |
| MM.Allocator.FitOrExtend | malloclab-handout/mm.c:187-205 | the fit-or-extend half of mm_malloc. When find_fit's first fit exists, that block is placed and the arena is unchanged. Otherwise, when the arena can grow by max(asize, CHUNKSIZE), the grown block is coalesced with a free last block and the request placed at its start. Otherwise NULL and nothing changes. NULL implies that no free block holds asize. The payload is header + 8, a multiple of 8, and every earlier allocated block stays in place |
| MM.Allocator.MmMalloc | malloclab-handout/mm.c:153-206 | NULL for size 0 or an unrepresentable size. A result is the payload (header + 8, so 8-aligned) of an allocated block holding size + 16 bytes. Each path's new heap and arena end are stated: (1) asize <= 64 and the arena can grow by asize: one allocated block of asize bytes is appended; (2) otherwise, when find_fit's first fit exists: that block is placed and the arena is unchanged; (3) otherwise, when the arena can grow by max(asize, CHUNKSIZE): the grown, coalesced block is placed. NULL exactly when, past the fast path, no free block can hold the request and the heap cannot grow by max(asize, CHUNKSIZE); then nothing changes. Every earlier allocated block stays in place, and the invariant is kept |
| MM.Allocator.CheckHeap | malloclab-handout/mm.c:230-251 | true exactly when the walk saw the prologue, blocks that each pass checkblock, and the epilogue, all inside the arena. The walk is the heap's own: whenever any sequence of blocks passes those tests inside the arena, the answer is true and that sequence is what was walked, valid heap or not. On a valid heap it answers true and walks exactly the heap's blocks |

## Left out

- mm_realloc (mm.c:259-274): it is a caller of mm_malloc and mm_free. Its copying of payload bytes and its `exit(1)` are outside the allocator engine.
- printblock and verbose mode: printing is I/O. CheckHeap returns whether mm_checkheap would stay silent instead of printing messages.
- The team record is metadata.
- memlib.c is not part of this model. mem_sbrk is modelled by MemSbrk: it hands out bytes until a fixed `capacity` below 2^31 is reached, and fails after that. The arena therefore never outgrows the 31-bit `block_size` field.
- Addresses are byte offsets from an 8-aligned arena base: the prologue is at 0, and pointers are not 32- or 64-bit values.
- In the source, the 88 bytes of `segList` come from the same mem_sbrk arena before the prologue. Here `segList` is a separate array.
- MmInit requires a fresh arena (`brk == 0`); calling mm_init twice is not modelled.
- The payload bytes are not modelled. Only the tag words and the link words of free blocks are.
- MmFree and Place: the source's field writes that touch only the allocated bit keep the size field as read. The model writes the same tag, so nothing is lost.
- Helper methods split source functions without changing the order of their writes:
  - Coalesce's cases go to MergeNext, MergePrev, MergeBoth and WriteMerged;
  - extend_heap before its final coalesce is GrowArena;
  - the extend-then-place and place-then-return tails of mm_malloc are ExtendPlace and PlacePayload, and its fit-or-extend half is FitOrExtend.
- Place: it does not state that the split-off rest becomes the head of its list, only that the lists hold exactly the free blocks.
- DeleteBlock: it states the new list sequences and the link invariant, not each rewritten link word.
- CheckHeap: a walk that would read past the end of the arena stops with false. In C that read is undefined. A header or footer word inside the arena that was never written also gives false, since the model has no value for it; C would test whatever bytes are there.
- MmFree, Place and Coalesce require a heap that satisfies the invariant and a block in the right state. The source trusts its callers for these, and their misuse is undefined behaviour.

## Findings

| source | as written | input that shows it | evidently intended | confidence | as-written member | corrected member |
|---|---|---|---|---|---|---|
| malloclab-handout/mm.c:163-170 | `asize` is a `uint32_t`, so `((size + 16 + 7) >> 3) << 3` is truncated to 32 bits | `mm_malloc(2^32 - 16)`: the adjusted size 2^32 truncates to 0 and is raised to 32, so a 32-byte block (16 payload bytes) is returned for a 2^32 - 16 byte request | a request whose block does not fit 32 bits yields NULL; every block returned holds size + 16 bytes | not executed | Adjusting.AdjustAsWritten, Adjusting.AdjustTruncates | Adjusting.Adjust, MM.Allocator.MmMalloc |
