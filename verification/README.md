# CS:APP lab solutions, modelled in Dafny

This project models the sequential core of four CS:APP lab solutions and
proves what each promises.

- **The implicit-free-list allocator of malloclab (`mm.c`).** The heap is
  one growable byte buffer (`Mm.Allocator.mem`) that memlib's `mem_sbrk`
  extends. Each block carries a 4-byte header and a 4-byte footer holding
  `size | alloc`. A prologue `PACK(8, 1)` and an epilogue `PACK(0, 1)`
  bound the chain of ordinary blocks. A ghost list of blocks
  (`Mm.Allocator.blocks`) names the chain, and `MmHeap.HeapOk` ties it to
  the bytes:
  - every header equals its footer;
  - every size is a multiple of 8 and at least 16;
  - the blocks tile the heap from the prologue to the epilogue;
  - no two neighbouring blocks are free.

  Every writing step of `place`, `coalesce`, `extend_heap`, `mm_init`,
  `mm_malloc`, `mm_free` and `mm_realloc` is a method of the
  `Mm.Allocator` class. Each is specified by a function on values in
  `MmHeap`: `PlaceMem`, `CoalesceMem`, `ExtendMem`, `InitMem`,
  `SetTags`. Lemmas then prove that each step keeps the heap well formed.
  They also prove that it leaves every other allocated block, payload
  included, byte for byte as it was (`MmHeap.AllocKept`). `size_t` is 32
  bits wide, as on the 32-bit target the lab builds for, and
  `ALIGN`/`PACK`/`GET_SIZE`/`GET_ALLOC` are modelled bit by bit
  (`MmCodec`, `Bits`).
- **The LRU cache simulator of cachelab (`cachelab.c`).** `cache_t` is
  the class `CacheLab.Cache`. It holds one array of lines per set, linked
  by prev/next positions into an MRU→LRU list, plus `heads`, `tails` and
  the hit, miss and eviction counters. Ghost fields mirror each set's
  array and list order. `CacheSet` proves that the relinking of
  `cacheUseBlk` moves a line to the front of that list. `CacheLru` states
  the LRU policy on the list read in order:
  - the valid lines come first;
  - their tags are distinct;
  - a hit moves the line to the front;
  - a miss re-tags the LRU line, and evicts it when it was valid.

  `CacheBits` proves that the masks of `initCache` split an address into
  tag, set and offset, and that putting the parts back together gives the
  address.
- **The matrix transpose kernels (`trans.c`).** The baseline `trans`, the
  blocked 32×32 and 64×64 kernels of `transpose_submit`, and
  `is_transpose` all work in place on `array2<int>` matrices. Every
  kernel modifies `B` only, so `A` is never written.
- **The job table and command-line tokenizer of the tiny shell (`tsh.c`).**
  The 16-slot `jobs` array and the `nextjid` counter form the class
  `TshJobs.JobTable`. `parseline` walks the line with an index. A
  reference definition (`TshParse.Scan`) and a rendering of arguments
  back into a line (`TshParse.Unparse`) give it a round trip.

## Model

| member | source | states |
|---|---|---|
| MmCodec.AddWrap | malloclab/malloclab-handout/mm.c:32 | the sum of two 32-bit words wraps around to (x + y) mod 2^32 |
| MmCodec.NotSeven | malloclab/malloclab-handout/mm.c:32 | the mask ~0x7 on a 32-bit word is 0xFFFFFFF8 |
| MmCodec.ClearLow3 | malloclab/malloclab-handout/mm.c:50 | and-ing a word with ~0x7 rounds it down to a multiple of 8 |
| MmCodec.AlignMeaning | malloclab/malloclab-handout/mm.c:29-32 | ALIGN(n) is the least multiple of 8 at or above n when n + 7 does not wrap, and a number below 8 when it does |
| MmCodec.AlignOfSizeT | malloclab/malloclab-handout/mm.c:35 | SIZE_T_SIZE = ALIGN(sizeof(size_t)) is 8 |
| MmCodec.Align | malloclab/malloclab-handout/mm.c:32 | ALIGN(n) = (n + 7) & ~0x7 on a 32-bit size_t, the sum wrapping around; the result is a multiple of 8 below 2^32 (MmCodec.AlignMeaning says which) |
| MmCodec.GetSize | malloclab/malloclab-handout/mm.c:50 | GET_SIZE of a header word: the word and ~0x7, its three low bits cleared; MmCodec.ClearLow3 states that this is the multiple of 8 at or below the word |
| MmCodec.GetAlloc | malloclab/malloclab-handout/mm.c:51 | GET_ALLOC of a header word: the word and 0x1, which is 0 or 1 |
| MmCodec.Word | malloclab/malloclab-handout/mm.c:47 | GET(p): the little-endian unsigned 32-bit word at p, below 2^32 |
| MmCodec.PutWord | malloclab/malloclab-handout/mm.c:48 | PUT(p, v): the four bytes at p hold v mod 2^32 little-endian; the length and every other byte are kept |
| MmCodec.PackRoundTrip | malloclab/malloclab-handout/mm.c:45-51 | for a size that is a multiple of 8 and an alloc bit, PACK is their sum, and GET_SIZE and GET_ALLOC read back exactly the size and the bit |
| MmCodec.WordPut | malloclab/malloclab-handout/mm.c:47-48 | GET at p after PUT(p, v) gives v |
| MmCodec.WordFrame | malloclab/malloclab-handout/mm.c:47-48 | PUT(p, v) leaves every word that does not overlap p unchanged |
| Mm.MallocSize | malloclab/malloclab-handout/mm.c:203 | newsize = ALIGN(size + SIZE_T_SIZE), both additions wrapping around on a 32-bit size_t; a multiple of 8 below 2^32 |
| Mm.MallocSizeMeaning | malloclab/malloclab-handout/mm.c:203 | up to size 2^32 - 16, newsize is size + 8 rounded up to a multiple of 8 |
| Mm.MallocSizeWraps | malloclab/malloclab-handout/mm.c:203 | as written, newsize wraps: mm_malloc(0xFFFFFFFF) asks for 8 bytes and mm_malloc(0xFFFFFFF8) for 0 |
| Mm.PlaceZeroAsWritten | malloclab/malloclab-handout/mm.c:121-135 | place(bp, 0) as written on a free block: FTRP(bp) is bp - 8, so the previous block's footer becomes PACK(0, 1); NEXT_BLKP(bp) is bp, so the block ends free with its whole size, and mm_malloc would return it |
| Mm.Min | malloclab/malloclab-handout/mm.c:42 | MIN is at most both arguments and equal to one of them |
| Mm.Max | malloclab/malloclab-handout/mm.c:43 | MAX is at least both arguments and equal to one of them |
| MmHeap.MacrosWalk | malloclab/malloclab-handout/mm.c:53-63 | in a well-formed heap, FTRP of a block is its last word, and NEXT_HDRP/NEXT_BLKP and PREV_FTRP/PREV_BLKP step to the next and previous blocks of the chain, prologue and epilogue included |
| MmHeap.TilesDistinct | malloclab/malloclab-handout/mm.c:53-63 | two different blocks of the chain have different block pointers |
| MmHeap.Hdrp | malloclab/malloclab-handout/mm.c:54 | HDRP(bp): the header word sits WSIZE bytes before bp |
| MmHeap.Ftrp | malloclab/malloclab-handout/mm.c:55 | FTRP(bp): bp + GET_SIZE(HDRP(bp)) - DSIZE, the size read from the header in the current heap; MmHeap.MacrosWalk states it is the block's last word |
| MmHeap.NextBlkp | malloclab/malloclab-handout/mm.c:59-63 | NEXT_BLKP(bp): NEXT_HDRP(bp) + WSIZE, through FTRP, so the size is read from bp's header; MmHeap.MacrosWalk states it steps to the next block |
| MmHeap.PrevBlkp | malloclab/malloclab-handout/mm.c:58-62 | PREV_BLKP(bp): bp minus the size read from the footer at PREV_FTRP(bp); MmHeap.MacrosWalk states it steps to the previous block |
| MmHeap.SetTags | malloclab/malloclab-handout/mm.c:126-127 | the pair PUT(HDRP(bp), PACK(size, alloc)); PUT(FTRP(bp), PACK(size, alloc)): the block's tag written to its header and to its last word, the heap's length kept |
| Mm.HeapChain | malloclab/malloclab-handout/mm.c:84-86 | walking with NEXT_BLKP from heap_listp visits the blocks in address order and stops at the epilogue, the only header of size 0 |
| MmHeap.FirstFitFrom | malloclab/malloclab-handout/mm.c:83-91 | the reference first fit: the first block from i on that is free and holds asize bytes, or the list length when there is none |
| MmHeap.BestFitIn | malloclab/malloclab-handout/mm.c:104-119 | the reference best fit over the first n blocks, scanned as best_fit's loop does: -1 or the index of a block among them (MmHeap.BestFitInMeaning states which) |
| MmHeap.FitIndex | malloclab/malloclab-handout/mm.c:207-213 | the block the FIT_STRATEGY policy picks (first_fit, next_fit or best_fit), or -1 for NULL |
| MmHeap.FirstFitFromMeaning | malloclab/malloclab-handout/mm.c:83-91 | the reference first fit picks a free block of at least the requested size and passes over no such block before it |
| MmHeap.BestFitInMeaning | malloclab/malloclab-handout/mm.c:104-119 | the reference best fit picks a free block strictly larger than the request whose size is least among such blocks, the earliest on ties, and picks none exactly when no block qualifies |
| MmHeap.FitIndexMeaning | malloclab/malloclab-handout/mm.c:83-119 | every policy picks a free block large enough for the request, and picks none only when there is no such block (best fit: no strictly larger one) |
| MmHeap.BestFitSkipsExact | malloclab/malloclab-handout/mm.c:112 | best_fit never takes a free block of exactly the requested size |
| Mm.FitFound | malloclab/malloclab-handout/mm.c:83-119 | the block a policy picks is free, holds the request and is no allocated block's payload |
| Mm.Allocator.FirstFit | malloclab/malloclab-handout/mm.c:83-91 | first_fit's walk returns the block pointer of the reference first fit, or NULL when it reaches the epilogue |
| Mm.Allocator.NextFit | malloclab/malloclab-handout/mm.c:93-102 | next_fit returns the same block as first_fit |
| Mm.Allocator.BestFit | malloclab/malloclab-handout/mm.c:104-119 | best_fit's walk, carrying best and best_diff = (size_t)-1, returns the block pointer of the reference best fit, or NULL |
| MmHeap.PlaceMem | malloclab/malloclab-handout/mm.c:121-135 | the heap after place: the whole block tagged allocated when fewer than 2 * DSIZE bytes would remain, else tags for an allocated block of asize bytes and a free block of the rest; same length |
| MmHeap.PlaceNewTiles | malloclab/malloclab-handout/mm.c:121-135 | place's new blocks cover the old free block exactly; the first is allocated with exactly the request or with less than 16 bytes to spare; any second block is free |
| MmHeap.PlaceWrites | malloclab/malloclab-handout/mm.c:121-135 | place writes matching headers and footers for its new blocks and touches no byte outside the old block |
| MmHeap.PlaceOk | malloclab/malloclab-handout/mm.c:121-135 | place on a free block of a well-formed heap leaves a well-formed heap and every other allocated block untouched |
| MmHeap.PlaceFrom | malloclab/malloclab-handout/mm.c:121-135 | place makes no block allocated except the one at bp |
| Mm.Allocator.PlaceSplit | malloclab/malloclab-handout/mm.c:128-134 | the split branch writes an allocated block of exactly the request, then a free block of the remainder |
| Mm.Allocator.Place | malloclab/malloclab-handout/mm.c:121-135 | place's writes and its new block list keep the allocator's invariant and every other allocated block |
| MmHeap.CoalesceMem | malloclab/malloclab-handout/mm.c:137-159 | the heap after coalesce: tags for the block merged with a free successor, then for the run merged with a free predecessor; same length |
| MmHeap.MergedSpan | malloclab/malloclab-handout/mm.c:137-159 | the block coalesce leaves spans exactly the freed block and its free neighbours |
| MmHeap.CoalesceApart | malloclab/malloclab-handout/mm.c:137-159 | after coalesce no two neighbouring blocks are free |
| MmHeap.CoalesceOk | malloclab/malloclab-handout/mm.c:137-159 | coalesce of a free block leaves a well-formed heap with one free block in place of the merged run, and every allocated block untouched |
| Mm.Allocator.MergeNext | malloclab/malloclab-handout/mm.c:144-148 | merging with the successor writes tags for the sum of both sizes at bp |
| Mm.Allocator.MergePrev | malloclab/malloclab-handout/mm.c:151-156 | merging with the predecessor moves bp to PREV_BLKP(bp) and writes tags for the sum of both sizes there |
| Mm.Allocator.CoalesceTags | malloclab/malloclab-handout/mm.c:137-159 | coalesce's writes are the successor merge, then the predecessor merge, and it returns the merged block's pointer |
| Mm.Allocator.Coalesce | malloclab/malloclab-handout/mm.c:137-159 | coalesce restores the allocator's invariant, returns the merged free block and keeps every allocated block |
| Mm.Allocator.MemSbrk | malloclab/malloclab-handout/mm.c:165 | mem_sbrk(incr) returns the old break and grows the heap by incr bytes, or returns (void *)-1 and changes nothing when memlib is full |
| Mm.Allocator.ExtendTags | malloclab/malloclab-handout/mm.c:168-170 | extend_heap turns the old epilogue into the header of a free block with a matching footer and writes a new epilogue after it |
| MmHeap.ExtendMem | malloclab/malloclab-handout/mm.c:168-170 | the heap after extend_heap's writes: the new free block's header over the old epilogue, its footer, and a new epilogue PACK(0, 1); longer by size |
| MmHeap.AppendFreeFrom | malloclab/malloclab-handout/mm.c:168-173 | appending the new free block and coalescing it makes no block allocated |
| MmHeap.ExtendOk | malloclab/malloclab-handout/mm.c:161-174 | those writes leave a well-formed heap with one more free block at the end, and every allocated block untouched |
| Mm.Allocator.ExtendHeap | malloclab/malloclab-handout/mm.c:161-174 | extend_heap returns NULL with the heap unchanged when mem_sbrk fails; otherwise the heap grows by size bytes, the new free block is coalesced with a free last block, and the merged block is returned; no block becomes allocated |
| MmHeap.InitMem | malloclab/malloclab-handout/mm.c:184-187 | the four words mm_init writes: padding 0, prologue header and footer PACK(8, 1), epilogue PACK(0, 1); same length |
| MmHeap.InitOk | malloclab/malloclab-handout/mm.c:184-188 | the padding, the prologue header and footer PACK(8, 1) and the epilogue PACK(0, 1) form an empty well-formed heap with heap_listp at the prologue |
| Mm.Allocator.constructor | malloclab/malloclab-handout/mm.c:81 | memlib starts with an empty heap of a fixed capacity |
| Mm.Allocator.MmInit | malloclab/malloclab-handout/mm.c:179-194 | mm_init returns 0 exactly when memlib has room for 16 bytes and CHUNKSIZE more, leaving one free block of 4096 bytes; otherwise -1 |
| Mm.Allocator.MmMalloc | malloclab/malloclab-handout/mm.c:200-231 | NULL exactly for size 0, for a size whose newsize would wrap, or when no block fits and memlib has no room; NULL changes nothing; otherwise an 8-aligned payload of at least size bytes, not allocated before, and the only block that became allocated; every other allocated block is untouched; when a block fits it is the one the fit policy picks and the heap does not grow; when none fits the heap grows by exactly MAX(newsize, CHUNKSIZE) and the payload is the block extend_heap returns |
| Mm.Allocator.ExtendAndPlace | malloclab/malloclab-handout/mm.c:222-230 | with no fit, the heap grows by exactly MAX(newsize, CHUNKSIZE) and the request is placed in the free block extend_heap returns (the new block merged with a free last block), which is the only block that became allocated; NULL exactly when memlib has no room, with nothing changed |
| MmHeap.FreeOk | malloclab/malloclab-handout/mm.c:238-241 | clearing the alloc bit of a block's tags keeps the heap's shape, leaves at most that block with a free neighbour, and keeps every other allocated block |
| Mm.Allocator.FreeTags | malloclab/malloclab-handout/mm.c:238-241 | mm_free rewrites the header and footer of ptr's block with the alloc bit clear |
| Mm.Allocator.MmFree | malloclab/malloclab-handout/mm.c:236-243 | mm_free keeps the heap's length, and its block list becomes ptr's block freed and coalesced with its free neighbours; ptr is no longer allocated, nothing new is, the invariant holds and every other allocated block is untouched |
| Mm.Allocator.CopyPayload | malloclab/malloclab-handout/mm.c:258-259 | memcpy moves MIN(GET_SIZE(HDRP(ptr)), size) bytes from ptr to newptr and writes only inside newptr's block |
| Mm.Allocator.ReallocMove | malloclab/malloclab-handout/mm.c:258-260 | after the copy and mm_free(ptr), newptr holds size bytes beginning with ptr's old payload, and ptr is no longer allocated |
| Mm.Allocator.ReallocTail | malloclab/malloclab-handout/mm.c:258-261 | the same, stated against the heap before mm_malloc |
| Mm.Allocator.MmRealloc | malloclab/malloclab-handout/mm.c:248-262 | NULL exactly when mm_malloc fails, and then nothing changes; otherwise newptr holds size bytes that begin with the first MIN(old payload size, size) bytes of the old payload, the old block is freed, and every other allocated block is untouched |
| CacheBits.AMask | cachelab/cachelab-handout/cachelab.c:50 | amask = (1ul << 47) - 1 |
| CacheBits.BMask | cachelab/cachelab-handout/cachelab.c:51 | bmask = (1ul << b) - 1 |
| CacheBits.TMask | cachelab/cachelab-handout/cachelab.c:52 | tmask = ~((1ul << sb) - 1) & amask |
| CacheBits.SMask | cachelab/cachelab-handout/cachelab.c:53 | smask = ~(bmask \| tmask) & amask |
| CacheBits.AMaskBit | cachelab/cachelab-handout/cachelab.c:50 | amask selects exactly bits [0, 47) |
| CacheBits.BMaskBit | cachelab/cachelab-handout/cachelab.c:51 | bmask selects exactly bits [0, b) |
| CacheBits.TMaskBit | cachelab/cachelab-handout/cachelab.c:52 | tmask selects exactly bits [s + b, 47) |
| CacheBits.SMaskBit | cachelab/cachelab-handout/cachelab.c:53 | smask selects exactly bits [b, s + b) |
| CacheBits.MasksPartition | cachelab/cachelab-handout/cachelab.c:49-53 | bmask, smask and tmask are pairwise disjoint and together select exactly the low 47 bits |
| CacheBits.Decode | cachelab/cachelab-handout/cachelab.c:101-105 | the decoded tag is below 2^t, the set below 2^s and the offset below 2^b |
| CacheBits.DecodeBits | cachelab/cachelab-handout/cachelab.c:101-105 | bit i of the tag, the set and the offset is bit i + s + b, i + b and i of the address, within their widths |
| CacheBits.Recompose | cachelab/cachelab-handout/cachelab.c:101-105 | (tbits << (s + b)) \| (sbits << b) \| bbits is the address masked to its low 47 bits |
| CacheLab.Cache.DecodeAddr | cachelab/cachelab-handout/cachelab.c:101-105 | cacheDecodeAddr with the cache's masks gives the decoding above, with sbits < S and bbits < B |
| CacheLab.NewSet | cachelab/cachelab-handout/cachelab.c:64-79 | a new set holds E lines, all invalid, line j linked to lines j - 1 and j + 1, the first with no prev and the last with no next |
| CacheLab.NewSets | cachelab/cachelab-handout/cachelab.c:60-83 | every set gets its own fresh array of such lines, with head line 0 and tail line E - 1 |
| CacheSet.FreshLinked | cachelab/cachelab-handout/cachelab.c:63-83 | a fresh set is a well-formed list in array order holding no valid line |
| CacheLab.Cache.constructor | cachelab/cachelab-handout/cachelab.c:35-86 | initCache sets E, s, b, S = 2^s, B = 2^b, t and the masks, zeroes the counters, and makes every set a list of E invalid lines from line 0 to line E - 1, so the cache invariant holds |
| CacheLru.Lookup | cachelab/cachelab-handout/cachelab.c:111-120 | the MRU-to-LRU search of cacheFindBlk on the list read in order: -1, or a valid line holding the tag |
| CacheLru.LookupHit | cachelab/cachelab-handout/cachelab.c:111-120 | with the valid lines first, the MRU-to-LRU search finds the tag exactly when some valid line holds it |
| CacheLab.Cache.FindBlk | cachelab/cachelab-handout/cachelab.c:111-120 | cacheFindBlk returns the first valid line whose tag matches, or NULL at the first invalid line or at the end of the list |
| CacheLab.Cache.GetLRU | cachelab/cachelab-handout/cachelab.c:122-124 | cacheGetLRU returns the last line of the set's list |
| CacheLab.Cache.GetMRU | cachelab/cachelab-handout/cachelab.c:126-128 | cacheGetMRU returns the first line of the set's list |
| CacheLab.RelinkFront | cachelab/cachelab-handout/cachelab.c:135-154 | the link surgery of cacheUseBlk on a set's array, given the line's old neighbours |
| CacheSet.MarkHeadLinked | cachelab/cachelab-handout/cachelab.c:139-142 | when the line is already the head, only its valid and dirty bits change and the list order stays |
| CacheSet.Relinked | cachelab/cachelab-handout/cachelab.c:134-156 | the set's array after cacheUseBlk moves the line at list position p to the front; same number of lines |
| CacheSet.RelinkedMeaning | cachelab/cachelab-handout/cachelab.c:134-156 | the relinking leaves a well-formed list in which the line is first, valid and has the given dirty bit, and the other lines keep their relative order |
| CacheSet.MoveFrontEnds | cachelab/cachelab-handout/cachelab.c:145-155 | after the move the head is the line, and the tail is the line's predecessor exactly when the line was the tail |
| CacheLab.Cache.UseBlk | cachelab/cachelab-handout/cachelab.c:134-156 | cacheUseBlk moves the line to the front of its set's list, with heads and tails following |
| CacheSet.RetagLinked | cachelab/cachelab-handout/cachelab.c:178 | re-tagging the LRU line keeps the links and changes only the tail's tag in list order |
| CacheLab.Cache.Miss | cachelab/cachelab-handout/cachelab.c:171-179 | the miss path re-tags the tail line, counts a miss, and counts an eviction and reports MISS_EVICT exactly when that line was valid |
| CacheLru.Touch | cachelab/cachelab-handout/cachelab.c:134-156 | the list read in order after cacheUseBlk: line k first, valid, with the given dirty bit, the lines before it shifted back by one; same length |
| CacheLru.AccessView | cachelab/cachelab-handout/cachelab.c:159-206 | the LRU access on the list read in order: the hit line, or the LRU line re-tagged, moved to the front; same length |
| CacheLru.AccessStatusMeaning | cachelab/cachelab-handout/cachelab.c:159-206 | an access reports HIT exactly when a valid line holds the tag, MISS_EVICT when it misses and every line is valid, and MISS_FREE when it misses and some line is invalid |
| CacheLru.AccessFront | cachelab/cachelab-handout/cachelab.c:181 | after an access the accessed tag sits, valid, at the MRU position |
| CacheLru.AccessKeepsOrder | cachelab/cachelab-handout/cachelab.c:134-156 | the lines other than the used one keep their relative order |
| CacheLru.AccessKeepsInvariant | cachelab/cachelab-handout/cachelab.c:171-181 | an access keeps the valid lines first and their tags distinct |
| CacheLru.AccessTags | cachelab/cachelab-handout/cachelab.c:159-206 | a hit keeps the set of held tags; a free miss adds the tag; an evicting miss replaces the LRU line's tag with it |
| CacheSet.AccessLines | cachelab/cachelab-handout/cachelab.c:159-206 | the set's array after a load or store: cacheUseBlk on the hit line, or on the LRU line once re-tagged; same number of lines |
| CacheSet.AccessSetMeaning | cachelab/cachelab-handout/cachelab.c:159-206 | the array-level access keeps a set well formed and, read in list order, is exactly the LRU access on the list |
| CacheLab.Cache.AccessLinked | cachelab/cachelab-handout/cachelab.c:159-206 | the shared body of cacheLoad and cacheStore: find, miss path if needed, then cacheUseBlk; it bumps hits, misses and evictions by the status |
| CacheLab.Cache.Access | cachelab/cachelab-handout/cachelab.c:159-206 | the same, keeping the cache invariant |
| CacheLab.Cache.Load | cachelab/cachelab-handout/cachelab.c:184-206 | cacheLoad is the LRU access with a clean line; only the accessed set changes |
| CacheLab.Cache.Store | cachelab/cachelab-handout/cachelab.c:159-182 | cacheStore is the LRU access with a dirty line; only the accessed set changes |
| CacheLru.AccessAgainHits | cachelab/cachelab-handout/cachelab.c:208-211 | a second access of the same tag hits |
| CacheLab.Cache.Modify | cachelab/cachelab-handout/cachelab.c:208-211 | cacheModify is a load then a store of the same address; the store always reports HIT, and only the accessed set changes |
| Trans.CopyTransposed | cachelab/cachelab-handout/trans.c:24-28 | the transposing loop nest writes the transpose of a rectangle of A into B and leaves the rest of B unchanged |
| Trans.Trans | cachelab/cachelab-handout/trans.c:20-30 | trans leaves B[j][i] == A[i][j] for every i < N and j < M |
| Trans.Swap | cachelab/cachelab-handout/trans.c:44-48 | swap exchanges the two cells and changes nothing else |
| Trans.SwapRow | cachelab/cachelab-handout/trans.c:86-88 | the inner swap loop exchanges two row segments |
| Trans.SwapBlocks | cachelab/cachelab-handout/trans.c:86-88 | the swap loop nest exchanges two diagonal blocks of B and changes nothing else |
| Trans.DiagonalPass | cachelab/cachelab-handout/trans.c:76-82 | the diagonal pass writes A's diagonal block si, transposed, into B's diagonal block 24 - si, and leaves the off-diagonal cells alone |
| Trans.SwapPass | cachelab/cachelab-handout/trans.c:84-89 | the swap pass exchanges B's diagonal blocks 16 and 8, then 24 and 0 |
| Trans.TransposeDiagonal | cachelab/cachelab-handout/trans.c:76-89 | together the two passes leave every diagonal block of B the transpose of A's, and the rest of B alone |
| Trans.Transpose32 | cachelab/cachelab-handout/trans.c:61-89 | the 32×32 kernel makes B the full transpose of A |
| Trans.CopyWithin | cachelab/cachelab-handout/trans.c:149-151 | the copy-back loop moves the staged 4×4 mini-block to its place in B |
| Trans.Step64 | cachelab/cachelab-handout/trans.c:110-152 | one off-diagonal step transposes A's block (si, sj) into B's block (sj, si), staging mini-block #1 in the next block of B |
| Trans.StepStage | cachelab/cachelab-handout/trans.c:113-126 | mini-block #0 is transposed into its place in B, and mini-block #1, transposed, is staged in the corner of B's block (nsj, nsi); nothing else changes |
| Trans.StepLower | cachelab/cachelab-handout/trans.c:128-141 | mini-blocks #2 and #3 transpose the lower half of A's block (si, sj) into B; nothing else changes |
| Trans.Advance64 | cachelab/cachelab-handout/trans.c:100-156 | one turn of the 64×64 loop carries the kernel's progress invariant from block (si, sj) to the next block |
| Trans.Transpose64 | cachelab/cachelab-handout/trans.c:92-173 | the 64×64 kernel as written transposes every cell off the diagonal blocks; the diagonal blocks keep their old values apart from the staged corners, so B is not the transpose when B[0][0] differed from A[0][0] |
| Trans.Transpose64Fixed | cachelab/cachelab-handout/trans.c:158-173 | with a diagonal pass added, the 64×64 kernel makes B the full transpose of A |
| Trans.TransposeSubmit | cachelab/cachelab-handout/trans.c:58-179 | transpose_submit as written makes B the transpose of A for 32×32 and, through trans, for every shape other than 64×64; for 64×64 only the cells off the diagonal blocks are transposed, and B is not the transpose when B[0][0] differed from A[0][0] |
| Trans.TransposeSubmitFixed | cachelab/cachelab-handout/trans.c:58-179 | with the 64×64 kernel's diagonal pass restored, transpose_submit makes B the transpose of A for every shape |
| Trans.IsTranspose | cachelab/cachelab-handout/trans.c:209-221 | is_transpose returns 1 exactly when B[j][i] == A[i][j] for all i < N and j < M, and 0 otherwise |
| TshJobs.FirstWhere | shlab/shlab-handout/tsh.c:581-618 | the index of the first slot a predicate holds for, with no earlier such slot, or the table size when there is none |
| TshJobs.MaxJidOf | shlab/shlab-handout/tsh.c:522-530 | the largest jid in the table, at least 0, and an actual jid unless it is 0 |
| TshJobs.JobTable.constructor | shlab/shlab-handout/tsh.c:43-52 | the zero-initialised table and nextjid = 1 |
| TshJobs.JobTable.ClearJob | shlab/shlab-handout/tsh.c:508-513 | clearjob resets one slot to pid 0, jid 0, UNDEF and an empty command line, and no other slot |
| TshJobs.JobTable.InitJobs | shlab/shlab-handout/tsh.c:516-519 | initjobs clears every slot |
| TshJobs.JobTable.MaxJid | shlab/shlab-handout/tsh.c:522-530 | maxjid returns a bound on every jid that is some slot's jid, or 0 |
| TshJobs.MaxJidIsMaxJidOf | shlab/shlab-handout/tsh.c:522-530 | a value with those properties is the table's maximum jid |
| TshJobs.JobTable.AddJob | shlab/shlab-handout/tsh.c:533-562 | addjob refuses pid < 1 and a full table, changing nothing; otherwise it fills the first empty slot with jid = nextjid and advances nextjid, back to 1 once it passes MAXJOBS |
| TshJobs.JobTable.DeleteJob | shlab/shlab-handout/tsh.c:565-578 | deletejob clears the first slot holding pid and sets nextjid to the new maximum jid + 1; with pid < 1 or no match it returns 0 and changes nothing |
| TshJobs.JobTable.FgPid | shlab/shlab-handout/tsh.c:581-586 | fgpid returns the pid of the first FG slot, or 0 |
| TshJobs.JobTable.GetJobPid | shlab/shlab-handout/tsh.c:589-596 | getjobpid returns the first slot holding pid, or NULL when pid < 1 or no slot holds it |
| TshJobs.JobTable.GetJobJid | shlab/shlab-handout/tsh.c:599-607 | getjobjid returns the first slot holding jid, which is never an empty slot, or NULL when jid < 1 or no slot holds it |
| TshJobs.JobTable.Pid2Jid | shlab/shlab-handout/tsh.c:610-618 | pid2jid returns the jid of the first slot holding pid, or 0; it is at least 1 exactly when some slot holds pid |
| TshParse.Buffer | shlab/shlab-handout/tsh.c:236-237 | the scanned buffer is the line with its last character made a space |
| TshParse.SkipSpaces | shlab/shlab-handout/tsh.c:238-239 | skipping spaces stops at or after the start and inside the buffer |
| TshParse.StrChr | shlab/shlab-handout/tsh.c:245 | strchr stops at or after the start, at the end of the buffer meaning NULL |
| TshParse.NextArg | shlab/shlab-handout/tsh.c:238-263 | the steps before each argument find the argument's start, after spaces and an opening quote, and its delimiter |
| TshParse.SkipSpacesStop | shlab/shlab-handout/tsh.c:238-239 | skipping spaces stops on a character that is not a space, or at the end of the buffer |
| TshParse.StrChrMiss | shlab/shlab-handout/tsh.c:245-248 | strchr passes over no occurrence of the character and, unless it returns NULL, stops on one |
| TshParse.TokenShape | shlab/shlab-handout/tsh.c:243-263 | an argument that holds a quote was not opened by one: it does not start with a quote and holds no space |
| TshParse.ParseLine | shlab/shlab-handout/tsh.c:228-276 | parseline's argv and bg are the reference tokenisation of the line: a blank line gives no arguments and 1; a last argument starting with '&' is dropped and 1 returned; otherwise 0 |
| TshParse.Scan | shlab/shlab-handout/tsh.c:238-265 | the reference tokenisation from position p: each argument bare up to a space or quoted up to a closing quote, text after an unclosed quote dropped; at most one argument per character |
| TshParse.Finish | shlab/shlab-handout/tsh.c:266-275 | the end of parseline: no arguments give bg = 1; a last argument starting with '&' is dropped and bg = 1; otherwise every argument is kept and bg = 0 |
| TshParse.ScanSkipsSpace | shlab/shlab-handout/tsh.c:238-239 | leading spaces do not change the arguments found |
| TshParse.ScanUnparse | shlab/shlab-handout/tsh.c:243-263 | scanning the rendering of quote-free arguments, each bare or quoted, gives them back |

## Left out

- memlib is not part of this model. `mem_sbrk` is a capacity (`maxHeap`, MAX_HEAP) that a request either fits or fails. The heap base is taken to be 8-aligned, and offsets from it stand for pointers. New bytes are modelled as zeros, while the real contents are unspecified; no contract depends on them.
- mm.c: `size_t` and `unsigned int` are 32 bits wide, as on the lab's 32-bit target. In the allocator only `ALIGN`'s wrap-around is reachable; every other size stays below 2^32 because the heap does.
- FIT_STRATEGY is a compile-time choice in the source. It is modelled as the allocator's constant field `fit`, and all three policies are verified. next_fit is first_fit in the source, and so in the model.
- Mm.Allocator.MmRealloc: `Copied` states only the first MIN(old block size - 8, size) bytes, the old payload. The source copies MIN(GET_SIZE(HDRP(ptr)), size) bytes, up to 8 bytes past the payload: the old footer and the next header. CopyPayload models that copy exactly.
- Mm.Allocator.MmRealloc and Mm.Allocator.MmFree require `ptr` to be a block that mm_malloc returned and that is still allocated; its index in the ghost block list is passed as a ghost argument. The source has no case for a NULL or foreign pointer and would read a header before it.
- Mm.Allocator.ExtendHeap: states the new block list and heap length but not every byte of the new heap. The bytes are pinned down by ExtendTags, ExtendOk and CoalesceOk.
- `team` and the file's header comment, which describes an older bump allocator, are not behaviour.
- cachelab.c: the per-line `data` buffers and the `idx` debugging field are not modelled. `freeCache`, `printSummary` and `csimHelper` (I/O), `initMatrix` and `randMatrix` (rand/time), and `registerTransFunction` (function-pointer glue) are left out. `correctTrans` is the same loop as trans.c's `trans`, modelled as Trans.Trans.
- `initCache` leaves each line's dirty bit uninitialised; the model starts it false. Failure of `malloc` is not modelled.
- CacheLab.Cache.constructor requires s, E and b nonzero and s + b ≤ 47. That is the parameter check csim.c makes before calling initCache; csim.c itself is not part of this model.
- CacheLab.Cache.constructor: S = 2^s and B = 2^b are unbounded integers. initCache computes them as `1 << s` and `1 << b` on a 32-bit C int (cachelab.c:38-39), which overflows at a shift of 31 and is undefined from 32 on. The parameter check above lets s or b reach 46, so for s ≥ 31 or b ≥ 31 the model's S or B is not what the source computes.
- The counters hits, misses and evictions are C ints; their overflow is not modelled.
- trans.c: cache-miss performance, the lab's grading metric, is not functional behaviour and is left out. `registerFunctions` is glue.
- tsh.c: main, eval, builtin_cmd, do_bgfg, waitfg and the signal handlers are left out as process control and concurrency. listjobs, usage, printjobpid and addjob's messages are output. my_atoi depends on strtol/errno.
- TshParse.ParseLine requires a line of 1 to MAXLNSZ - 1 characters without NUL, which is what fgets hands it. The source writes to index strlen - 1 and copies into a MAXLNSZ buffer. It does not bound argv by MAXARGS either: the source overflows argv past 127 arguments.
- TshJobs.JobTable.AddJob: the command line is stored as a whole string. The source copies it into a MAXLNSZ-byte field. jids are unbounded integers, and MAXJID is not used by the modelled code.

## Findings

| source | as written | input that shows it | evidently intended | confidence | as-written member | corrected member |
|---|---|---|---|---|---|---|
| cachelab/cachelab-handout/trans.c:158-173 | the diagonal-block pass of the 64×64 branch is commented out, so B's diagonal blocks keep their old values (apart from staged 4×4 corners) | any 64×64 A and B with B[0][0] ≠ A[0][0] on entry: B[0][0] is never written | transpose_submit leaves B the transpose of A, as the 32×32 and fallback branches do | high; not executed | Trans.TransposeSubmit | Trans.TransposeSubmitFixed |
| malloclab/malloclab-handout/mm.c:203 | newsize = ALIGN(size + SIZE_T_SIZE) wraps around for size > 2^32 - 16 | mm_malloc(0xFFFFFFFF): newsize is 8, so a block with no payload is placed and returned; mm_malloc(0xFFFFFFF8): newsize is 0, and place(bp, 0) overwrites the previous block's footer with PACK(0, 1) and leaves bp free before it is returned (Mm.PlaceZeroAsWritten) | a request too large to fit returns NULL | high; not executed | Mm.MallocSizeWraps | Mm.Allocator.MmMalloc |
