/**
 * The allocator (mm.c) over the heap memlib hands out. The class holds the
 * heap bytes, heap_listp and, as ghost state, the list of ordinary blocks
 * between the prologue and the epilogue; Valid ties them together through
 * HeapOk. Offsets stand for pointers, and -1 (NULL) for both NULL and the
 * (void *)-1 mem_sbrk returns on failure.
 */
module Mm {
  import opened Bits
  import opened MmCodec
  import opened MmHeap

  /** newsize as mm_malloc computes it: ALIGN(size + SIZE_T_SIZE), where both additions wrap around. */
  function MallocSize(size: nat): (r: nat)
    requires size < WORD
    ensures r % 8 == 0 && r < WORD
  {
    Align(AddWrap(size, SIZE_T_SIZE))
  }

  /** Up to WORD - 16 no addition wraps, and newsize is size plus the header and footer, rounded up to 8. */
  lemma MallocSizeMeaning(size: nat)
    requires size <= WORD - 2 * DSIZE
    ensures MallocSize(size) == RoundUp8(size + SIZE_T_SIZE)
  {
    AlignMeaning(size + SIZE_T_SIZE);
  }

  /**
   * Above WORD - 16 the size wraps around: mm_malloc(0xFFFFFFFF) asks for a
   * block of 8 bytes and mm_malloc(0xFFFFFFF8) for one of 0 bytes.
   */
  lemma MallocSizeWraps()
    ensures MallocSize(0xFFFF_FFFF) == 8
    ensures MallocSize(0xFFFF_FFF8) == 0
    ensures MallocSize(0xFFFF_FFFF) < 0xFFFF_FFFF + SIZE_T_SIZE
  {
    AlignMeaning(7);
    AlignMeaning(0);
  }

  /**
   * What mm_malloc(0xFFFFFFF8) then does with newsize 0: every free block
   * fits, and place(bp, 0) on a free block b takes the splitting branch
   * (remain = b.size is at least 16). PACK(0, 1) goes to HDRP(bp); FTRP(bp)
   * reads that size 0 back and is bp - 8, the footer of the block before b,
   * which is overwritten with PACK(0, 1); NEXT_BLKP(bp) is bp itself, so
   * the remainder's tags restore b as one free block. mm_malloc returns a
   * block that is still free, and the heap's chain is broken before it.
   */
  lemma PlaceZeroAsWritten(m: seq<Byte>, b: Block)
    requires 8 <= b.start && End(b) <= |m| && !b.alloc && MIN_BLOCK <= b.size < WORD && b.size % 8 == 0
    requires Word(m, Hdrp(b.start)) == Tag(b)
    ensures var m1 := PutWord(m, Hdrp(b.start), Pack(0, 1));
      Ftrp(m1, b.start) == b.start - DSIZE
      && var m2 := PutWord(m1, b.start - DSIZE, Pack(0, 1));
      NextBlkp(m2, b.start) == b.start
      && var m3 := PutWord(m2, Hdrp(b.start), Pack(b.size, 0));
      Ftrp(m3, b.start) == End(b) - DSIZE
      && var m4 := PutWord(m3, End(b) - DSIZE, Pack(b.size, 0));
      GetSize(Word(m4, Hdrp(b.start))) == b.size && GetAlloc(Word(m4, Hdrp(b.start))) == 0
      && GetSize(Word(m4, b.start - DSIZE)) == 0 && GetAlloc(Word(m4, b.start - DSIZE)) == 1
  {
    var bp := b.start;
    PackRoundTrip(0, 1);
    PackRoundTrip(b.size, 0);
    var m1 := PutWord(m, Hdrp(bp), Pack(0, 1));
    WordPut(m, Hdrp(bp), Pack(0, 1));
    assert Ftrp(m1, bp) == bp - DSIZE;
    var m2 := PutWord(m1, bp - DSIZE, Pack(0, 1));
    WordFrame(m1, bp - DSIZE, Pack(0, 1), Hdrp(bp));
    assert NextBlkp(m2, bp) == bp;
    var m3 := PutWord(m2, Hdrp(bp), Pack(b.size, 0));
    WordPut(m2, Hdrp(bp), Pack(b.size, 0));
    assert Ftrp(m3, bp) == End(b) - DSIZE;
    var m4 := PutWord(m3, End(b) - DSIZE, Pack(b.size, 0));
    WordFrame(m3, End(b) - DSIZE, Pack(b.size, 0), Hdrp(bp));
    WordFrame(m2, Hdrp(bp), Pack(b.size, 0), bp - DSIZE);
    WordFrame(m3, End(b) - DSIZE, Pack(b.size, 0), bp - DSIZE);
    WordPut(m1, bp - DSIZE, Pack(0, 1));
  }

  /** MIN(x, y) */
  function Min(x: nat, y: nat): (r: nat)
    ensures r <= x && r <= y && (r == x || r == y)
  {
    if x < y then x else y
  }

  /** MAX(x, y) */
  function Max(x: nat, y: nat): (r: nat)
    ensures x <= r && y <= r && (r == x || r == y)
  {
    if x > y then x else y
  }

  class Allocator {
    /** The heap: every byte mem_sbrk has handed out, from the start of the heap. */
    var mem: seq<Byte>
    /** heap_listp: the prologue's block pointer once mm_init has run. */
    var heapListp: int
    /** The ordinary blocks, in address order. */
    ghost var blocks: seq<Block>
    /** memlib's capacity (MAX_HEAP): mem_sbrk fails past it. */
    const maxHeap: nat
    /** FIT_STRATEGY, the policy mm_malloc is built with (first_fit in the source). */
    const fit: FitStrategy

    /** What memlib keeps: the break never passes its capacity, and every request is a multiple of 8. */
    ghost predicate Brk()
      reads this
    {
      |mem| % 8 == 0 && |mem| <= maxHeap < WORD
    }

    /** The invariant between calls to the mm_* functions. */
    ghost predicate Valid()
      reads this
    {
      Brk() && HeapOk(mem, heapListp, blocks)
    }

    /** ptr is the payload of an allocated block: mm_malloc returned it and it was not freed since. */
    ghost predicate Allocated(ptr: int)
      reads this
    {
      exists k :: 0 <= k < |blocks| && blocks[k].start == ptr && blocks[k].alloc
    }

    /** The payload at ptr has room for n bytes: ptr is an allocated block of at least n + DSIZE bytes. */
    ghost predicate Holds(ptr: int, n: nat)
      reads this
    {
      exists k :: 0 <= k < |blocks| && blocks[k].start == ptr && blocks[k].alloc && n + DSIZE <= blocks[k].size
    }

    /** An empty memlib heap of capacity cap, with the given fit policy; mm_init has not run. */
    constructor (cap: nat, strategy: FitStrategy)
      requires cap < WORD
      ensures mem == [] && heapListp == NULL && blocks == [] && maxHeap == cap && fit == strategy
      ensures Brk()
    {
      mem := [];
      heapListp := NULL;
      blocks := [];
      maxHeap := cap;
      fit := strategy;
    }

    /**
     * mem_sbrk(incr): grows the heap by incr bytes and returns the old
     * break, or fails with NULL when the heap would pass its capacity.
     */
    method MemSbrk(incr: nat) returns (p: int)
      modifies this
      ensures |old(mem)| + incr <= maxHeap ==> p == |old(mem)| && mem == old(mem) + Zeros(incr)
      ensures maxHeap < |old(mem)| + incr ==> p == NULL && mem == old(mem)
      ensures heapListp == old(heapListp) && blocks == old(blocks)
    {
      if |mem| + incr > maxHeap {
        return NULL;
      }
      p := |mem|;
      mem := mem + Zeros(incr);
    }

    /** PUT(p, v) */
    method Put(p: nat, v: nat)
      modifies this
      requires p + 4 <= |mem|
      ensures mem == PutWord(old(mem), p, v)
      ensures heapListp == old(heapListp) && blocks == old(blocks)
    {
      mem := PutWord(mem, p, v);
    }

    /**
     * PUT(HDRP(bp), PACK(size, alloc)); PUT(FTRP(bp), PACK(size, alloc)):
     * FTRP reads the size back from the header just written.
     */
    method PutTags(bp: nat, size: nat, alloc: nat)
      modifies this
      requires 4 <= bp && 8 <= size
      requires bp + size <= |mem| < WORD
      requires size % 8 == 0 && alloc < 2
      ensures mem == SetTags(old(mem), Block(bp, size, alloc == 1))
      ensures heapListp == old(heapListp) && blocks == old(blocks)
    {
      TagsReadBack(mem, bp, size, alloc);
      Put(Hdrp(bp), Pack(size, alloc));
      Put(Ftrp(mem, bp), Pack(size, alloc));
    }

    /** The facts about block k of a valid heap the methods below rely on. */
    lemma BlockFacts(k: nat)
      requires Valid() && k < |blocks|
      ensures BlockWords(mem, blocks[k]) && MIN_BLOCK <= blocks[k].size && blocks[k].size % 8 == 0
      ensures blocks[k].start % 8 == 0 && heapListp + 8 <= blocks[k].start && End(blocks[k]) <= |mem| < WORD
    {
      assert BlockWords(mem, blocks[k]);
      assert Tiled(blocks, heapListp + 8, |mem|);
      TilesBounds(blocks, heapListp + 8, |mem|, k);
    }

    /** The splitting branch of place: an allocated block of asize bytes, then a free one of the rest. */
    method PlaceSplit(bp: nat, asize: nat, bsize: nat)
      modifies this
      requires 4 <= bp && bp + bsize <= |mem| < WORD && bsize % 8 == 0 && asize % 8 == 0
      requires MIN_BLOCK <= asize && 2 * DSIZE <= bsize - asize
      ensures mem == PlaceMem(old(mem), Block(bp, bsize, false), asize)
      ensures heapListp == old(heapListp) && blocks == old(blocks)
    {
      var remain := bsize - asize;
      PlaceRemain(Block(bp, bsize, false), asize, remain);
      PlaceSplitMem(mem, Block(bp, bsize, false), asize);
      PlaceSplitReads(mem, Block(bp, bsize, false), asize);
      PutTags(bp, asize, 1);
      var nbp := NextBlkp(mem, bp);
      PutTags(nbp, remain, 0);
    }

    /** The first half of coalesce: the tags of bp's block grown by its free successor of nsize bytes. */
    method MergeNext(bp: nat, size: nat, nsize: nat) returns (s: nat)
      modifies this
      requires 4 <= bp && 8 <= size && bp + size + nsize <= |mem| < WORD && size % 8 == 0 && nsize % 8 == 0
      ensures s == size + nsize && s % 8 == 0
      ensures mem == SetTags(old(mem), Block(bp, s, false))
      ensures heapListp == old(heapListp) && blocks == old(blocks)
    {
      s := size + nsize;
      SumMult8(size, nsize, s);
      PutTags(bp, s, 0);
    }

    /**
     * The second half of coalesce: PREV_BLKP finds the free predecessor of
     * psize bytes from its footer, and the tags of the run from there on
     * are written.
     */
    method MergePrev(bp: nat, size: nat, ghost psize: nat) returns (s: nat, p: int)
      modifies this
      requires 8 <= bp && bp + size <= |mem| < WORD && 8 <= size && size % 8 == 0
      requires GetSize(Word(mem, PrevFtrp(bp))) == psize && 4 <= bp - psize && 8 <= psize && psize % 8 == 0
      ensures s == size + psize && p == bp - psize
      ensures mem == SetTags(old(mem), Block(p, s, false))
      ensures heapListp == old(heapListp) && blocks == old(blocks)
    {
      s := size + GetSize(Word(mem, PrevFtrp(bp)));
      SumMult8(size, psize, s);
      p := PrevBlkp(mem, bp);
      PutTags(p, s, 0);
    }

    /**
     * coalesce(bp) on free block k: merges it with a free successor, then
     * with a free predecessor, and returns the merged block.
     */
    method Coalesce(bp: nat, ghost k: nat) returns (r: int)
      modifies this
      requires Brk() && HeapShape(mem, heapListp, blocks) && NoAdjacentFreeExcept(blocks, k)
      requires k < |blocks| && blocks[k].start == bp && !blocks[k].alloc
      ensures mem == CoalesceMem(old(mem), old(heapListp), old(blocks), k)
      ensures blocks == CoalesceBlocks(old(blocks), k)
      ensures r == Merged(old(blocks), k).start
      ensures heapListp == old(heapListp) && Valid()
      ensures AllocKept(old(mem), old(blocks), mem, blocks, NULL)
    {
      ghost var m, bs := mem, blocks;
      CoalesceReads(mem, heapListp, blocks, k);
      r := CoalesceTags(bp, k);
      CoalesceOk(m, heapListp, bs, k);
      blocks := CoalesceBlocks(bs, k);
    }

    /** The writes of coalesce, which leave the block list to the caller. */
    method CoalesceTags(bp: nat, ghost k: nat) returns (r: int)
      modifies this
      requires 8 <= heapListp && Tiled(blocks, heapListp + 8, |mem|)
      requires k < |blocks| && blocks[k].start == bp && CoalesceView(mem, blocks, k)
      ensures mem == CoalesceMem(old(mem), old(heapListp), old(blocks), k)
      ensures r == Merged(old(blocks), k).start
      ensures heapListp == old(heapListp) && blocks == old(blocks)
    {
      ghost var m, bs := mem, blocks;
      var size := GetSize(Word(mem, Hdrp(bp)));
      var prevFtr := PrevFtrp(bp);
      var nextHdr := NextHdrp(mem, bp);
      if GetAlloc(Word(mem, nextHdr)) == 0 {
        size := MergeNext(bp, size, GetSize(Word(mem, nextHdr)));
        PrevFooterKept(m, bp, size);
        assert NextStep(m, bs, k, Block(bp, size, false), mem);
      } else {
        assert NextStep(m, bs, k, Block(bp, size, false), mem);
      }
      ghost var c, m1 := Block(bp, size, false), mem;
      r := bp;
      if GetAlloc(Word(mem, prevFtr)) == 0 {
        size, r := MergePrev(bp, size, bs[k - 1].size);
        assert PrevStep(m1, bs, k, Block(r, size, false), mem);
      } else {
        assert PrevStep(m1, bs, k, Block(r, size, false), mem);
      }
      CoalesceSteps(m, heapListp, bs, k, c, m1, Block(r, size, false), mem);
    }

    /** The writes of extend_heap on the size bytes mem_sbrk has just added after m0. */
    method ExtendTags(bp: nat, size: nat, ghost m0: seq<Byte>)
      modifies this
      requires mem == m0 + Zeros(size) && bp == |m0| && 4 <= |m0| && 16 <= size && size % 8 == 0 && |mem| < WORD
      ensures mem == ExtendMem(m0, size)
      ensures heapListp == old(heapListp) && blocks == old(blocks)
    {
      PutTags(bp, size, 0);
      ExtendReads(m0, size);
      Put(Hdrp(NextBlkp(mem, bp)), Pack(0, 1));
    }

    /**
     * extend_heap(size): grows the heap by size bytes, makes them a free
     * block followed by a new epilogue, and coalesces that block with a free
     * last block. Returns the free block at the end of the heap, or NULL,
     * changing nothing, when memlib has no room.
     */
    method ExtendHeap(size: nat) returns (bp: int, ghost k: nat)
      modifies this
      requires Valid() && 16 <= size < WORD && size % 8 == 0
      ensures heapListp == old(heapListp) && Valid()
      ensures maxHeap < |old(mem)| + size ==> bp == NULL && mem == old(mem) && blocks == old(blocks)
      ensures |old(mem)| + size <= maxHeap ==> (|mem| == |old(mem)| + size
        && blocks == CoalesceBlocks(old(blocks) + [ExtendBlock(old(mem), size)], |old(blocks)|)
        && k == |blocks| - 1 && blocks[k].start == bp && !blocks[k].alloc && size <= blocks[k].size
        && bp == Merged(old(blocks) + [ExtendBlock(old(mem), size)], |old(blocks)|).start
        && bp != NULL && bp % 8 == 0)
      ensures AllocKept(old(mem), old(blocks), mem, blocks, NULL) && AllocFrom(old(blocks), blocks)
    {
      ghost var m0, bs0 := mem, blocks;
      var newsize := Align(size);
      AlignExact(size);
      var p := MemSbrk(newsize);
      if p == NULL {
        return NULL, 0;
      }
      HeapLength(m0, heapListp, bs0);
      ExtendTags(p, size, m0);
      ExtendOk(m0, heapListp, bs0, size);
      blocks := bs0 + [ExtendBlock(m0, size)];
      Mult8(|m0|, size);
      bp := Coalesce(p, |bs0|);
      k := |blocks| - 1;
      ExtendCoalesced(bs0, ExtendBlock(m0, size));
      AppendFreeFrom(bs0, ExtendBlock(m0, size));
      BlockFacts(k);
    }

    /**
     * mm_init(): takes 16 bytes from memlib for the padding word, the
     * prologue and the epilogue, then extends the empty heap by CHUNKSIZE
     * bytes. Returns -1 when memlib has no room for either.
     */
    method MmInit() returns (r: int)
      modifies this
      requires Brk()
      ensures Brk() && (r == 0 || r == -1)
      ensures r == 0 <==> |old(mem)| + 4 * WSIZE + CHUNKSIZE <= maxHeap
      ensures r == 0 ==> (Valid() && heapListp == |old(mem)| + DSIZE
        && blocks == [Block(|old(mem)| + 2 * DSIZE, CHUNKSIZE, false)])
      ensures maxHeap < |old(mem)| + 4 * WSIZE ==> heapListp == NULL && mem == old(mem)
    {
      var base := MemSbrk(4 * WSIZE);
      if base == NULL {
        heapListp := NULL;
        return -1;
      }
      ghost var m1 := mem;
      Put(base, 0);
      Put(base + WSIZE, Pack(DSIZE, 1));
      Put(base + 2 * WSIZE, Pack(DSIZE, 1));
      Put(base + 3 * WSIZE, Pack(0, 1));
      heapListp := base + DSIZE;
      blocks := [];
      InitOk(m1, base);
      var bp, k := ExtendHeap(CHUNKSIZE);
      if bp == NULL {
        return -1;
      }
      return 0;
    }

    /**
     * first_fit(asize): walks the blocks from the prologue to the
     * epilogue and returns the first free one of at least asize bytes, or
     * NULL.
     */
    method FirstFit(asize: nat) returns (bp: int)
      requires ChainView(mem, heapListp, blocks)
      ensures var i := FitIndex(blocks, asize, FitStrategy.FirstFit);
        bp == if i == -1 then NULL else blocks[i].start
    {
      ghost var i: int := -1;
      bp := heapListp;
      assert ChainAt(mem, heapListp, blocks, i);
      while GetSize(Word(mem, Hdrp(bp))) != 0
        invariant -1 <= i <= |blocks| && bp == BlockAt(mem, heapListp, blocks, i).start
        invariant ChainAt(mem, heapListp, blocks, i)
        invariant forall j :: 0 <= j <= i && j < |blocks| ==> !Fits(blocks[j], asize)
        decreases |blocks| - i
      {
        bp := NextBlkp(mem, bp);
        i := i + 1;
        assert ChainAt(mem, heapListp, blocks, i);
        if GetSize(Word(mem, Hdrp(bp))) >= asize && GetAlloc(Word(mem, Hdrp(bp))) == 0 {
          FirstFitHere(blocks, asize, i);
          return;
        }
      }
      FirstFitNone(blocks, asize);
      bp := NULL;
    }

    /** next_fit(asize) is first_fit(asize). */
    method NextFit(asize: nat) returns (bp: int)
      requires ChainView(mem, heapListp, blocks)
      ensures var i := FitIndex(blocks, asize, FitStrategy.NextFit);
        bp == if i == -1 then NULL else blocks[i].start
    {
      bp := FirstFit(asize);
    }

    /**
     * best_fit(asize): walks every block and returns the free one whose
     * size exceeds asize by the least, the first such on ties, or NULL.
     */
    method BestFit(asize: nat) returns (best: int)
      requires ChainView(mem, heapListp, blocks)
      ensures var i := FitIndex(blocks, asize, FitStrategy.BestFit);
        best == if i == -1 then NULL else blocks[i].start
    {
      best := NULL;
      var bestDiff: nat := WORD - 1;
      var bp := heapListp;
      ghost var i: int := -1;
      assert ChainAt(mem, heapListp, blocks, i);
      while GetSize(Word(mem, Hdrp(bp))) != 0
        invariant -1 <= i <= |blocks| && bp == BlockAt(mem, heapListp, blocks, i).start
        invariant ChainAt(mem, heapListp, blocks, i)
        invariant BestSoFar(blocks, asize, Seen(blocks, i), best, bestDiff)
        decreases |blocks| - i
      {
        bp := NextBlkp(mem, bp);
        i := i + 1;
        assert ChainAt(mem, heapListp, blocks, i);
        if GetAlloc(Word(mem, Hdrp(bp))) == 0 {
          var bsize := GetSize(Word(mem, Hdrp(bp)));
          if bsize > asize && bsize - asize < bestDiff {
            BestTake(blocks, asize, i, best, bestDiff, bp, bsize);
            best := bp;
            bestDiff := bsize - asize;
          } else {
            BestKeep(blocks, asize, i, best, bestDiff);
          }
        } else if i < |blocks| {
          BestKeep(blocks, asize, i, best, bestDiff);
        } else {
          assert Seen(blocks, i) == Seen(blocks, i - 1);
        }
      }
    }

    /**
     * place(bp, asize) on free block k: allocates it whole when fewer than
     * 2 * DSIZE bytes would remain, else splits off a free block of the
     * rest.
     */
    method Place(bp: int, asize: nat, ghost k: nat)
      modifies this
      requires Valid() && k < |blocks| && blocks[k].start == bp && !blocks[k].alloc
      requires asize % 8 == 0 && MIN_BLOCK <= asize <= blocks[k].size
      ensures mem == PlaceMem(old(mem), old(blocks)[k], asize)
      ensures blocks == Splice(old(blocks), k, k + 1, PlaceNew(old(blocks)[k], asize))
      ensures heapListp == old(heapListp) && Valid()
      ensures AllocKept(old(mem), old(blocks), mem, blocks, NULL)
    {
      ghost var m, b := mem, blocks[k];
      PlaceReads(mem, heapListp, blocks, k);
      var bsize := GetSize(Word(mem, Hdrp(bp)));
      var remain := bsize - asize;
      if remain < 2 * DSIZE {
        PutTags(bp, bsize, 1);
        assert Block(bp, bsize, true) == b.(alloc := true);
        assert mem == PlaceMem(m, b, asize);
      } else {
        PlaceSplit(bp, asize, bsize);
      }
      PlaceOk(m, heapListp, blocks, k, asize);
      blocks := Splice(blocks, k, k + 1, PlaceNew(b, asize));
    }

    /**
     * mm_malloc(size): a block of ALIGN(size + SIZE_T_SIZE) bytes from the
     * fit policy, placed into the block found or, when none fits, into the
     * block extend_heap adds. Returns the payload, or NULL for size 0 and
     * when memlib has no room. A size whose ALIGN(size + SIZE_T_SIZE)
     * would wrap around is refused with NULL as well.
     */
    method MmMalloc(size: nat) returns (bp: int)
      modifies this
      requires Valid() && size < WORD
      ensures heapListp == old(heapListp) && Valid()
      ensures AllocKept(old(mem), old(blocks), mem, blocks, NULL)
      ensures bp == NULL <==> (size == 0 || WORD - 2 * DSIZE < size
        || (FitIndex(old(blocks), RoundUp8(size + SIZE_T_SIZE), fit) == -1
            && maxHeap < |old(mem)| + Max(RoundUp8(size + SIZE_T_SIZE), CHUNKSIZE)))
      ensures bp == NULL ==> mem == old(mem) && blocks == old(blocks)
      ensures bp != NULL ==> bp % 8 == 0 && Holds(bp, size) && !old(Allocated(bp))
      ensures bp != NULL ==> AllocFromBut(old(blocks), blocks, bp)
      ensures FitIndex(old(blocks), RoundUp8(size + SIZE_T_SIZE), fit) != -1 ==> |mem| == |old(mem)|
      ensures bp != NULL && FitIndex(old(blocks), RoundUp8(size + SIZE_T_SIZE), fit) != -1 ==>
        bp == old(blocks)[FitIndex(old(blocks), RoundUp8(size + SIZE_T_SIZE), fit)].start
      ensures bp != NULL && FitIndex(old(blocks), RoundUp8(size + SIZE_T_SIZE), fit) == -1 ==>
        (var ext := Max(RoundUp8(size + SIZE_T_SIZE), CHUNKSIZE);
         |mem| == |old(mem)| + ext && bp == Merged(old(blocks) + [ExtendBlock(old(mem), ext)], |old(blocks)|).start)
    {
      var newsize := MallocSize(size);
      if size == 0 {
        return NULL;
      }
      if WORD - 2 * DSIZE < size {
        return NULL;
      }
      MallocSizeMeaning(size);
      ghost var m0, bs0 := mem, blocks;
      ghost var i := FitIndex(blocks, newsize, fit);
      HeapChain(mem, heapListp, blocks);
      if fit == FitStrategy.BestFit {
        bp := BestFit(newsize);
      } else if fit == FitStrategy.FirstFit {
        bp := FirstFit(newsize);
      } else {
        bp := NextFit(newsize);
      }
      FitFound(mem, heapListp, blocks, newsize, fit);
      if bp != NULL {
        Place(bp, newsize, i);
        PlacedHolds(bs0, i, newsize, size);
        PlaceFrom(bs0, i, newsize);
        return;
      }
      bp := ExtendAndPlace(newsize, size);
    }

    /**
     * The end of mm_malloc when no block fits: extend_heap by
     * MAX(asize, CHUNKSIZE) bytes and place asize bytes into the free block
     * it returns, or NULL when memlib has no room.
     */
    method ExtendAndPlace(asize: nat, ghost size: nat) returns (bp: int)
      modifies this
      requires Valid() && asize % 8 == 0 && MIN_BLOCK <= asize < WORD && size + DSIZE <= asize
      ensures heapListp == old(heapListp) && Valid()
      ensures AllocKept(old(mem), old(blocks), mem, blocks, NULL)
      ensures bp == NULL <==> maxHeap < |old(mem)| + Max(asize, CHUNKSIZE)
      ensures bp == NULL ==> mem == old(mem) && blocks == old(blocks)
      ensures bp != NULL ==> bp % 8 == 0 && Holds(bp, size) && !old(Allocated(bp))
      ensures bp != NULL ==> AllocFromBut(old(blocks), blocks, bp)
      ensures bp != NULL ==> |mem| == |old(mem)| + Max(asize, CHUNKSIZE)
      ensures bp != NULL ==> bp == Merged(old(blocks) + [ExtendBlock(old(mem), Max(asize, CHUNKSIZE))], |old(blocks)|).start
    {
      ghost var m0, bs0 := mem, blocks;
      var extendsize := Max(asize, CHUNKSIZE);
      assert extendsize % 8 == 0 by {
        assert extendsize == asize || extendsize == CHUNKSIZE;
      }
      ghost var k: nat;
      bp, k := ExtendHeap(extendsize);
      if bp != NULL {
        ghost var m1, bs1 := mem, blocks;
        ExtendFresh(m0, bs0, m1, heapListp, bs1, k);
        Place(bp, asize, k);
        AllocKeptTrans(m0, bs0, m1, bs1, mem, blocks, NULL);
        PlacedHolds(bs1, k, asize, size);
        PlaceFrom(bs1, k, asize);
        AllocFromThen(bs0, bs1, blocks, bp);
      }
    }

    /**
     * mm_free(ptr): clears the allocated bit in the header and footer of
     * ptr's block (block k), then coalesces it with its free neighbours.
     */
    method MmFree(ptr: int, ghost k: nat)
      modifies this
      requires Valid() && k < |blocks| && blocks[k].start == ptr && blocks[k].alloc
      ensures heapListp == old(heapListp) && Valid()
      ensures |mem| == |old(mem)| && blocks == CoalesceBlocks(FreeBlocks(old(blocks), k), k)
      ensures AllocKept(old(mem), old(blocks), mem, blocks, ptr)
      ensures AllocFrom(old(blocks), blocks) && !Allocated(ptr)
    {
      ghost var m0, bs0 := mem, blocks;
      FreeTags(ptr, k);
      ghost var m1, bs1 := mem, blocks;
      var _ := Coalesce(ptr, k);
      FreeDone(m0, heapListp, bs0, k, m1, bs1, mem, blocks);
    }

    /** The first half of mm_free: the header and footer of block k rewritten with the allocated bit clear. */
    method FreeTags(ptr: nat, ghost k: nat)
      modifies this
      requires Valid() && k < |blocks| && blocks[k].start == ptr
      ensures mem == SetTags(old(mem), Freed(old(blocks), k)) && blocks == FreeBlocks(old(blocks), k)
      ensures heapListp == old(heapListp) && Brk()
      ensures HeapShape(mem, heapListp, blocks) && NoAdjacentFreeExcept(blocks, k)
      ensures AllocKept(old(mem), old(blocks), mem, blocks, ptr)
    {
      ghost var m0, bs0 := mem, blocks;
      BlockFacts(k);
      TagFields(blocks[k]);
      var size := GetSize(Word(mem, Hdrp(ptr)));
      PutTags(ptr, size, 0);
      FreeOk(m0, heapListp, bs0, k);
      assert Block(ptr, size, false) == Freed(bs0, k);
      blocks := FreeBlocks(bs0, k);
    }

    /**
     * mm_realloc(ptr, size): mm_malloc(size), then memcpy of
     * MIN(GET_SIZE(HDRP(ptr)), size) bytes from ptr to the new block, then
     * mm_free(ptr). Returns NULL, changing nothing, when mm_malloc does.
     * The new payload starts with the old one, cut to size bytes.
     */
    method MmRealloc(ptr: int, size: nat, ghost k: nat) returns (newptr: int)
      modifies this
      requires Valid() && size < WORD
      requires k < |blocks| && blocks[k].start == ptr && blocks[k].alloc
      ensures heapListp == old(heapListp) && Valid()
      ensures newptr == NULL <==> (size == 0 || WORD - 2 * DSIZE < size
        || (FitIndex(old(blocks), RoundUp8(size + SIZE_T_SIZE), fit) == -1
            && maxHeap < |old(mem)| + Max(RoundUp8(size + SIZE_T_SIZE), CHUNKSIZE)))
      ensures newptr == NULL ==> mem == old(mem) && blocks == old(blocks)
      ensures newptr != NULL ==> Holds(newptr, size) && !Allocated(ptr)
      ensures newptr != NULL ==> AllocKept(old(mem), old(blocks), mem, blocks, ptr)
      ensures newptr != NULL ==> Copied(old(mem), mem, newptr, ptr, Min(old(blocks)[k].size - DSIZE, size))
    {
      assert HeapShape(mem, heapListp, blocks);
      newptr := MmMalloc(size);
      if newptr == NULL {
        return NULL;
      }
      ReallocTail(ptr, newptr, size, old(mem), old(blocks), k);
    }

    /**
     * The rest of mm_realloc once mm_malloc returned newptr: m0 and bs0 are
     * the heap before that mm_malloc, and block k of it is the old block.
     */
    method ReallocTail(ptr: int, newptr: int, size: nat, ghost m0: seq<Byte>, ghost bs0: seq<Block>, ghost k: nat)
      modifies this
      requires Valid() && HeapShape(m0, heapListp, bs0) && AllocKept(m0, bs0, mem, blocks, NULL)
      requires k < |bs0| && bs0[k].start == ptr && bs0[k].alloc && Holds(newptr, size)
      requires forall i :: 0 <= i < |bs0| && bs0[i].alloc ==> bs0[i].start != newptr
      ensures heapListp == old(heapListp) && Valid()
      ensures Holds(newptr, size) && !Allocated(ptr)
      ensures AllocKept(m0, bs0, mem, blocks, ptr)
      ensures Copied(m0, mem, newptr, ptr, Min(bs0[k].size - DSIZE, size))
    {
      ghost var m1, bs1 := mem, blocks;
      ghost var j :| 0 <= j < |blocks| && blocks[j].start == newptr && blocks[j].alloc && size + DSIZE <= blocks[j].size;
      ghost var t := ReallocFacts(m0, bs0, m1, heapListp, bs1, k, j);
      ReallocMove(ptr, newptr, size, j, t);
      StartsAbove(m0, heapListp, bs0);
      AllocKeptThen(m0, bs0, m1, bs1, mem, blocks, ptr, newptr);
      CopiedFrom(m0, m1, mem, bs0[k], newptr, ptr, Min(bs0[k].size - DSIZE, size));
    }

    /**
     * The memcpy and the mm_free of mm_realloc, once mm_malloc returned
     * block j at newptr; block t is the old block at ptr.
     */
    method ReallocMove(ptr: int, newptr: int, size: nat, ghost j: nat, ghost t: nat)
      modifies this
      requires Valid() && j < |blocks| && t < |blocks| && blocks[j].start == newptr && blocks[t].start == ptr
      requires blocks[j].alloc && blocks[t].alloc && ptr != newptr && size + DSIZE <= blocks[j].size
      ensures heapListp == old(heapListp) && Valid()
      ensures Holds(newptr, size) && !Allocated(ptr) && AllocFrom(old(blocks), blocks)
      ensures AllocKeptBut(old(mem), old(blocks), mem, blocks, ptr, newptr)
      ensures Copied(old(mem), mem, newptr, ptr, Min(old(blocks)[t].size - DSIZE, size))
    {
      BlockFacts(t);
      CopyPayload(newptr, ptr, size, j, t);
      ghost var m2 := mem;
      MmFree(ptr, t);
      AllocKeptBoth(old(mem), old(blocks), m2, old(blocks), mem, blocks, newptr, ptr);
      assert old(blocks)[j] in blocks && Untouched(m2, mem, old(blocks)[j]);
      CopiedKept(old(mem), m2, mem, old(blocks)[j], newptr, ptr, Min(old(blocks)[t].size, size), Min(old(blocks)[t].size - DSIZE, size));
    }

    /** The memcpy of mm_realloc: MIN(GET_SIZE(HDRP(ptr)), size) bytes from ptr to the payload at newptr. */
    method CopyPayload(newptr: int, ptr: int, size: nat, ghost j: nat, ghost t: nat)
      modifies this
      requires Valid() && j < |blocks| && t < |blocks| && blocks[j].start == newptr && blocks[t].start == ptr
      requires size + DSIZE <= blocks[j].size
      ensures heapListp == old(heapListp) && blocks == old(blocks) && Valid()
      ensures AllocKept(old(mem), blocks, mem, blocks, newptr)
      ensures Copied(old(mem), mem, newptr, ptr, Min(blocks[t].size, size))
    {
      ghost var m := mem;
      BlockFacts(j);
      BlockFacts(t);
      TagFields(blocks[t]);
      assert GetSize(Word(mem, Hdrp(ptr))) == blocks[t].size;
      var copySize := Min(GetSize(Word(mem, Hdrp(ptr))), size);
      mem := MemCopy(mem, newptr, ptr, copySize);
      assert copySize == Min(blocks[t].size, size);
      assert Copied(m, mem, newptr, ptr, copySize);
      PayloadWrite(m, mem, heapListp, blocks, j);
    }
  }

  /**
   * The block a fit policy picks on a heap is a free block of at least
   * asize bytes, and no allocated block starts where it does.
   */
  lemma FitFound(m: seq<Byte>, lp: int, bs: seq<Block>, asize: nat, fit: FitStrategy)
    requires HeapShape(m, lp, bs)
    ensures var i := FitIndex(bs, asize, fit);
      0 <= i ==> (bs[i].start != NULL && !bs[i].alloc && asize <= bs[i].size
        && (forall j :: 0 <= j < |bs| && bs[j].alloc ==> bs[j].start != bs[i].start))
  {
    var i := FitIndex(bs, asize, fit);
    FitIndexMeaning(bs, asize, fit);
    if 0 <= i {
      assert Tiled(bs, lp + 8, |m|);
      TilesBounds(bs, lp + 8, |m|, i);
      forall j | 0 <= j < |bs| && bs[j].alloc
        ensures bs[j].start != bs[i].start
      {
        TilesDistinct(bs, lp + 8, |m|, j, i);
      }
    }
  }

  /** After place on block k, block k is allocated and has room for n payload bytes. */
  lemma PlacedHolds(bs: seq<Block>, k: nat, asize: nat, n: nat)
    requires k < |bs| && asize <= bs[k].size && n + DSIZE <= asize
    ensures var r := Splice(bs, k, k + 1, PlaceNew(bs[k], asize));
      k < |r| && r[k].start == bs[k].start && r[k].alloc && n + DSIZE <= r[k].size
  {
    SpliceAt(bs, k, k + 1, PlaceNew(bs[k], asize), k);
  }

  /** The free block extend_heap returns starts where no block allocated before it did. */
  lemma ExtendFresh(m0: seq<Byte>, bs0: seq<Block>, m1: seq<Byte>, lp: int, bs1: seq<Block>, k: nat)
    requires HeapShape(m0, lp, bs0) && HeapShape(m1, lp, bs1) && AllocKept(m0, bs0, m1, bs1, NULL)
    requires k < |bs1| && !bs1[k].alloc
    ensures forall j :: 0 <= j < |bs0| && bs0[j].alloc ==> bs0[j].start != bs1[k].start
  {
    StartsAbove(m0, lp, bs0);
    assert Tiled(bs1, lp + 8, |m1|);
    forall j | 0 <= j < |bs0| && bs0[j].alloc
      ensures bs0[j].start != bs1[k].start
    {
      var t :| 0 <= t < |bs1| && bs1[t] == bs0[j];
      TilesDistinct(bs1, lp + 8, |m1|, t, k);
    }
  }

  /**
   * After mm_free of block k and the coalescing, every allocated block was
   * allocated before, and none starts where block k did.
   */
  lemma FreedNotAllocated(m: seq<Byte>, lp: int, bs: seq<Block>, k: nat, bs': seq<Block>)
    requires HeapShape(m, lp, bs) && k < |bs| && AllocFrom(FreeBlocks(bs, k), bs')
    ensures AllocFrom(bs, bs')
    ensures forall j :: 0 <= j < |bs'| && bs'[j].alloc ==> bs'[j].start != bs[k].start
  {
    var f := FreeBlocks(bs, k);
    assert Tiled(bs, lp + 8, |m|);
    forall j | 0 <= j < |bs'| && bs'[j].alloc
      ensures bs'[j] in bs && bs'[j].start != bs[k].start
    {
      var t :| 0 <= t < |f| && f[t] == bs'[j];
      SpliceAt(bs, k, k + 1, [Freed(bs, k)], t);
      TilesDistinct(bs, lp + 8, |m|, t, k);
    }
  }

  /**
   * After mm_free of block k (tags, then coalesce): the other allocated
   * blocks are kept, no block became allocated, and none starts at block k.
   */
  lemma FreeDone(m0: seq<Byte>, lp: int, bs0: seq<Block>, k: nat, m1: seq<Byte>, bs1: seq<Block>, m2: seq<Byte>, bs2: seq<Block>)
    requires HeapShape(m0, lp, bs0) && k < |bs0| && bs1 == FreeBlocks(bs0, k) && k < |bs1|
    requires bs2 == CoalesceBlocks(bs1, k)
    requires AllocKept(m0, bs0, m1, bs1, bs0[k].start) && AllocKept(m1, bs1, m2, bs2, NULL)
    ensures AllocKept(m0, bs0, m2, bs2, bs0[k].start) && AllocFrom(bs0, bs2)
    ensures forall j :: 0 <= j < |bs2| && bs2[j].alloc ==> bs2[j].start != bs0[k].start
  {
    SpliceFreeFrom(bs1, MergeLo(bs1, k), MergeHi(bs1, k), [Merged(bs1, k)]);
    StartsAbove(m0, lp, bs0);
    AllocKeptVia(m0, bs0, m1, bs1, m2, bs2, bs0[k].start, NULL, bs0[k].start);
    FreedNotAllocated(m0, lp, bs0, k, bs2);
  }

  /**
   * What mm_realloc relies on after its mm_malloc: the old block is still
   * block t, untouched, and apart from the new block j.
   */
  lemma ReallocFacts(m0: seq<Byte>, bs0: seq<Block>, m1: seq<Byte>, lp: int, bs1: seq<Block>, k: nat, j: nat) returns (t: nat)
    requires HeapShape(m0, lp, bs0) && HeapShape(m1, lp, bs1) && AllocKept(m0, bs0, m1, bs1, NULL)
    requires k < |bs0| && bs0[k].alloc && j < |bs1| && bs1[j].alloc
    requires forall i :: 0 <= i < |bs0| && bs0[i].alloc ==> bs0[i].start != bs1[j].start
    ensures t < |bs1| && bs1[t] == bs0[k] && bs0[k].start != bs1[j].start && Untouched(m0, m1, bs0[k])
    ensures MIN_BLOCK <= bs0[k].size && 4 <= bs1[j].start && End(bs1[j]) <= |m1|
  {
    StartsAbove(m0, lp, bs0);
    t :| 0 <= t < |bs1| && bs1[t] == bs0[k];
    assert BlockWords(m1, bs1[t]);
    assert Tiled(bs1, lp + 8, |m1|);
    TilesBounds(bs1, lp + 8, |m1|, j);
  }


  /**
   * What the walk of the fit functions reads at block i of the chain (the
   * prologue is -1, the epilogue |bs|): the header holds the block's size,
   * which is 0 only at the epilogue, and says whether it is a free ordinary
   * block, and NEXT_BLKP leads to block i + 1.
   */
  ghost predicate ChainAt(m: seq<Byte>, lp: nat, bs: seq<Block>, i: int)
    requires -1 <= i <= |bs|
  {
    var b := BlockAt(m, lp, bs, i);
    4 <= b.start <= |m| && GetSize(Word(m, Hdrp(b.start))) == b.size
    && (GetAlloc(Word(m, Hdrp(b.start))) == 0 <==> 0 <= i < |bs| && !bs[i].alloc)
    && (b.size == 0 <==> i == |bs|)
    && (i < |bs| ==> NextBlkp(m, b.start) == BlockAt(m, lp, bs, i + 1).start)
    && (0 <= i < |bs| ==> b.size < WORD && b.size % 8 == 0)
  }

  /** The chain as the fit functions walk it, block by block. */
  ghost predicate ChainView(m: seq<Byte>, lp: int, bs: seq<Block>) {
    0 <= lp && forall i :: -1 <= i <= |bs| ==> ChainAt(m, lp, bs, i)
  }

  /** On a heap, NEXT_BLKP walks the chain from the prologue to the epilogue. */
  lemma HeapChain(m: seq<Byte>, lp: int, bs: seq<Block>)
    requires HeapShape(m, lp, bs)
    ensures ChainView(m, lp, bs)
  {
    forall i | -1 <= i <= |bs|
      ensures ChainAt(m, lp, bs, i)
    {
      HeaderAt(m, lp, bs, i);
      if i < |bs| {
        MacrosWalk(m, lp, bs, i);
      }
      if 0 <= i < |bs| {
        assert Tiled(bs, lp + 8, |m|);
      }
    }
  }

  /** A block first_fit accepts after passing over every earlier one is the first fit. */
  lemma FirstFitHere(bs: seq<Block>, asize: nat, i: nat)
    requires i < |bs| && Fits(bs[i], asize)
    requires forall j :: 0 <= j < i ==> !Fits(bs[j], asize)
    ensures FitIndex(bs, asize, FitStrategy.FirstFit) == i
  {
    FirstFitFromAt(bs, asize, 0, i);
  }

  lemma {:induction false} FirstFitFromAt(bs: seq<Block>, asize: nat, k: nat, i: nat)
    requires k <= i < |bs| && Fits(bs[i], asize)
    requires forall j :: k <= j < i ==> !Fits(bs[j], asize)
    ensures FirstFitFrom(bs, asize, k) == i
    decreases i - k
  {
    if k < i {
      FirstFitFromAt(bs, asize, k + 1, i);
    }
  }

  /** When no block fits, first_fit finds none. */
  lemma FirstFitNone(bs: seq<Block>, asize: nat)
    requires forall j :: 0 <= j < |bs| ==> !Fits(bs[j], asize)
    ensures FitIndex(bs, asize, FitStrategy.FirstFit) == -1
  {
    FirstFitFromMeaning(bs, asize, 0);
  }

  /**
   * best_fit after n blocks: best and best_diff name the block BestFitIn
   * picks among them, or still hold NULL and (size_t)-1 when none qualified.
   */
  ghost predicate BestSoFar(bs: seq<Block>, asize: nat, n: nat, best: int, bestDiff: nat) {
    n <= |bs|
    && var r := BestFitIn(bs, asize, n);
    (r == -1 ==> best == NULL && bestDiff == WORD - 1)
    && (r != -1 ==> best == bs[r].start && bestDiff == bs[r].size - asize)
  }

  /** How many ordinary blocks the walk has passed once it stands at block i. */
  function Seen(bs: seq<Block>, i: int): (n: nat)
    requires -1 <= i <= |bs|
    ensures n <= |bs| && (i < |bs| ==> n == i + 1)
  {
    if i < |bs| then i + 1 else |bs|
  }

  /** A free block closer to asize than best_diff becomes the best so far. */
  lemma BestTake(bs: seq<Block>, asize: nat, k: nat, best: int, bestDiff: nat, bp: int, bsize: nat)
    requires k < |bs| && BestSoFar(bs, asize, k, best, bestDiff)
    requires bp == bs[k].start && bsize == bs[k].size && bsize < WORD && bsize % 8 == 0
    requires !bs[k].alloc && bsize > asize && bsize - asize < bestDiff
    ensures BestSoFar(bs, asize, Seen(bs, k), bp, bsize - asize)
  {
  }

  /** Any other block leaves the best so far as it is. */
  lemma BestKeep(bs: seq<Block>, asize: nat, k: nat, best: int, bestDiff: nat)
    requires k < |bs| && BestSoFar(bs, asize, k, best, bestDiff)
    requires bs[k].size < WORD && bs[k].size % 8 == 0
    requires !(Qualifies(bs[k], asize) && bs[k].size - asize < bestDiff)
    ensures BestSoFar(bs, asize, Seen(bs, k), best, bestDiff)
  {
  }

  /** ALIGN leaves a multiple of 8 below 2^32 as it is. */
  lemma AlignExact(n: nat)
    requires n < WORD && n % 8 == 0
    ensures Align(n) == n
  {
    var q := n / 8;
    assert n == 8 * q;
    assert q < 0x2000_0000;
    assert n + 7 < WORD;
    AlignMeaning(n);
    assert (n + 7) / 8 == q;
    assert RoundUp8(n) == n;
  }

  /** A heap holds at least its prologue and epilogue. */
  lemma HeapLength(m: seq<Byte>, lp: int, bs: seq<Block>)
    requires HeapShape(m, lp, bs)
    ensures 16 <= |m| && |m| % 8 == 0
  {
  }

  /** NEXT_BLKP of the block extend_heap has just tagged is the end of the heap. */
  lemma ExtendReads(m: seq<Byte>, size: nat)
    requires 4 <= |m| && 16 <= size && size % 8 == 0 && |m| + size < WORD
    ensures Hdrp(NextBlkp(SetTags(m + Zeros(size), ExtendBlock(m, size)), |m|)) == |m| + size - 4
  {
    var b := ExtendBlock(m, size);
    SetTagsWords(m + Zeros(size), b);
    TagFields(b);
  }

  /** After extend_heap coalesces, the merged block is the last one, free, and at least as large as the new block. */
  lemma ExtendCoalesced(bs: seq<Block>, b: Block)
    requires !b.alloc
    ensures var r := CoalesceBlocks(bs + [b], |bs|);
      0 < |r| && r[|r| - 1] == Merged(bs + [b], |bs|) && r[|r| - 1].start == Merged(bs + [b], |bs|).start
      && !r[|r| - 1].alloc && b.size <= r[|r| - 1].size
  {
    var r := CoalesceBlocks(bs + [b], |bs|);
    SpliceAt(bs + [b], MergeLo(bs + [b], |bs|), |bs| + 1, [Merged(bs + [b], |bs|)], |r| - 1);
  }

  lemma SumMult8(a: nat, b: nat, s: nat)
    requires a % 8 == 0 && b % 8 == 0 && s == a + b
    ensures s % 8 == 0
  {
  }

  lemma DiffMult8(a: nat, b: nat, d: nat)
    requires a % 8 == 0 && b % 8 == 0 && d == a - b
    ensures d % 8 == 0
  {
  }

  /**
   * What coalesce reads of free block k: its size from its header, from
   * the next header whether the successor is free and how large it is, and
   * the same of the predecessor from the footer before it.
   */
  ghost predicate CoalesceView(m: seq<Byte>, bs: seq<Block>, k: nat)
    requires k < |bs|
  {
    var bp := bs[k].start;
    16 <= bp && End(bs[k]) <= |m| < WORD && 8 <= bs[k].size && bs[k].size % 8 == 0
    && GetSize(Word(m, Hdrp(bp))) == bs[k].size && NextHdrp(m, bp) == End(bs[k]) - 4
    && (GetAlloc(Word(m, NextHdrp(m, bp))) == 0) == NextFree(bs, k)
    && (NextFree(bs, k) ==> (GetSize(Word(m, NextHdrp(m, bp))) == bs[k + 1].size
         && End(bs[k]) == bs[k + 1].start && End(bs[k + 1]) <= |m| && bs[k + 1].size % 8 == 0))
    && (GetAlloc(Word(m, PrevFtrp(bp))) == 0) == PrevFree(bs, k)
    && (PrevFree(bs, k) ==> (GetSize(Word(m, PrevFtrp(bp))) == bs[k - 1].size
         && bs[k - 1].start == bp - bs[k - 1].size && 16 <= bs[k - 1].start
         && 8 <= bs[k - 1].size && bs[k - 1].size % 8 == 0))
  }

  /** On a heap, coalesce reads what CoalesceView says. */
  lemma CoalesceReads(m: seq<Byte>, lp: int, bs: seq<Block>, k: nat)
    requires HeapShape(m, lp, bs) && k < |bs|
    ensures CoalesceView(m, bs, k)
  {
    HeadReads(m, lp, bs, k);
    NextReads(m, lp, bs, k);
    PrevReads(m, lp, bs, k);
    if PrevFree(bs, k) {
      PrevSize(m, lp, bs, k);
    }
  }

  lemma HeadReads(m: seq<Byte>, lp: int, bs: seq<Block>, k: nat)
    requires HeapShape(m, lp, bs) && k < |bs|
    ensures var b := bs[k];
      16 <= b.start && End(b) <= |m| < WORD && 8 <= b.size && b.size % 8 == 0
      && GetSize(Word(m, Hdrp(b.start))) == b.size && NextHdrp(m, b.start) == End(b) - 4
  {
    assert Tiled(bs, lp + 8, |m|);
    TilesBounds(bs, lp + 8, |m|, k);
    MacrosWalk(m, lp, bs, k);
    HeaderAt(m, lp, bs, k);
    NextAt(m, lp, bs, k);
    HeaderAt(m, lp, bs, k + 1);
  }

  /** The header after block k says whether its successor is free, and how large it is. */
  lemma NextReads(m: seq<Byte>, lp: int, bs: seq<Block>, k: nat)
    requires HeapShape(m, lp, bs) && k < |bs|
    ensures 8 <= End(bs[k]) <= |m|
    ensures (GetAlloc(Word(m, End(bs[k]) - 4)) == 0) == NextFree(bs, k)
    ensures NextFree(bs, k) ==> (GetSize(Word(m, End(bs[k]) - 4)) == bs[k + 1].size
      && End(bs[k]) == bs[k + 1].start && End(bs[k + 1]) <= |m| && bs[k + 1].size % 8 == 0)
  {
    NextAt(m, lp, bs, k);
    HeaderAt(m, lp, bs, k + 1);
    if k + 1 < |bs| {
      assert Tiled(bs, lp + 8, |m|);
      TilesBounds(bs, lp + 8, |m|, k + 1);
    }
  }

  /** The footer before block k says whether its predecessor is free. */
  lemma PrevReads(m: seq<Byte>, lp: int, bs: seq<Block>, k: nat)
    requires HeapShape(m, lp, bs) && k < |bs|
    ensures 16 <= bs[k].start
    ensures (GetAlloc(Word(m, PrevFtrp(bs[k].start))) == 0) == PrevFree(bs, k)
  {
    PrevFooter(m, lp, bs, k);
    assert Tiled(bs, lp + 8, |m|);
    TilesBounds(bs, lp + 8, |m|, k);
  }

  /** The footer before block k holds the tag of the block before it, the prologue for block 0. */
  lemma PrevFooter(m: seq<Byte>, lp: int, bs: seq<Block>, k: nat)
    requires HeapShape(m, lp, bs) && k < |bs|
    ensures var p := BlockAt(m, lp, bs, k - 1);
      GetAlloc(Word(m, PrevFtrp(bs[k].start))) == AllocBit(p.alloc)
      && GetSize(Word(m, PrevFtrp(bs[k].start))) == p.size && End(p) == bs[k].start
  {
    var p := BlockAt(m, lp, bs, k - 1);
    FooterWord(m, lp, bs, k - 1);
    NextAt(m, lp, bs, k - 1);
    assert Word(m, PrevFtrp(bs[k].start)) == Tag(p);
    TagFields(p);
  }

  /** A free predecessor's size, read from its footer, leads back to its start. */
  lemma PrevSize(m: seq<Byte>, lp: int, bs: seq<Block>, k: nat)
    requires HeapShape(m, lp, bs) && k < |bs| && PrevFree(bs, k)
    ensures GetSize(Word(m, PrevFtrp(bs[k].start))) == bs[k - 1].size
    ensures bs[k - 1].start == bs[k].start - bs[k - 1].size && 16 <= bs[k - 1].start
    ensures 8 <= bs[k - 1].size && bs[k - 1].size % 8 == 0
  {
    PrevFooter(m, lp, bs, k);
    assert Tiled(bs, lp + 8, |m|);
    TilesBounds(bs, lp + 8, |m|, k - 1);
  }

  /**
   * The two writes of coalesce make up CoalesceMem: c is the block after
   * the merge with the successor and m1 the heap then, d the block after
   * the merge with the predecessor and m2 the heap then.
   */
  lemma CoalesceSteps(m: seq<Byte>, lp: int, bs: seq<Block>, k: nat, c: Block, m1: seq<Byte>, d: Block, m2: seq<Byte>)
    requires 8 <= lp && Tiled(bs, lp + 8, |m|) && k < |bs|
    requires NextStep(m, bs, k, c, m1) && PrevStep(m1, bs, k, d, m2)
    ensures m2 == CoalesceMem(m, lp, bs, k)
  {
  }

  /** After the merge with the successor: c is block k, grown when its successor is free, and m1 the heap. */
  ghost predicate NextStep(m: seq<Byte>, bs: seq<Block>, k: nat, c: Block, m1: seq<Byte>)
    requires k < |bs|
  {
    |m1| == |m|
    && (NextFree(bs, k) ==> (c == Block(bs[k].start, bs[k].size + bs[k + 1].size, false)
         && 4 <= c.start && 8 <= c.size && End(c) <= |m| && m1 == SetTags(m, c)))
    && (!NextFree(bs, k) ==> m1 == m && c == Block(bs[k].start, bs[k].size, false))
  }

  /** After the merge with the predecessor: d is the merged block and m2 the heap. */
  ghost predicate PrevStep(m1: seq<Byte>, bs: seq<Block>, k: nat, d: Block, m2: seq<Byte>)
    requires k < |bs|
  {
    (PrevFree(bs, k) ==> (d == Block(bs[k - 1].start, bs[k].size + (if NextFree(bs, k) then bs[k + 1].size else 0) + bs[k - 1].size, false)
      && 4 <= d.start && 8 <= d.size && End(d) <= |m1| && m2 == SetTags(m1, d)))
    && (!PrevFree(bs, k) ==> m2 == m1)
  }

  /** Growing block b at bp leaves the footer before it alone. */
  lemma PrevFooterKept(m: seq<Byte>, bp: nat, size: nat)
    requires 8 <= bp && 8 <= size && bp + size <= |m| < WORD && size % 8 == 0
    ensures Word(SetTags(m, Block(bp, size, false)), PrevFtrp(bp)) == Word(m, PrevFtrp(bp))
  {
    SetTagsWords(m, Block(bp, size, false));
    WordOutside(m, SetTags(m, Block(bp, size, false)), bp - 4, bp + size - 4, bp - 8);
  }

  /** FTRP finds the footer from the header PutTags has just written. */
  lemma TagsReadBack(m: seq<Byte>, bp: nat, size: nat, alloc: nat)
    requires 4 <= bp && 8 <= size && bp + size <= |m| < WORD && size % 8 == 0 && alloc < 2
    ensures var m1 := PutWord(m, Hdrp(bp), Pack(size, alloc));
      Ftrp(m1, bp) == bp + size - 8
      && PutWord(m1, Ftrp(m1, bp), Pack(size, alloc)) == SetTags(m, Block(bp, size, alloc == 1))
  {
    var w := Pack(size, alloc);
    PackRoundTrip(size, alloc);
    WordPut(m, bp - 4, w);
    assert Tag(Block(bp, size, alloc == 1)) == w;
  }

  /** What place reads first: the block's size, from its header. */
  lemma PlaceReads(m: seq<Byte>, lp: nat, bs: seq<Block>, k: nat)
    requires HeapShape(m, lp, bs) && k < |bs|
    ensures 4 <= bs[k].start && End(bs[k]) <= |m| < WORD && bs[k].size % 8 == 0 && 8 <= bs[k].size
    ensures GetSize(Word(m, Hdrp(bs[k].start))) == bs[k].size
  {
    HeaderAt(m, lp, bs, k);
    assert BlockWords(m, bs[k]);
  }

  /** When place splits b, NEXT_BLKP finds the rest of b from the header of the allocated part. */
  lemma PlaceSplitReads(m: seq<Byte>, b: Block, asize: nat)
    requires 4 <= b.start && End(b) <= |m| < WORD && asize % 8 == 0 && MIN_BLOCK <= asize < b.size
    ensures NextBlkp(SetTags(m, Block(b.start, asize, true)), b.start) == b.start + asize
  {
    var x := Block(b.start, asize, true);
    SetTagsWords(m, x);
    TagFields(x);
  }

  /** When place splits b, it writes the tags of the allocated part and then those of the rest. */
  lemma PlaceSplitMem(m: seq<Byte>, b: Block, asize: nat)
    requires 4 <= b.start && End(b) <= |m| && MIN_BLOCK <= asize && MIN_BLOCK <= b.size - asize
    ensures PlaceMem(m, b, asize) == SetTags(SetTags(m, Block(b.start, asize, true)), Block(b.start + asize, b.size - asize, false))
  {
  }

  /** The rest place splits off is a multiple of 8. */
  lemma PlaceRemain(b: Block, asize: nat, remain: nat)
    requires b.size % 8 == 0 && asize % 8 == 0 && remain == b.size - asize
    ensures remain % 8 == 0
    ensures Block(b.start + asize, remain, false) == Block(b.start + asize, b.size - asize, false)
  {
    DiffMult8(b.size, asize, remain);
  }
}
