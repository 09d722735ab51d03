/**
 * The implicit free list of the allocator, on values. A heap is the byte
 * sequence `m` with, from offset lp - 4 on: the prologue (a header and a
 * footer PACK(8, 1); lp is its block pointer), a chain of ordinary blocks,
 * and the epilogue header PACK(0, 1) in the last four bytes. An ordinary
 * block with block pointer `start` and size `size` has its header at
 * start - 4, its payload at [start, start + size - 8), its footer at
 * start + size - 8, and the next block starts at start + size.
 *
 * The ghost list of blocks gives the chain a shape; HeapShape ties it to
 * the words in `m`. Each write the allocator makes is a function here
 * (SetTags, PlaceMem, CoalesceMem, ExtendMem, InitMem) with a lemma saying
 * which heap it leaves.
 */
module MmHeap {
  import opened Bits
  import opened MmCodec

  /** (void *)-1, the pointer mem_sbrk returns on failure, and NULL. */
  const NULL: int := -1

  /** The smallest ordinary block: a header, a footer and 8 bytes of payload. */
  const MIN_BLOCK: nat := 2 * DSIZE

  datatype Block = Block(start: nat, size: nat, alloc: bool)

  /** The block pointer of the next block. */
  function End(b: Block): nat {
    b.start + b.size
  }

  function AllocBit(alloc: bool): nat {
    if alloc then 1 else 0
  }

  /** Sums and differences of multiples of 8 are multiples of 8. */
  lemma Mult8(a: nat, b: nat)
    requires a % 8 == 0 && b % 8 == 0
    ensures (a + b) % 8 == 0 && (b <= a ==> (a - b) % 8 == 0)
  {
    var p, q := a / 8, b / 8;
    assert a == 8 * p && b == 8 * q;
    assert a + b == 8 * (p + q);
    if b <= a {
      assert a - b == 8 * (p - q);
    }
  }

  /** The word in a block's header and footer: PACK(size, alloc). */
  function Tag(b: Block): nat {
    Pack(b.size, AllocBit(b.alloc))
  }

  lemma TagFields(b: Block)
    requires b.size % 8 == 0 && b.size < WORD
    ensures Tag(b) < WORD
    ensures GetSize(Tag(b)) == b.size && GetAlloc(Tag(b)) == AllocBit(b.alloc)
  {
    PackRoundTrip(b.size, AllocBit(b.alloc));
  }

  // ---------------------------------------------------------------
  // The shape of a heap

  /** The header and the footer of b lie in m and both hold b's tag. */
  ghost predicate BlockWords(m: seq<Byte>, b: Block) {
    4 <= b.start && 8 <= b.size && End(b) <= |m|
    && Word(m, b.start - 4) == Tag(b) && Word(m, End(b) - 8) == Tag(b)
  }

  /** Block k + 1 starts where block k ends. */
  ghost predicate Abut(bs: seq<Block>, k: int)
    requires 0 <= k < |bs| - 1
  {
    End(bs[k]) == bs[k + 1].start
  }

  /** bs covers [lo, hi) block after block, with aligned blocks of at least MIN_BLOCK bytes. */
  ghost predicate Tiled(bs: seq<Block>, lo: nat, hi: nat) {
    (|bs| == 0 ==> lo == hi)
    && (|bs| > 0 ==> bs[0].start == lo && End(bs[|bs| - 1]) == hi)
    && (forall k :: 0 <= k < |bs| - 1 ==> Abut(bs, k))
    && (forall k :: 0 <= k < |bs| ==> bs[k].start % 8 == 0 && bs[k].size % 8 == 0 && MIN_BLOCK <= bs[k].size)
  }

  /**
   * m is a heap with prologue block pointer lp and ordinary blocks bs: the
   * prologue header and footer hold PACK(8, 1), the blocks follow it up to
   * the epilogue header PACK(0, 1) in the last word, and every block's
   * header and footer hold its tag.
   */
  ghost predicate HeapShape(m: seq<Byte>, lp: int, bs: seq<Block>) {
    |m| < WORD && |m| % 8 == 0 && 8 <= lp && lp % 8 == 0 && lp + 8 <= |m|
    && Word(m, lp - 4) == Pack(DSIZE, 1) && Word(m, lp) == Pack(DSIZE, 1)
    && Word(m, |m| - 4) == Pack(0, 1)
    && Tiled(bs, lp + 8, |m|)
    && (forall k :: 0 <= k < |bs| ==> 4 <= bs[k].start && 8 <= bs[k].size && End(bs[k]) <= |m|)
    && (forall k {:trigger BlockWords(m, bs[k])} :: 0 <= k < |bs| ==> BlockWords(m, bs[k]))
  }

  /** Block k or block k + 1 is allocated. */
  ghost predicate NotBothFree(bs: seq<Block>, k: int)
    requires 0 <= k < |bs| - 1
  {
    bs[k].alloc || bs[k + 1].alloc
  }

  /** No two neighbouring blocks are both free. */
  ghost predicate NoAdjacentFree(bs: seq<Block>) {
    forall k :: 0 <= k < |bs| - 1 ==> NotBothFree(bs, k)
  }

  /** No two neighbouring blocks are both free, except next to block i. */
  ghost predicate NoAdjacentFreeExcept(bs: seq<Block>, i: int) {
    forall k :: 0 <= k < |bs| - 1 && k != i && k + 1 != i ==> NotBothFree(bs, k)
  }

  /** The invariant the allocator keeps between calls. */
  ghost predicate HeapOk(m: seq<Byte>, lp: int, bs: seq<Block>) {
    HeapShape(m, lp, bs) && NoAdjacentFree(bs)
  }

  /** Writing the tags of two neighbouring blocks, one after the other. */
  lemma SetTagsPair(m: seq<Byte>, x: Block, y: Block)
    requires 4 <= x.start && 8 <= x.size && x.size % 8 == 0 && End(x) == y.start
    requires 8 <= y.size && y.size % 8 == 0 && End(y) <= |m| && |m| < WORD
    ensures var m' := SetTags(SetTags(m, x), y);
      BlockWords(m', x) && BlockWords(m', y) && SameOutside(m, m', x.start - 4, End(y) - 4)
  {
    var m1 := SetTags(m, x);
    SetTagsWords(m, x);
    SetTagsWords(m1, y);
    BlockOutside(m1, SetTags(m1, y), y.start - 4, End(y) - 4, x);
  }

  /** Blocks further along the chain start after earlier ones end. */
  lemma {:induction false} TilesOrder(bs: seq<Block>, lo: nat, hi: nat, i: nat, j: nat)
    requires Tiled(bs, lo, hi) && i < j < |bs|
    ensures End(bs[i]) <= bs[j].start
    decreases j - i
  {
    assert Abut(bs, i);
    if i + 1 < j {
      TilesOrder(bs, lo, hi, i + 1, j);
    }
  }

  /** Every block lies within [lo, hi). */
  lemma TilesBounds(bs: seq<Block>, lo: nat, hi: nat, i: nat)
    requires Tiled(bs, lo, hi) && i < |bs|
    ensures lo <= bs[i].start && End(bs[i]) <= hi
  {
    if 0 < i {
      TilesOrder(bs, lo, hi, 0, i);
    }
    if i < |bs| - 1 {
      TilesOrder(bs, lo, hi, i, |bs| - 1);
    }
  }

  // ---------------------------------------------------------------
  // Writes

  /** m' differs from m at most at the offsets in [lo, hi). */
  ghost predicate SameOutside(m: seq<Byte>, m': seq<Byte>, lo: int, hi: int) {
    |m'| == |m| && forall i :: 0 <= i < |m| && (i < lo || hi <= i) ==> m'[i] == m[i]
  }

  lemma WordOutside(m: seq<Byte>, m': seq<Byte>, lo: int, hi: int, p: nat)
    requires SameOutside(m, m', lo, hi) && p + 4 <= |m| && (p + 4 <= lo || hi <= p)
    ensures Word(m', p) == Word(m, p)
  {
  }

  lemma SameOutsideTrans(m: seq<Byte>, m': seq<Byte>, m'': seq<Byte>, lo: int, hi: int, lo': int, hi': int)
    requires SameOutside(m, m', lo, hi) && SameOutside(m', m'', lo', hi')
    ensures SameOutside(m, m'', if lo < lo' then lo else lo', if hi < hi' then hi' else hi)
  {
  }

  /**
   * PUT(HDRP(bp), PACK(size, alloc)); PUT(FTRP(bp), PACK(size, alloc)):
   * writes b's tag to its header and footer.
   */
  function SetTags(m: seq<Byte>, b: Block): (m': seq<Byte>)
    requires 4 <= b.start && 8 <= b.size && End(b) <= |m|
    ensures |m'| == |m|
  {
    PutWord(PutWord(m, b.start - 4, Tag(b)), End(b) - 8, Tag(b))
  }

  /** SetTags makes b's words right and touches nothing outside b. */
  lemma SetTagsWords(m: seq<Byte>, b: Block)
    requires 4 <= b.start && 8 <= b.size && End(b) <= |m| && b.size % 8 == 0 && b.size < WORD
    ensures BlockWords(SetTags(m, b), b)
    ensures SameOutside(m, SetTags(m, b), b.start - 4, End(b) - 4)
    ensures forall i :: b.start <= i < End(b) - 8 ==> SetTags(m, b)[i] == m[i]
  {
    TagFields(b);
    var m1 := PutWord(m, b.start - 4, Tag(b));
    WordPut(m, b.start - 4, Tag(b));
    WordPut(m1, End(b) - 8, Tag(b));
    WordFrame(m1, End(b) - 8, Tag(b), b.start - 4);
  }

  /** b's bytes, header to footer, are the same in m and m'. */
  ghost predicate Untouched(m: seq<Byte>, m': seq<Byte>, b: Block) {
    4 <= b.start && End(b) <= |m| && End(b) <= |m'| && b.start <= End(b)
    && m'[b.start - 4 .. End(b) - 4] == m[b.start - 4 .. End(b) - 4]
  }

  // ---------------------------------------------------------------
  // Replacing a run of blocks

  /** bs with the run bs[i..j] replaced by ns. */
  function Splice(bs: seq<Block>, i: nat, j: nat, ns: seq<Block>): (r: seq<Block>)
    requires i <= j <= |bs|
    ensures |r| == |bs| - (j - i) + |ns|
  {
    bs[..i] + ns + bs[j..]
  }

  /** Where each block of a spliced list comes from. */
  lemma SpliceAt(bs: seq<Block>, i: nat, j: nat, ns: seq<Block>, k: nat)
    requires i <= j <= |bs| && k < |bs| - (j - i) + |ns|
    ensures k < i ==> Splice(bs, i, j, ns)[k] == bs[k]
    ensures i <= k < i + |ns| ==> Splice(bs, i, j, ns)[k] == ns[k - i]
    ensures i + |ns| <= k ==> Splice(bs, i, j, ns)[k] == bs[k - (i + |ns|) + j]
  {
  }

  /** A run replaced by blocks tiling the same span leaves a tiling. */
  lemma SpliceTiled(bs: seq<Block>, lo: nat, hi: nat, i: nat, j: nat, ns: seq<Block>)
    requires Tiled(bs, lo, hi) && i < j <= |bs| && |ns| > 0
    requires Tiled(ns, bs[i].start, End(bs[j - 1]))
    ensures Tiled(Splice(bs, i, j, ns), lo, hi)
  {
    var r := Splice(bs, i, j, ns);
    var d := i + |ns| - j;
    forall k | 0 <= k < |r| - 1
      ensures Abut(r, k)
    {
      SpliceAt(bs, i, j, ns, k);
      SpliceAt(bs, i, j, ns, k + 1);
      if k < i - 1 {
        assert Abut(bs, k);
      } else if k == i - 1 {
        assert Abut(bs, k);
      } else if k < i + |ns| - 1 {
        assert Abut(ns, k - i);
      } else if k == i + |ns| - 1 {
        assert Abut(bs, j - 1);
      } else {
        assert Abut(bs, k - d);
      }
    }
    forall k | 0 <= k < |r|
      ensures r[k].start % 8 == 0 && r[k].size % 8 == 0 && MIN_BLOCK <= r[k].size
    {
      SpliceAt(bs, i, j, ns, k);
    }
    SpliceAt(bs, i, j, ns, 0);
    SpliceAt(bs, i, j, ns, |r| - 1);
  }

  /** A block that lies outside the bytes a write may touch keeps its words and its bytes. */
  lemma BlockOutside(m: seq<Byte>, m': seq<Byte>, lo: int, hi: int, b: Block)
    requires SameOutside(m, m', lo, hi) && BlockWords(m, b)
    requires End(b) - 4 <= lo || hi <= b.start - 4
    ensures BlockWords(m', b) && Untouched(m, m', b)
  {
    WordOutside(m, m', lo, hi, b.start - 4);
    WordOutside(m, m', lo, hi, End(b) - 8);
    var a, z := b.start - 4, End(b) - 4;
    forall t | a <= t < z
      ensures m'[t] == m[t]
    {
    }
    assert m'[a..z] == m[a..z];
  }

  /**
   * Every allocated block of bs, except one starting at `except`, is still a
   * block of bs' and keeps all its bytes.
   */
  ghost predicate AllocKept(m: seq<Byte>, bs: seq<Block>, m': seq<Byte>, bs': seq<Block>, except: int) {
    forall k :: 0 <= k < |bs| && bs[k].alloc && bs[k].start != except ==> bs[k] in bs' && Untouched(m, m', bs[k])
  }

  lemma AllocKeptTrans(m0: seq<Byte>, bs0: seq<Block>, m1: seq<Byte>, bs1: seq<Block>, m2: seq<Byte>, bs2: seq<Block>, except: int)
    requires AllocKept(m0, bs0, m1, bs1, except) && AllocKept(m1, bs1, m2, bs2, except)
    ensures AllocKept(m0, bs0, m2, bs2, except)
  {
    forall k | 0 <= k < |bs0| && bs0[k].alloc && bs0[k].start != except
      ensures bs0[k] in bs2 && Untouched(m0, m2, bs0[k])
    {
      var k1 :| 0 <= k1 < |bs1| && bs1[k1] == bs0[k];
    }
  }

  /** A splice that rewrites only free blocks, or the one at `except`, keeps the other allocated blocks. */
  lemma SpliceAllocKept(m: seq<Byte>, m': seq<Byte>, bs: seq<Block>, i: nat, j: nat, ns: seq<Block>, except: int)
    requires i < j <= |bs|
    requires forall k :: 0 <= k < |bs| && (k < i || j <= k) ==> Untouched(m, m', bs[k])
    requires forall k :: i <= k < j ==> !bs[k].alloc || bs[k].start == except
    ensures AllocKept(m, bs, m', Splice(bs, i, j, ns), except)
  {
    var r := Splice(bs, i, j, ns);
    forall k | 0 <= k < |bs| && bs[k].alloc && bs[k].start != except
      ensures bs[k] in r
    {
      if k < i {
        SpliceAt(bs, i, j, ns, k);
      } else {
        SpliceAt(bs, i, j, ns, k - j + i + |ns|);
      }
    }
  }

  /** A block before or after a rewritten run keeps its words and its bytes. */
  lemma KeptBlock(m: seq<Byte>, m': seq<Byte>, bs: seq<Block>, lo: nat, hi: nat, i: nat, j: nat, k: nat)
    requires Tiled(bs, lo, hi) && i < j <= |bs| && k < |bs| && (k < i || j <= k)
    requires BlockWords(m, bs[k]) && SameOutside(m, m', bs[i].start - 4, End(bs[j - 1]) - 4)
    ensures BlockWords(m', bs[k]) && Untouched(m, m', bs[k])
  {
    if k < i {
      TilesOrder(bs, lo, hi, k, i);
    } else {
      TilesOrder(bs, lo, hi, j - 1, k);
    }
    BlockOutside(m, m', bs[i].start - 4, End(bs[j - 1]) - 4, bs[k]);
  }

  /**
   * Rewriting the bytes of a run of blocks so that they hold new blocks
   * tiling the same span leaves a heap, and every block outside the run
   * keeps all its bytes.
   */
  lemma SpliceShape(m: seq<Byte>, m': seq<Byte>, lp: int, bs: seq<Block>, i: nat, j: nat, ns: seq<Block>, except: int)
    requires HeapShape(m, lp, bs) && i < j <= |bs| && |ns| > 0
    requires Tiled(ns, bs[i].start, End(bs[j - 1]))
    requires SameOutside(m, m', bs[i].start - 4, End(bs[j - 1]) - 4)
    requires forall t :: 0 <= t < |ns| ==> BlockWords(m', ns[t])
    requires forall k :: i <= k < j ==> !bs[k].alloc || bs[k].start == except
    ensures HeapShape(m', lp, Splice(bs, i, j, ns))
    ensures AllocKept(m, bs, m', Splice(bs, i, j, ns), except)
  {
    SpliceHeap(m, m', lp, bs, i, j, ns);
    SpliceBytes(m, m', lp, bs, i, j, ns, except);
  }

  /** The heap part of SpliceShape. */
  lemma SpliceHeap(m: seq<Byte>, m': seq<Byte>, lp: int, bs: seq<Block>, i: nat, j: nat, ns: seq<Block>)
    requires HeapShape(m, lp, bs) && i < j <= |bs| && |ns| > 0
    requires Tiled(ns, bs[i].start, End(bs[j - 1]))
    requires SameOutside(m, m', bs[i].start - 4, End(bs[j - 1]) - 4)
    requires forall t :: 0 <= t < |ns| ==> BlockWords(m', ns[t])
    ensures HeapShape(m', lp, Splice(bs, i, j, ns))
  {
    var lo, hi := bs[i].start - 4, End(bs[j - 1]) - 4;
    TilesBounds(bs, lp + 8, |m|, i);
    TilesBounds(bs, lp + 8, |m|, j - 1);
    SpliceTiled(bs, lp + 8, |m|, i, j, ns);
    WordOutside(m, m', lo, hi, lp - 4);
    WordOutside(m, m', lo, hi, lp);
    WordOutside(m, m', lo, hi, |m| - 4);
    SpliceKeptWords(m, m', lp, bs, i, j);
    SpliceWords(m', bs, i, j, ns);
  }

  /** The allocated-blocks part of SpliceShape. */
  lemma SpliceBytes(m: seq<Byte>, m': seq<Byte>, lp: int, bs: seq<Block>, i: nat, j: nat, ns: seq<Block>, except: int)
    requires HeapShape(m, lp, bs) && i < j <= |bs|
    requires SameOutside(m, m', bs[i].start - 4, End(bs[j - 1]) - 4)
    requires forall k :: i <= k < j ==> !bs[k].alloc || bs[k].start == except
    ensures AllocKept(m, bs, m', Splice(bs, i, j, ns), except)
  {
    forall k | 0 <= k < |bs| && (k < i || j <= k)
      ensures Untouched(m, m', bs[k])
    {
      assert BlockWords(m, bs[k]);
      KeptBlock(m, m', bs, lp + 8, |m|, i, j, k);
    }
    SpliceAllocKept(m, m', bs, i, j, ns, except);
  }

  /** The blocks outside a rewritten run keep their words. */
  lemma SpliceKeptWords(m: seq<Byte>, m': seq<Byte>, lp: int, bs: seq<Block>, i: nat, j: nat)
    requires HeapShape(m, lp, bs) && i < j <= |bs|
    requires SameOutside(m, m', bs[i].start - 4, End(bs[j - 1]) - 4)
    ensures forall k :: 0 <= k < |bs| && (k < i || j <= k) ==> BlockWords(m', bs[k])
  {
    forall k | 0 <= k < |bs| && (k < i || j <= k)
      ensures BlockWords(m', bs[k])
    {
      assert BlockWords(m, bs[k]);
      KeptBlock(m, m', bs, lp + 8, |m|, i, j, k);
    }
  }

  /** Every block of a spliced list has its words when the kept and the new blocks have them. */
  lemma SpliceWords(m': seq<Byte>, bs: seq<Block>, i: nat, j: nat, ns: seq<Block>)
    requires i < j <= |bs|
    requires forall k :: 0 <= k < |bs| && (k < i || j <= k) ==> BlockWords(m', bs[k])
    requires forall t :: 0 <= t < |ns| ==> BlockWords(m', ns[t])
    ensures forall k :: 0 <= k < |Splice(bs, i, j, ns)| ==> BlockWords(m', Splice(bs, i, j, ns)[k])
  {
    var r := Splice(bs, i, j, ns);
    forall k | 0 <= k < |r|
      ensures BlockWords(m', r[k])
    {
      SpliceAt(bs, i, j, ns, k);
    }
  }

  /** The free blocks of a spliced list are still apart when they are apart in each part and at the seams. */
  lemma SpliceNoAdjacentFree(bs: seq<Block>, i: nat, j: nat, ns: seq<Block>)
    requires i < j <= |bs| && |ns| > 0
    requires forall k :: 0 <= k < |bs| - 1 && (k + 1 < i || j <= k) ==> NotBothFree(bs, k)
    requires NoAdjacentFree(ns)
    requires 0 < i && !ns[0].alloc ==> bs[i - 1].alloc
    requires j < |bs| && !ns[|ns| - 1].alloc ==> bs[j].alloc
    ensures NoAdjacentFree(Splice(bs, i, j, ns))
  {
    var r := Splice(bs, i, j, ns);
    var d := i + |ns| - j;
    forall k | 0 <= k < |r| - 1
      ensures NotBothFree(r, k)
    {
      SpliceAt(bs, i, j, ns, k);
      SpliceAt(bs, i, j, ns, k + 1);
      if k < i - 1 {
        assert NotBothFree(bs, k);
      } else if i <= k < i + |ns| - 1 {
        assert NotBothFree(ns, k - i);
      } else if i + |ns| <= k {
        assert NotBothFree(bs, k - d);
      }
    }
  }

  // ---------------------------------------------------------------
  // place

  /**
   * The blocks place leaves where free block b was: b allocated whole when
   * fewer than MIN_BLOCK bytes would remain, else an allocated block of
   * exactly asize bytes followed by a free block of the rest.
   */
  function PlaceNew(b: Block, asize: nat): (ns: seq<Block>)
    requires asize <= b.size
    ensures 0 < |ns| && ns[0].start == b.start && ns[0].alloc && asize <= ns[0].size
  {
    if b.size - asize < MIN_BLOCK then [b.(alloc := true)]
    else [Block(b.start, asize, true), Block(b.start + asize, b.size - asize, false)]
  }

  /** The words place writes into the heap. */
  function PlaceMem(m: seq<Byte>, b: Block, asize: nat): (m': seq<Byte>)
    requires 4 <= b.start && End(b) <= |m| && 8 <= asize <= b.size
    ensures |m'| == |m|
  {
    if b.size - asize < MIN_BLOCK then SetTags(m, b.(alloc := true))
    else SetTags(SetTags(m, Block(b.start, asize, true)), Block(b.start + asize, b.size - asize, false))
  }

  /** The new blocks cover b exactly; the first is allocated, holds asize bytes and wastes less than MIN_BLOCK. */
  lemma PlaceNewTiles(b: Block, asize: nat)
    requires b.start % 8 == 0 && b.size % 8 == 0 && asize % 8 == 0 && MIN_BLOCK <= asize <= b.size
    ensures var ns := PlaceNew(b, asize);
      Tiled(ns, b.start, End(b)) && NoAdjacentFree(ns)
      && asize <= ns[0].size && (ns[0].size == asize || ns[0].size - asize < MIN_BLOCK)
      && forall t :: 0 < t < |ns| ==> !ns[t].alloc
  {
    var ns := PlaceNew(b, asize);
    if |ns| == 2 {
      Mult8(b.start, asize);
      Mult8(b.size, asize);
      assert Abut(ns, 0) && NotBothFree(ns, 0);
    }
  }

  /** The words place writes make the new blocks' headers and footers, inside b only. */
  lemma PlaceWrites(m: seq<Byte>, b: Block, asize: nat)
    requires 4 <= b.start && End(b) <= |m| < WORD
    requires b.start % 8 == 0 && b.size % 8 == 0 && asize % 8 == 0 && MIN_BLOCK <= asize <= b.size
    ensures SameOutside(m, PlaceMem(m, b, asize), b.start - 4, End(b) - 4)
    ensures forall t :: 0 <= t < |PlaceNew(b, asize)| ==> BlockWords(PlaceMem(m, b, asize), PlaceNew(b, asize)[t])
  {
    var ns := PlaceNew(b, asize);
    var m' := PlaceMem(m, b, asize);
    if b.size - asize < MIN_BLOCK {
      assert m' == SetTags(m, b.(alloc := true)) && ns == [b.(alloc := true)];
      SetTagsWords(m, b.(alloc := true));
    } else {
      var x, y := Block(b.start, asize, true), Block(b.start + asize, b.size - asize, false);
      assert m' == SetTags(SetTags(m, x), y);
      assert ns == [x, y];
      Mult8(b.size, asize);
      SetTagsPair(m, x, y);
    }
  }

  /**
   * place on free block k of a heap leaves a heap: block k replaced by
   * PlaceNew, no two free blocks adjacent, and every other block with all
   * its bytes.
   */
  lemma PlaceOk(m: seq<Byte>, lp: nat, bs: seq<Block>, k: nat, asize: nat)
    requires HeapOk(m, lp, bs) && k < |bs| && !bs[k].alloc
    requires asize % 8 == 0 && MIN_BLOCK <= asize <= bs[k].size
    ensures HeapOk(PlaceMem(m, bs[k], asize), lp, Splice(bs, k, k + 1, PlaceNew(bs[k], asize)))
    ensures AllocKept(m, bs, PlaceMem(m, bs[k], asize), Splice(bs, k, k + 1, PlaceNew(bs[k], asize)), NULL)
  {
    var b := bs[k];
    assert BlockWords(m, b);
    var ns := PlaceNew(b, asize);
    var m' := PlaceMem(m, b, asize);
    PlaceNewTiles(b, asize);
    PlaceWrites(m, b, asize);
    assert HeapShape(m, lp, bs);
    assert Tiled(ns, bs[k].start, End(bs[k + 1 - 1]));
    assert SameOutside(m, m', bs[k].start - 4, End(bs[k + 1 - 1]) - 4);
    assert forall t :: 0 <= t < |ns| ==> BlockWords(m', ns[t]);
    assert forall j :: k <= j < k + 1 ==> !bs[j].alloc;
    SpliceShape(m, m', lp, bs, k, k + 1, ns, NULL);
    if k + 1 < |bs| {
      assert NotBothFree(bs, k);
    }
    SpliceNoAdjacentFree(bs, k, k + 1, ns);
  }

  // ---------------------------------------------------------------
  // coalesce

  /** coalesce merges block k with its successor when that one is free. */
  function NextFree(bs: seq<Block>, k: nat): bool
    requires k < |bs|
  {
    k + 1 < |bs| && !bs[k + 1].alloc
  }

  /** coalesce merges block k with its predecessor when that one is free. */
  function PrevFree(bs: seq<Block>, k: nat): bool
    requires k < |bs|
  {
    0 < k && !bs[k - 1].alloc
  }

  /** The first and one past the last of the blocks coalesce merges. */
  function MergeLo(bs: seq<Block>, k: nat): nat
    requires k < |bs|
  {
    if PrevFree(bs, k) then k - 1 else k
  }

  function MergeHi(bs: seq<Block>, k: nat): nat
    requires k < |bs|
  {
    if NextFree(bs, k) then k + 2 else k + 1
  }

  /** The size coalesce accumulates: block k's, plus the successor's, plus the predecessor's. */
  function MergedSize(bs: seq<Block>, k: nat): nat
    requires k < |bs|
  {
    bs[k].size + (if NextFree(bs, k) then bs[k + 1].size else 0) + (if PrevFree(bs, k) then bs[k - 1].size else 0)
  }

  /** The free block coalesce leaves. */
  function Merged(bs: seq<Block>, k: nat): Block
    requires k < |bs|
  {
    Block(bs[MergeLo(bs, k)].start, MergedSize(bs, k), false)
  }

  /** The blocks after coalesce(bp) of block k: the merged run replaced by one free block. */
  function CoalesceBlocks(bs: seq<Block>, k: nat): seq<Block>
    requires k < |bs|
  {
    Splice(bs, MergeLo(bs, k), MergeHi(bs, k), [Merged(bs, k)])
  }

  /** The merged block spans exactly the blocks it replaces. */
  lemma MergedSpan(bs: seq<Block>, lo: nat, hi: nat, k: nat)
    requires Tiled(bs, lo, hi) && k < |bs|
    ensures MergeHi(bs, k) <= |bs|
    ensures Merged(bs, k).start == bs[MergeLo(bs, k)].start && End(Merged(bs, k)) == End(bs[MergeHi(bs, k) - 1])
    ensures Tiled([Merged(bs, k)], Merged(bs, k).start, End(Merged(bs, k)))
  {
    var n := if NextFree(bs, k) then bs[k + 1].size else 0;
    if NextFree(bs, k) {
      assert Abut(bs, k);
      Mult8(bs[k].size, bs[k + 1].size);
    }
    if PrevFree(bs, k) {
      assert Abut(bs, k - 1);
      Mult8(bs[k].size + n, bs[k - 1].size);
    }
  }

  /** The merged run lies inside the heap, after its first header. */
  lemma MergedBounds(bs: seq<Block>, lo: nat, hi: nat, k: nat)
    requires Tiled(bs, lo, hi) && k < |bs|
    ensures MergeHi(bs, k) <= |bs|
    ensures lo <= Merged(bs, k).start && End(Merged(bs, k)) <= hi
    ensures MIN_BLOCK <= Merged(bs, k).size && Merged(bs, k).size % 8 == 0
    ensures lo <= bs[k].start && MIN_BLOCK <= bs[k].size
    ensures NextFree(bs, k) ==> End(bs[k]) == bs[k + 1].start && End(bs[k + 1]) <= hi && bs[k + 1].size % 8 == 0
  {
    MergedSpan(bs, lo, hi, k);
    TilesBounds(bs, lo, hi, k);
    TilesBounds(bs, lo, hi, MergeLo(bs, k));
    TilesBounds(bs, lo, hi, MergeHi(bs, k) - 1);
    if NextFree(bs, k) {
      assert Abut(bs, k);
    }
  }

  /** The words coalesce writes: the merged tags, with the successor merged first. */
  function CoalesceMem(m: seq<Byte>, lp: int, bs: seq<Block>, k: nat): (m': seq<Byte>)
    requires 8 <= lp && Tiled(bs, lp + 8, |m|) && k < |bs|
    ensures |m'| == |m|
  {
    var b := bs[k];
    MergedBounds(bs, lp + 8, |m|, k);
    var m1 := if NextFree(bs, k) then SetTags(m, Block(b.start, b.size + bs[k + 1].size, false)) else m;
    if PrevFree(bs, k) then SetTags(m1, Merged(bs, k)) else m1
  }

  /** Writing the tags of c and then those of a block y around it touches only y. */
  lemma SetTagsTwice(m: seq<Byte>, c: Block, y: Block)
    requires 4 <= y.start <= c.start && 8 <= c.size && End(c) <= End(y) <= |m| < WORD
    requires c.size % 8 == 0 && y.size % 8 == 0
    ensures BlockWords(SetTags(SetTags(m, c), y), y)
    ensures SameOutside(m, SetTags(SetTags(m, c), y), y.start - 4, End(y) - 4)
  {
    var m1 := SetTags(m, c);
    SetTagsWords(m, c);
    SetTagsWords(m1, y);
    SameOutsideTrans(m, m1, SetTags(m1, y), c.start - 4, End(c) - 4, y.start - 4, End(y) - 4);
  }

  /** coalesce writes the merged block's tags and nothing outside the merged run. */
  lemma CoalesceWrites(m: seq<Byte>, lp: int, bs: seq<Block>, k: nat)
    requires 8 <= lp && Tiled(bs, lp + 8, |m|) && |m| < WORD && k < |bs| && !bs[k].alloc
    requires BlockWords(m, bs[k])
    ensures SameOutside(m, CoalesceMem(m, lp, bs, k), Merged(bs, k).start - 4, End(Merged(bs, k)) - 4)
    ensures BlockWords(CoalesceMem(m, lp, bs, k), Merged(bs, k))
  {
    var b := bs[k];
    var mb := Merged(bs, k);
    var m' := CoalesceMem(m, lp, bs, k);
    if NextFree(bs, k) && PrevFree(bs, k) {
      CoalesceWritesBoth(m, lp, bs, k);
    } else if NextFree(bs, k) || PrevFree(bs, k) {
      CoalesceWritesOne(m, lp, bs, k);
    } else {
      assert m' == m && mb == b;
    }
  }

  /** CoalesceWrites when exactly one neighbour is free. */
  lemma CoalesceWritesOne(m: seq<Byte>, lp: int, bs: seq<Block>, k: nat)
    requires 8 <= lp && Tiled(bs, lp + 8, |m|) && |m| < WORD && k < |bs|
    requires NextFree(bs, k) != PrevFree(bs, k)
    ensures SameOutside(m, CoalesceMem(m, lp, bs, k), Merged(bs, k).start - 4, End(Merged(bs, k)) - 4)
    ensures BlockWords(CoalesceMem(m, lp, bs, k), Merged(bs, k))
  {
    var mb := Merged(bs, k);
    MergedBounds(bs, lp + 8, |m|, k);
    assert CoalesceMem(m, lp, bs, k) == SetTags(m, mb);
    SetTagsWords(m, mb);
  }

  /** CoalesceWrites when both neighbours are free. */
  lemma CoalesceWritesBoth(m: seq<Byte>, lp: int, bs: seq<Block>, k: nat)
    requires 8 <= lp && Tiled(bs, lp + 8, |m|) && |m| < WORD && k < |bs| && NextFree(bs, k) && PrevFree(bs, k)
    ensures SameOutside(m, CoalesceMem(m, lp, bs, k), Merged(bs, k).start - 4, End(Merged(bs, k)) - 4)
    ensures BlockWords(CoalesceMem(m, lp, bs, k), Merged(bs, k))
  {
    var c := BothBounds(m, lp, bs, k);
    BothMem(m, lp, bs, k, c);
    SetTagsTwice(m, c, Merged(bs, k));
  }

  /** With both neighbours free, the successor merge gives block c, which lies inside the merged block. */
  lemma BothBounds(m: seq<Byte>, lp: int, bs: seq<Block>, k: nat) returns (c: Block)
    requires 8 <= lp && Tiled(bs, lp + 8, |m|) && |m| < WORD && k < |bs| && NextFree(bs, k) && PrevFree(bs, k)
    ensures k + 1 < |bs| && c == Block(bs[k].start, bs[k].size + bs[k + 1].size, false)
    ensures 4 <= Merged(bs, k).start <= c.start && 8 <= c.size && End(c) <= End(Merged(bs, k)) <= |m| < WORD
    ensures c.size % 8 == 0 && Merged(bs, k).size % 8 == 0
  {
    var b := bs[k];
    c := Block(b.start, b.size + bs[k + 1].size, false);
    MergedSpan(bs, lp + 8, |m|, k);
    MergedBounds(bs, lp + 8, |m|, k);
    assert Abut(bs, k - 1);
    assert MergeLo(bs, k) == k - 1 && MergeHi(bs, k) == k + 2;
    Mult8(b.size, bs[k + 1].size);
  }

  /** With both neighbours free, coalesce writes the tags of c, then those of the merged block. */
  lemma BothMem(m: seq<Byte>, lp: int, bs: seq<Block>, k: nat, c: Block)
    requires 8 <= lp && Tiled(bs, lp + 8, |m|) && k < |bs| && NextFree(bs, k) && PrevFree(bs, k)
    requires k + 1 < |bs| && c == Block(bs[k].start, bs[k].size + bs[k + 1].size, false)
    requires 4 <= c.start && 8 <= c.size && End(c) <= |m|
    requires 4 <= Merged(bs, k).start && 8 <= Merged(bs, k).size && End(Merged(bs, k)) <= |m|
    ensures CoalesceMem(m, lp, bs, k) == SetTags(SetTags(m, c), Merged(bs, k))
  {
  }

  /**
   * coalesce on free block k of a heap whose only neighbouring free blocks
   * are next to k leaves a heap with no neighbouring free blocks at all:
   * the run MergeLo..MergeHi becomes the one free block Merged, and every
   * allocated block keeps its bytes.
   */
  lemma CoalesceOk(m: seq<Byte>, lp: int, bs: seq<Block>, k: nat)
    requires HeapShape(m, lp, bs) && NoAdjacentFreeExcept(bs, k) && k < |bs| && !bs[k].alloc
    ensures HeapOk(CoalesceMem(m, lp, bs, k), lp, CoalesceBlocks(bs, k))
    ensures AllocKept(m, bs, CoalesceMem(m, lp, bs, k), CoalesceBlocks(bs, k), NULL)
  {
    var lo, hi, mb := MergeLo(bs, k), MergeHi(bs, k), Merged(bs, k);
    var m' := CoalesceMem(m, lp, bs, k);
    assert Tiled(bs, lp + 8, |m|);
    MergedSpan(bs, lp + 8, |m|, k);
    assert BlockWords(m, bs[k]);
    CoalesceWrites(m, lp, bs, k);
    assert Tiled([mb], bs[lo].start, End(bs[hi - 1]));
    assert SameOutside(m, m', bs[lo].start - 4, End(bs[hi - 1]) - 4);
    assert forall t :: 0 <= t < 1 ==> BlockWords(m', [mb][t]);
    MergedRunFree(bs, k);
    assert forall j :: lo <= j < hi ==> !bs[j].alloc;
    SpliceShape(m, m', lp, bs, lo, hi, [mb], NULL);
    CoalesceApart(bs, k);
  }

  /** Every block coalesce merges is free. */
  lemma MergedRunFree(bs: seq<Block>, k: nat)
    requires k < |bs| && !bs[k].alloc
    ensures forall j :: MergeLo(bs, k) <= j < MergeHi(bs, k) ==> !bs[j].alloc
  {
  }

  /** After coalesce no two free blocks are neighbours. */
  lemma CoalesceApart(bs: seq<Block>, k: nat)
    requires NoAdjacentFreeExcept(bs, k) && k < |bs| && !bs[k].alloc
    ensures NoAdjacentFree(CoalesceBlocks(bs, k))
  {
    var lo, hi, mb := MergeLo(bs, k), MergeHi(bs, k), Merged(bs, k);
    assert forall j :: 0 <= j < |bs| - 1 && (j + 1 < lo || hi <= j) ==> NotBothFree(bs, j);
    if 0 < lo && PrevFree(bs, k) {
      assert NotBothFree(bs, k - 2);
    }
    if hi < |bs| && NextFree(bs, k) {
      assert NotBothFree(bs, k + 1);
    }
    assert NoAdjacentFree([mb]);
    SpliceNoAdjacentFree(bs, lo, hi, [mb]);
  }

  // ---------------------------------------------------------------
  // mm_free

  /** Block k with its allocated bit cleared. */
  function Freed(bs: seq<Block>, k: nat): Block
    requires k < |bs|
  {
    bs[k].(alloc := false)
  }

  /** The blocks after mm_free clears the allocated bit of block k, before coalescing. */
  function FreeBlocks(bs: seq<Block>, k: nat): (r: seq<Block>)
    requires k < |bs|
    ensures |r| == |bs| && !r[k].alloc
  {
    Splice(bs, k, k + 1, [Freed(bs, k)])
  }

  /**
   * Clearing the allocated bit of block k in both its tags leaves a heap
   * whose only neighbouring free blocks are next to k, and keeps every
   * other allocated block.
   */
  lemma FreeOk(m: seq<Byte>, lp: int, bs: seq<Block>, k: nat)
    requires HeapOk(m, lp, bs) && k < |bs|
    ensures 4 <= bs[k].start && 8 <= bs[k].size && End(bs[k]) <= |m|
    ensures HeapShape(SetTags(m, Freed(bs, k)), lp, FreeBlocks(bs, k))
    ensures NoAdjacentFreeExcept(FreeBlocks(bs, k), k)
    ensures AllocKept(m, bs, SetTags(m, Freed(bs, k)), FreeBlocks(bs, k), bs[k].start)
  {
    FreeShape(m, lp, bs, k);
    FreeApart(bs, k);
  }

  /** The heap part of FreeOk. */
  lemma FreeShape(m: seq<Byte>, lp: int, bs: seq<Block>, k: nat)
    requires HeapShape(m, lp, bs) && k < |bs|
    ensures 4 <= bs[k].start && 8 <= bs[k].size && End(bs[k]) <= |m|
    ensures HeapShape(SetTags(m, Freed(bs, k)), lp, Splice(bs, k, k + 1, [Freed(bs, k)]))
    ensures AllocKept(m, bs, SetTags(m, Freed(bs, k)), Splice(bs, k, k + 1, [Freed(bs, k)]), bs[k].start)
  {
    var f := Freed(bs, k);
    assert BlockWords(m, bs[k]);
    assert Tiled(bs, lp + 8, |m|);
    TilesBounds(bs, lp + 8, |m|, k);
    SetTagsWords(m, f);
    SpliceOne(m, SetTags(m, f), lp, bs, k, f, bs[k].start);
  }

  /** Replacing block k by a block f over the same bytes, whose tags alone were rewritten. */
  lemma SpliceOne(m: seq<Byte>, m': seq<Byte>, lp: int, bs: seq<Block>, k: nat, f: Block, except: int)
    requires HeapShape(m, lp, bs) && k < |bs| && f.start == bs[k].start && f.size == bs[k].size
    requires SameOutside(m, m', bs[k].start - 4, End(bs[k]) - 4) && BlockWords(m', f)
    requires !bs[k].alloc || bs[k].start == except
    ensures HeapShape(m', lp, Splice(bs, k, k + 1, [f]))
    ensures AllocKept(m, bs, m', Splice(bs, k, k + 1, [f]), except)
  {
    assert Tiled(bs, lp + 8, |m|);
    assert Tiled([f], bs[k].start, End(bs[k + 1 - 1]));
    assert forall t :: 0 <= t < 1 ==> BlockWords(m', [f][t]);
    assert forall j :: k <= j < k + 1 ==> !bs[j].alloc || bs[j].start == except;
    SpliceShape(m, m', lp, bs, k, k + 1, [f], except);
  }

  /** Freeing one block can only make neighbours of that block both free. */
  lemma FreeApart(bs: seq<Block>, k: nat)
    requires NoAdjacentFree(bs) && k < |bs|
    ensures NoAdjacentFreeExcept(FreeBlocks(bs, k), k)
  {
    var r := FreeBlocks(bs, k);
    forall j | 0 <= j < |r| - 1 && j != k && j + 1 != k
      ensures NotBothFree(r, j)
    {
      SpliceAt(bs, k, k + 1, [Freed(bs, k)], j);
      SpliceAt(bs, k, k + 1, [Freed(bs, k)], j + 1);
      assert NotBothFree(bs, j);
    }
  }

  // ---------------------------------------------------------------
  // extend_heap

  /** The bytes mem_sbrk adds to the heap, modelled as zeros. */
  function Zeros(n: nat): (z: seq<Byte>)
    ensures |z| == n && forall i :: 0 <= i < n ==> z[i] == 0
  {
    seq(n, _ => 0)
  }

  /** The new free block extend_heap makes of the size bytes added after m. */
  function ExtendBlock(m: seq<Byte>, size: nat): Block {
    Block(|m|, size, false)
  }

  /**
   * The words extend_heap writes after growing m by size bytes: the new
   * block's header over the old epilogue, its footer, and a new epilogue
   * header in the last word.
   */
  function ExtendMem(m: seq<Byte>, size: nat): (m': seq<Byte>)
    requires 4 <= |m| && 8 <= size
    ensures |m'| == |m| + size
  {
    PutWord(SetTags(m + Zeros(size), ExtendBlock(m, size)), |m| + size - 4, Pack(0, 1))
  }

  /** Appending bytes leaves the words of m alone. */
  lemma WordAppend(m: seq<Byte>, z: seq<Byte>, p: nat)
    requires p + 4 <= |m|
    ensures Word(m + z, p) == Word(m, p)
  {
  }

  /** The words extend_heap writes lie in [|m| - 4, |m| + size) and make the new block and epilogue. */
  lemma ExtendWrites(m: seq<Byte>, size: nat)
    requires 4 <= |m| && 16 <= size && size % 8 == 0 && |m| + size < WORD
    ensures var m' := ExtendMem(m, size);
      BlockWords(m', ExtendBlock(m, size)) && Word(m', |m'| - 4) == Pack(0, 1)
      && forall i :: 0 <= i < |m| - 4 ==> m'[i] == m[i]
  {
    var b := ExtendBlock(m, size);
    var m0 := m + Zeros(size);
    var m1 := SetTags(m0, b);
    var m' := ExtendMem(m, size);
    SetTagsWords(m0, b);
    PackSum(0, 1);
    WordPut(m1, |m| + size - 4, Pack(0, 1));
    WordFrame(m1, |m| + size - 4, Pack(0, 1), |m| - 4);
    WordFrame(m1, |m| + size - 4, Pack(0, 1), |m| + size - 8);
    assert forall i :: 0 <= i < |m| - 4 ==> m'[i] == m0[i];
  }

  /** m and m' agree on their first n bytes. */
  ghost predicate SameBelow(m: seq<Byte>, m': seq<Byte>, n: int) {
    n <= |m| && n <= |m'| && forall i :: 0 <= i < n ==> m'[i] == m[i]
  }

  /** A word in the common first n bytes reads the same. */
  lemma WordBelow(m: seq<Byte>, m': seq<Byte>, n: int, p: nat)
    requires SameBelow(m, m', n) && p + 4 <= n
    ensures Word(m', p) == Word(m, p)
  {
    assert m'[p] == m[p] && m'[p + 1] == m[p + 1] && m'[p + 2] == m[p + 2] && m'[p + 3] == m[p + 3];
  }

  /** A block inside the common first n bytes keeps its words and bytes. */
  lemma KeptBelow(m: seq<Byte>, m': seq<Byte>, n: int, b: Block)
    requires BlockWords(m, b) && SameBelow(m, m', n) && End(b) - 4 <= n && |m| <= |m'|
    ensures BlockWords(m', b) && Untouched(m, m', b)
  {
    var a, z := b.start - 4, End(b) - 4;
    forall i | a <= i < z
      ensures m'[i] == m[i]
    {
    }
    assert m'[a..z] == m[a..z];
    WordBelow(m, m', n, a);
    WordBelow(m, m', n, End(b) - 8);
  }

  /** Growing a heap and changing nothing before its epilogue keeps the prologue and every block. */
  lemma GrowKept(m: seq<Byte>, m': seq<Byte>, lp: int, bs: seq<Block>)
    requires HeapShape(m, lp, bs) && SameBelow(m, m', |m| - 4) && |m| <= |m'|
    ensures Word(m', lp - 4) == Pack(DSIZE, 1) && Word(m', lp) == Pack(DSIZE, 1)
    ensures forall k :: 0 <= k < |bs| ==> BlockWords(m', bs[k]) && Untouched(m, m', bs[k])
  {
    WordBelow(m, m', |m| - 4, lp - 4);
    WordBelow(m, m', |m| - 4, lp);
    forall k | 0 <= k < |bs|
      ensures BlockWords(m', bs[k]) && Untouched(m, m', bs[k])
    {
      TilesBounds(bs, lp + 8, |m|, k);
      assert BlockWords(m, bs[k]);
      KeptBelow(m, m', |m| - 4, bs[k]);
    }
  }

  /** A block appended right at the end of a tiling extends it. */
  lemma TiledAppend(bs: seq<Block>, lo: nat, hi: nat, b: Block)
    requires Tiled(bs, lo, hi) && b.start == hi && b.start % 8 == 0 && b.size % 8 == 0 && MIN_BLOCK <= b.size
    ensures Tiled(bs + [b], lo, End(b))
  {
    var r := bs + [b];
    forall k | 0 <= k < |r| - 1
      ensures Abut(r, k)
    {
      if k < |bs| - 1 {
        assert Abut(bs, k);
      }
    }
  }

  /** An appended block can only be free next to the old last block. */
  lemma AppendApart(bs: seq<Block>, b: Block)
    requires NoAdjacentFree(bs)
    ensures NoAdjacentFreeExcept(bs + [b], |bs|)
  {
    var r := bs + [b];
    forall k | 0 <= k < |r| - 1 && k != |bs| && k + 1 != |bs|
      ensures NotBothFree(r, k)
    {
      assert NotBothFree(bs, k);
    }
  }

  /** A heap grown by block b, with the epilogue moved past b and nothing before it changed. */
  lemma GrowShape(m: seq<Byte>, m': seq<Byte>, lp: int, bs: seq<Block>, b: Block)
    requires HeapShape(m, lp, bs) && SameBelow(m, m', |m| - 4) && |m'| == End(b) < WORD
    requires b.start == |m| && b.size % 8 == 0 && MIN_BLOCK <= b.size
    requires BlockWords(m', b) && Word(m', |m'| - 4) == Pack(0, 1)
    ensures HeapShape(m', lp, bs + [b])
    ensures AllocKept(m, bs, m', bs + [b], NULL)
  {
    var r := bs + [b];
    GrowKept(m, m', lp, bs);
    assert forall k :: 0 <= k < |bs| ==> r[k] == bs[k];
    assert forall k :: 0 <= k < |r| ==> BlockWords(m', r[k]);
    Mult8(|m|, b.size);
    TiledAppend(bs, lp + 8, |m|, b);
  }

  /**
   * extend_heap's writes on a heap grown by size bytes leave a heap with
   * the new free block appended, whose only possible free neighbour is the
   * block before it, and keep every allocated block.
   */
  lemma ExtendOk(m: seq<Byte>, lp: int, bs: seq<Block>, size: nat)
    requires HeapOk(m, lp, bs) && 16 <= size && size % 8 == 0 && |m| + size < WORD
    ensures HeapShape(ExtendMem(m, size), lp, bs + [ExtendBlock(m, size)])
    ensures NoAdjacentFreeExcept(bs + [ExtendBlock(m, size)], |bs|)
    ensures AllocKept(m, bs, ExtendMem(m, size), bs + [ExtendBlock(m, size)], NULL)
  {
    ExtendWrites(m, size);
    GrowShape(m, ExtendMem(m, size), lp, bs, ExtendBlock(m, size));
    AppendApart(bs, ExtendBlock(m, size));
  }

  // ---------------------------------------------------------------
  // mm_init

  /**
   * The words mm_init writes into the 16 bytes mem_sbrk gave it at base:
   * padding, the prologue header and footer, and the epilogue header.
   */
  function InitMem(m: seq<Byte>, base: nat): (m': seq<Byte>)
    requires base + 16 <= |m|
    ensures |m'| == |m|
  {
    PutWord(PutWord(PutWord(PutWord(m, base, 0), base + 4, Pack(DSIZE, 1)), base + 8, Pack(DSIZE, 1)), base + 12, Pack(0, 1))
  }

  /** mm_init's writes make an empty heap: a prologue at base + 8 and the epilogue. */
  lemma InitOk(m: seq<Byte>, base: nat)
    requires base + 16 == |m| < WORD && base % 8 == 0
    ensures HeapOk(InitMem(m, base), base + 8, [])
  {
    var m1 := PutWord(m, base, 0);
    var m2 := PutWord(m1, base + 4, Pack(DSIZE, 1));
    var m3 := PutWord(m2, base + 8, Pack(DSIZE, 1));
    var m4 := PutWord(m3, base + 12, Pack(0, 1));
    PackSum(DSIZE, 1);
    PackSum(0, 1);
    WordPut(m1, base + 4, Pack(DSIZE, 1));
    WordFrame(m2, base + 8, Pack(DSIZE, 1), base + 4);
    WordFrame(m3, base + 12, Pack(0, 1), base + 4);
    WordPut(m2, base + 8, Pack(DSIZE, 1));
    WordFrame(m3, base + 12, Pack(0, 1), base + 8);
    WordPut(m3, base + 12, Pack(0, 1));
  }

  // ---------------------------------------------------------------
  // first_fit, next_fit, best_fit

  /** The fit policy mm_malloc is built with (FIT_STRATEGY). */
  datatype FitStrategy = FirstFit | NextFit | BestFit

  /** first_fit accepts a free block of at least asize bytes. */
  predicate Fits(b: Block, asize: nat) {
    !b.alloc && asize <= b.size
  }

  /** best_fit only considers a free block of more than asize bytes. */
  predicate Qualifies(b: Block, asize: nat) {
    !b.alloc && asize < b.size
  }

  /** The first block from i on that first_fit accepts, or |bs| when there is none. */
  function FirstFitFrom(bs: seq<Block>, asize: nat, i: nat): (r: nat)
    requires i <= |bs|
    ensures i <= r <= |bs|
    decreases |bs| - i
  {
    if i == |bs| then |bs|
    else if Fits(bs[i], asize) then i
    else FirstFitFrom(bs, asize, i + 1)
  }

  /** FirstFitFrom finds a block that fits and passes over none before it. */
  lemma {:induction false} FirstFitFromMeaning(bs: seq<Block>, asize: nat, i: nat)
    requires i <= |bs|
    ensures var r := FirstFitFrom(bs, asize, i);
      (r < |bs| ==> Fits(bs[r], asize)) && forall j :: i <= j < r ==> !Fits(bs[j], asize)
    decreases |bs| - i
  {
    if i < |bs| && !Fits(bs[i], asize) {
      FirstFitFromMeaning(bs, asize, i + 1);
    }
  }

  /**
   * The block best_fit picks among the first n blocks, or -1: the latest
   * block of more than asize bytes that is smaller than every such block
   * before it.
   */
  function BestFitIn(bs: seq<Block>, asize: nat, n: nat): (r: int)
    requires n <= |bs|
    ensures -1 <= r < n
  {
    if n == 0 then -1
    else
      var p := BestFitIn(bs, asize, n - 1);
      if Qualifies(bs[n - 1], asize) && (p == -1 || bs[n - 1].size < bs[p].size) then n - 1 else p
  }

  /**
   * BestFitIn picks, among the first n blocks, a block of more than asize
   * bytes whose size is the least of all such blocks, the earliest one on
   * ties, and picks none only when no block qualifies.
   */
  lemma {:induction false} BestFitInMeaning(bs: seq<Block>, asize: nat, n: nat)
    requires n <= |bs|
    ensures var r := BestFitIn(bs, asize, n);
      (r == -1 <==> forall j :: 0 <= j < n ==> !Qualifies(bs[j], asize))
      && (0 <= r ==> Qualifies(bs[r], asize))
      && (0 <= r ==> forall j :: 0 <= j < n && Qualifies(bs[j], asize) ==> bs[r].size <= bs[j].size)
      && (0 <= r ==> forall j :: 0 <= j < r && Qualifies(bs[j], asize) ==> bs[r].size < bs[j].size)
  {
    if n > 0 {
      BestFitInMeaning(bs, asize, n - 1);
    }
  }

  /** The block the fit policy picks for a request of asize bytes, or -1. */
  function FitIndex(bs: seq<Block>, asize: nat, fit: FitStrategy): (r: int)
    ensures -1 <= r < |bs|
  {
    match fit
    case FirstFit | NextFit =>
      var i := FirstFitFrom(bs, asize, 0);
      if i == |bs| then -1 else i
    case BestFit => BestFitIn(bs, asize, |bs|)
  }

  /**
   * Every policy picks a free block of at least asize bytes, and picks none
   * only when there is no such block (best_fit: no larger block).
   */
  lemma FitIndexMeaning(bs: seq<Block>, asize: nat, fit: FitStrategy)
    ensures var r := FitIndex(bs, asize, fit);
      (0 <= r ==> Fits(bs[r], asize))
      && (r == -1 && fit != BestFit ==> forall j :: 0 <= j < |bs| ==> !Fits(bs[j], asize))
      && (r == -1 && fit == BestFit ==> forall j :: 0 <= j < |bs| ==> !Qualifies(bs[j], asize))
  {
    FirstFitFromMeaning(bs, asize, 0);
    BestFitInMeaning(bs, asize, |bs|);
  }

  /** best_fit passes over a free block of exactly the requested size. */
  lemma BestFitSkipsExact(bs: seq<Block>, asize: nat)
    requires forall j :: 0 <= j < |bs| ==> bs[j].alloc || bs[j].size == asize
    ensures FitIndex(bs, asize, BestFit) == -1
  {
    BestFitInMeaning(bs, asize, |bs|);
  }

  // ---------------------------------------------------------------
  // The macros HDRP, FTRP, NEXT_HDRP, PREV_FTRP, NEXT_BLKP, PREV_BLKP

  /** HDRP(bp) */
  function Hdrp(bp: int): int {
    bp - WSIZE
  }

  /** FTRP(bp): reads the size from the header. */
  function Ftrp(m: seq<Byte>, bp: int): int
    requires 4 <= bp <= |m|
  {
    bp + GetSize(Word(m, Hdrp(bp))) - DSIZE
  }

  /** NEXT_HDRP(bp) */
  function NextHdrp(m: seq<Byte>, bp: int): int
    requires 4 <= bp <= |m|
  {
    Ftrp(m, bp) + WSIZE
  }

  /** PREV_FTRP(bp) */
  function PrevFtrp(bp: int): int {
    Hdrp(bp) - WSIZE
  }

  /** NEXT_BLKP(bp) */
  function NextBlkp(m: seq<Byte>, bp: int): int
    requires 4 <= bp <= |m|
  {
    NextHdrp(m, bp) + WSIZE
  }

  /** PREV_BLKP(bp): reads the size from the previous footer. */
  function PrevBlkp(m: seq<Byte>, bp: int): int
    requires 8 <= bp <= |m| + 4
  {
    bp - GetSize(Word(m, PrevFtrp(bp)))
  }

  /**
   * The chain with its two ends: block -1 is the prologue (block pointer lp,
   * size 8), block |bs| the epilogue (block pointer |m|, size 0), both
   * allocated.
   */
  function BlockAt(m: seq<Byte>, lp: nat, bs: seq<Block>, i: int): Block
    requires -1 <= i <= |bs|
  {
    if i == -1 then Block(lp, DSIZE, true) else if i == |bs| then Block(|m|, 0, true) else bs[i]
  }

  /** Every header of the chain, ends included, holds its block's tag. */
  lemma HeaderWord(m: seq<Byte>, lp: nat, bs: seq<Block>, i: int)
    requires HeapShape(m, lp, bs) && -1 <= i <= |bs|
    ensures var b := BlockAt(m, lp, bs, i);
      4 <= b.start <= |m| && b.size % 8 == 0 && b.size < WORD && Word(m, Hdrp(b.start)) == Tag(b)
  {
    if i == -1 {
      assert Word(m, Hdrp(lp)) == Word(m, lp - 4);
    } else if i == |bs| {
      assert Word(m, Hdrp(|m|)) == Word(m, |m| - 4);
    } else {
      assert BlockWords(m, bs[i]);
    }
  }

  /** Every header of the chain, ends included, reads back its block's size and allocated bit. */
  lemma HeaderAt(m: seq<Byte>, lp: nat, bs: seq<Block>, i: int)
    requires HeapShape(m, lp, bs) && -1 <= i <= |bs|
    ensures var b := BlockAt(m, lp, bs, i);
      4 <= b.start <= |m| && Word(m, Hdrp(b.start)) == Tag(b)
      && GetSize(Word(m, Hdrp(b.start))) == b.size && GetAlloc(Word(m, Hdrp(b.start))) == AllocBit(b.alloc)
  {
    HeaderWord(m, lp, bs, i);
    TagFields(BlockAt(m, lp, bs, i));
  }

  /** Every footer of the chain but the epilogue's holds its block's tag. */
  lemma FooterWord(m: seq<Byte>, lp: nat, bs: seq<Block>, i: int)
    requires HeapShape(m, lp, bs) && -1 <= i < |bs|
    ensures var b := BlockAt(m, lp, bs, i);
      8 <= End(b) <= |m| && b.size % 8 == 0 && b.size < WORD && Word(m, End(b) - 8) == Tag(b)
  {
    if i == -1 {
      assert Word(m, End(Block(lp, DSIZE, true)) - 8) == Word(m, lp);
    } else {
      assert BlockWords(m, bs[i]);
    }
  }

  /** Every footer of the chain but the epilogue's reads back its block's size and allocated bit. */
  lemma FooterAt(m: seq<Byte>, lp: nat, bs: seq<Block>, i: int)
    requires HeapShape(m, lp, bs) && -1 <= i < |bs|
    ensures var b := BlockAt(m, lp, bs, i);
      8 <= End(b) <= |m| && Word(m, End(b) - 8) == Tag(b)
      && GetSize(Word(m, End(b) - 8)) == b.size && GetAlloc(Word(m, End(b) - 8)) == AllocBit(b.alloc)
  {
    FooterWord(m, lp, bs, i);
    TagFields(BlockAt(m, lp, bs, i));
  }

  /** Each block of the chain ends where the next begins. */
  lemma NextAt(m: seq<Byte>, lp: nat, bs: seq<Block>, i: int)
    requires HeapShape(m, lp, bs) && -1 <= i < |bs|
    ensures End(BlockAt(m, lp, bs, i)) == BlockAt(m, lp, bs, i + 1).start
  {
    if 0 <= i < |bs| - 1 {
      assert Abut(bs, i);
    }
  }

  /**
   * On a heap the macros walk the chain: FTRP finds the footer, NEXT_BLKP
   * the next block and PREV_BLKP the previous one.
   */
  lemma MacrosWalk(m: seq<Byte>, lp: nat, bs: seq<Block>, i: int)
    requires HeapShape(m, lp, bs) && -1 <= i < |bs|
    ensures var b := BlockAt(m, lp, bs, i);
      Ftrp(m, b.start) == End(b) - DSIZE
      && NextHdrp(m, b.start) == Hdrp(BlockAt(m, lp, bs, i + 1).start)
      && NextBlkp(m, b.start) == BlockAt(m, lp, bs, i + 1).start
      && PrevFtrp(BlockAt(m, lp, bs, i + 1).start) == End(b) - DSIZE
      && PrevBlkp(m, BlockAt(m, lp, bs, i + 1).start) == b.start
  {
    HeaderAt(m, lp, bs, i);
    FooterAt(m, lp, bs, i);
    NextAt(m, lp, bs, i);
    HeaderAt(m, lp, bs, i + 1);
  }

  // ---------------------------------------------------------------
  // Which blocks are allocated, across calls

  /** No two blocks of a tiling start at the same offset. */
  lemma TilesDistinct(bs: seq<Block>, lo: nat, hi: nat, i: nat, j: nat)
    requires Tiled(bs, lo, hi) && i < |bs| && j < |bs| && i != j
    ensures bs[i].start != bs[j].start
  {
    if i < j {
      TilesOrder(bs, lo, hi, i, j);
    } else {
      TilesOrder(bs, lo, hi, j, i);
    }
  }

  /** Every block of a heap lies past the prologue, so none is NULL. */
  lemma StartsAbove(m: seq<Byte>, lp: int, bs: seq<Block>)
    requires HeapShape(m, lp, bs)
    ensures forall j :: 0 <= j < |bs| ==> lp + 8 <= bs[j].start && bs[j].start != NULL
  {
    forall j | 0 <= j < |bs|
      ensures lp + 8 <= bs[j].start
    {
      TilesBounds(bs, lp + 8, |m|, j);
    }
  }

  /**
   * Two steps that each keep the allocated blocks but one keep every
   * allocated block of the first list but one, provided no block that
   * step must keep is one the steps may drop.
   */
  lemma AllocKeptVia(m0: seq<Byte>, bs0: seq<Block>, m1: seq<Byte>, bs1: seq<Block>, m2: seq<Byte>, bs2: seq<Block>, x: int, y: int, z: int)
    requires AllocKept(m0, bs0, m1, bs1, x) && AllocKept(m1, bs1, m2, bs2, y)
    requires forall j :: 0 <= j < |bs0| && bs0[j].alloc && bs0[j].start != z ==> bs0[j].start != x && bs0[j].start != y
    ensures AllocKept(m0, bs0, m2, bs2, z)
  {
    forall k | 0 <= k < |bs0| && bs0[k].alloc && bs0[k].start != z
      ensures bs0[k] in bs2 && Untouched(m0, m2, bs0[k])
    {
      var k1 :| 0 <= k1 < |bs1| && bs1[k1] == bs0[k];
    }
  }

  /** Like AllocKept, with the blocks at x and at y both exempt. */
  ghost predicate AllocKeptBut(m: seq<Byte>, bs: seq<Block>, m': seq<Byte>, bs': seq<Block>, x: int, y: int) {
    forall k :: 0 <= k < |bs| && bs[k].alloc && bs[k].start != x && bs[k].start != y ==>
      bs[k] in bs' && Untouched(m, m', bs[k])
  }

  /** A step exempting x, then a step exempting y, keep every allocated block but those two. */
  lemma AllocKeptBoth(m0: seq<Byte>, bs0: seq<Block>, m1: seq<Byte>, bs1: seq<Block>, m2: seq<Byte>, bs2: seq<Block>, x: int, y: int)
    requires AllocKept(m0, bs0, m1, bs1, x) && AllocKept(m1, bs1, m2, bs2, y)
    ensures AllocKeptBut(m0, bs0, m2, bs2, x, y)
  {
    forall k | 0 <= k < |bs0| && bs0[k].alloc && bs0[k].start != x && bs0[k].start != y
      ensures bs0[k] in bs2 && Untouched(m0, m2, bs0[k])
    {
      var k1 :| 0 <= k1 < |bs1| && bs1[k1] == bs0[k];
    }
  }

  /**
   * A step that keeps every allocated block, then one that keeps all but
   * x and y, keep all but x when no block allocated at the start sits at y.
   */
  lemma AllocKeptThen(m0: seq<Byte>, bs0: seq<Block>, m1: seq<Byte>, bs1: seq<Block>, m2: seq<Byte>, bs2: seq<Block>, x: int, y: int)
    requires AllocKept(m0, bs0, m1, bs1, NULL) && AllocKeptBut(m1, bs1, m2, bs2, x, y)
    requires forall j :: 0 <= j < |bs0| && bs0[j].alloc ==> bs0[j].start != y && bs0[j].start != NULL
    ensures AllocKept(m0, bs0, m2, bs2, x)
  {
    forall k | 0 <= k < |bs0| && bs0[k].alloc && bs0[k].start != x
      ensures bs0[k] in bs2 && Untouched(m0, m2, bs0[k])
    {
      var k1 :| 0 <= k1 < |bs1| && bs1[k1] == bs0[k];
    }
  }

  /** Every allocated block of bs' was already an allocated block of bs. */
  ghost predicate AllocFrom(bs: seq<Block>, bs': seq<Block>) {
    forall j :: 0 <= j < |bs'| && bs'[j].alloc ==> bs'[j] in bs
  }

  /** Replacing a run by free blocks allocates nothing. */
  lemma SpliceFreeFrom(bs: seq<Block>, i: nat, j: nat, ns: seq<Block>)
    requires i <= j <= |bs| && forall t :: 0 <= t < |ns| ==> !ns[t].alloc
    ensures AllocFrom(bs, Splice(bs, i, j, ns))
  {
    var r := Splice(bs, i, j, ns);
    forall t | 0 <= t < |r| && r[t].alloc
      ensures r[t] in bs
    {
      SpliceAt(bs, i, j, ns, t);
    }
  }

  /** Every allocated block of bs' that does not start at x was already an allocated block of bs. */
  ghost predicate AllocFromBut(bs: seq<Block>, bs': seq<Block>, x: int) {
    forall j :: 0 <= j < |bs'| && bs'[j].alloc && bs'[j].start != x ==> bs'[j] in bs
  }

  /** place on block k allocates no block but the one at block k's pointer. */
  lemma PlaceFrom(bs: seq<Block>, k: nat, asize: nat)
    requires k < |bs| && asize <= bs[k].size
    ensures AllocFromBut(bs, Splice(bs, k, k + 1, PlaceNew(bs[k], asize)), bs[k].start)
  {
    var ns := PlaceNew(bs[k], asize);
    var r := Splice(bs, k, k + 1, ns);
    forall t | 0 <= t < |r| && r[t].alloc && r[t].start != bs[k].start
      ensures r[t] in bs
    {
      SpliceAt(bs, k, k + 1, ns, t);
    }
  }

  /** Steps that allocate nothing, then nothing but the block at x, allocate nothing but the block at x. */
  lemma AllocFromThen(bs0: seq<Block>, bs1: seq<Block>, bs2: seq<Block>, x: int)
    requires AllocFrom(bs0, bs1) && AllocFromBut(bs1, bs2, x)
    ensures AllocFromBut(bs0, bs2, x)
  {
    forall j | 0 <= j < |bs2| && bs2[j].alloc && bs2[j].start != x
      ensures bs2[j] in bs0
    {
      var t :| 0 <= t < |bs1| && bs1[t] == bs2[j];
    }
  }

  /** Coalescing a free block appended to bs allocates nothing that bs did not. */
  lemma AppendFreeFrom(bs: seq<Block>, b: Block)
    requires !b.alloc
    ensures AllocFrom(bs, CoalesceBlocks(bs + [b], |bs|))
  {
    var e := bs + [b];
    var r := CoalesceBlocks(e, |bs|);
    SpliceFreeFrom(e, MergeLo(e, |bs|), MergeHi(e, |bs|), [Merged(e, |bs|)]);
    forall j | 0 <= j < |r| && r[j].alloc
      ensures r[j] in bs
    {
      var t :| 0 <= t < |e| && e[t] == r[j];
    }
  }

  // ---------------------------------------------------------------
  // memcpy into a payload

  /** memcpy(dst, src, n) on the heap: the n bytes at src copied to dst. */
  function MemCopy(m: seq<Byte>, dst: nat, src: nat, n: nat): (m': seq<Byte>)
    requires dst + n <= |m| && src + n <= |m|
    ensures |m'| == |m| && m'[dst .. dst + n] == m[src .. src + n]
    ensures SameOutside(m, m', dst, dst + n)
  {
    m[..dst] + m[src .. src + n] + m[dst + n ..]
  }

  /** The n bytes of m from offset a on. */
  ghost function Bytes(m: seq<Byte>, a: int, n: int): (r: seq<Byte>)
    requires 0 <= a && 0 <= n && a + n <= |m|
    ensures |r| == n && forall i :: 0 <= i < n ==> r[i] == m[a + i]
  {
    m[a .. a + n]
  }

  /** The n bytes at dst in m' are the n bytes at src in m. */
  ghost predicate Copied(m: seq<Byte>, m': seq<Byte>, dst: int, src: int, n: int) {
    0 <= dst && 0 <= src && 0 <= n && dst + n <= |m'| && src + n <= |m|
    && Bytes(m', dst, n) == Bytes(m, src, n)
  }

  /** Bytes copied into the payload of b stay there while b is untouched. */
  lemma CopiedKept(m: seq<Byte>, m1: seq<Byte>, m2: seq<Byte>, b: Block, dst: int, src: int, c: nat, n: nat)
    requires Copied(m, m1, dst, src, c) && Untouched(m1, m2, b)
    requires b.start == dst && dst + c <= End(b) - 8 && n <= c
    ensures Copied(m, m2, dst, src, n)
  {
    var x2, x := Bytes(m2, dst, n), Bytes(m, src, n);
    forall i | 0 <= i < n
      ensures x2[i] == x[i]
    {
      assert x2[i] == m2[dst + i] == m2[dst - 4 .. End(b) - 4][i + 4];
      assert m1[dst + i] == m1[dst .. dst + c][i] == m1[dst - 4 .. End(b) - 4][i + 4];
      assert x[i] == m[src + i] == m[src .. src + c][i];
    }
    assert x2 == x;
  }

  /** Bytes copied from the payload of b are b's bytes from before, when b was untouched until the copy. */
  lemma CopiedFrom(m0: seq<Byte>, m: seq<Byte>, m': seq<Byte>, b: Block, dst: int, src: int, n: nat)
    requires Untouched(m0, m, b) && Copied(m, m', dst, src, n)
    requires b.start == src && src + n <= End(b) - 8
    ensures Copied(m0, m', dst, src, n)
  {
    var x', x0 := Bytes(m', dst, n), Bytes(m0, src, n);
    forall i | 0 <= i < n
      ensures x'[i] == x0[i]
    {
      assert x'[i] == m[src .. src + n][i] == m[src + i] == m[src - 4 .. End(b) - 4][i + 4];
      assert x0[i] == m0[src + i] == m0[src - 4 .. End(b) - 4][i + 4];
    }
    assert x' == x0;
  }

  /**
   * Writing inside the payload of block j, between its header and its
   * footer, leaves the heap a heap over the same blocks and every other
   * block as it was.
   */
  lemma PayloadWrite(m: seq<Byte>, m': seq<Byte>, lp: int, bs: seq<Block>, j: nat)
    requires HeapOk(m, lp, bs) && j < |bs|
    requires SameOutside(m, m', bs[j].start, End(bs[j]) - 8)
    ensures HeapOk(m', lp, bs)
    ensures AllocKept(m, bs, m', bs, bs[j].start)
  {
    var b := bs[j];
    assert BlockWords(m, b);
    assert Tiled(bs, lp + 8, |m|);
    TilesBounds(bs, lp + 8, |m|, j);
    WordOutside(m, m', b.start, End(b) - 8, b.start - 4);
    WordOutside(m, m', b.start, End(b) - 8, End(b) - 8);
    assert SameOutside(m, m', b.start - 4, End(b) - 4);
    SpliceOne(m, m', lp, bs, j, b, b.start);
    assert Splice(bs, j, j + 1, [b]) == bs;
  }
}
