/**
 * The cache simulator (cache_t): S = 2^s sets of E lines each, every set an
 * array of lines linked into a doubly linked list from its MRU head to its
 * LRU tail, and hit, miss and eviction counters. The ghost fields mirror
 * each set's array (`lines`) and list order (`order`, positions in the
 * array from head to tail); CacheSet gives their meaning.
 */
module CacheLab {
  import opened Bits
  import opened CacheBits
  import opened CacheLru
  import opened CacheSet

  class Cache {
    const E: nat
    const S: nat
    const B: nat
    const t: nat
    const s: nat
    const b: nat
    const bmask: nat
    const tmask: nat
    const smask: nat
    var hits: int
    var misses: int
    var evictions: int
    const blks: array<array<Line>>
    const heads: array<int>
    const tails: array<int>
    /** The contents of each set's array. */
    ghost var lines: seq<seq<Line>>
    /** Each set's list, from head to tail, as positions in its array. */
    ghost var order: seq<seq<int>>

    /** The parameters and masks fixed when the cache is created. */
    predicate Params() {
      E > 0 && s + b <= MAX_ADDR_BITS && S == Pow2(s) && B == Pow2(b) && t == MAX_ADDR_BITS - (s + b) &&
      bmask == BMask(b) && tmask == TMask(s, b, MAX_ADDR_BITS) && smask == SMask(s, b, MAX_ADDR_BITS)
    }

    /**
     * The sets are distinct arrays of E lines mirrored by `lines`; heads[i]
     * and tails[i] are the first and last positions of order[i].
     */
    ghost predicate Shape()
      reads this, blks, heads, tails, set i | 0 <= i < blks.Length :: blks[i]
    {
      E > 0 && blks.Length == S && heads.Length == S && tails.Length == S && |lines| == S && |order| == S && heads != tails &&
      (forall i, j :: 0 <= i < j < S ==> blks[i] != blks[j]) &&
      (forall i :: 0 <= i < S ==> blks[i][..] == lines[i]) &&
      (forall i :: 0 <= i < S ==> |lines[i]| == E && |order[i]| == E && heads[i] == order[i][0] && tails[i] == order[i][E - 1])
    }

    /** The lines of set i, MRU first. */
    ghost function SetView(i: nat): (v: seq<Entry>)
      reads this
      requires i < |lines| && i < |order| && Linked(lines[i], order[i])
      ensures |v| == |order[i]|
    {
      View(lines[i], order[i])
    }

    /**
     * The class invariant: every set is linked in the order of `order`, its
     * valid lines come first and carry distinct tags.
     */
    ghost predicate Valid()
      reads this, blks, heads, tails, set i | 0 <= i < blks.Length :: blks[i]
    {
      Params() && Shape() && forall i :: 0 <= i < S ==> SetOk(lines[i], order[i])
    }

    /**
     * initCache: E lines per set, 2^s sets, 2^b-byte blocks. Every set is a
     * list of invalid lines (FreshLines) from line 0 (head) to line E - 1
     * (tail), and the counters start at 0.
     */
    constructor (E0: nat, s0: nat, b0: nat)
      requires E0 > 0 && s0 > 0 && b0 > 0 && s0 + b0 <= MAX_ADDR_BITS
      ensures Valid()
      ensures E == E0 && s == s0 && b == b0
      ensures hits == 0 && misses == 0 && evictions == 0
      ensures forall i :: 0 <= i < S ==> lines[i] == FreshLines(E) && order[i] == Iota(E)
    {
      var sb := s0 + b0;
      var S0 := Pow2(s0);
      E := E0;
      s := s0;
      b := b0;
      S := S0;
      B := Pow2(b0);
      t := MAX_ADDR_BITS - sb;
      // amask, bmask, tmask and smask as initCache computes them
      bmask := BMask(b0);
      tmask := TMask(s0, b0, MAX_ADDR_BITS);
      smask := SMask(s0, b0, MAX_ADDR_BITS);
      hits, misses, evictions := 0, 0, 0;

      var bs := new array<Line>[S0];
      var hs := new int[S0];
      var ts := new int[S0];
      NewSets(E0, S0, bs, hs, ts);
      blks := bs;
      heads := hs;
      tails := ts;
      lines := seq(S0, k => FreshLines(E0));
      order := seq(S0, k => Iota(E0));
      new;
      FreshLinked(E0);
      forall i | 0 <= i < S
        ensures blks[i][..] == lines[i] && SetOk(lines[i], order[i])
      {
        assert lines[i] == FreshLines(E0) && order[i] == Iota(E0);
      }
      assert Params();
      assert Shape();
    }

    /** cacheDecodeAddr: the tag, set and offset of addr under this cache's masks. */
    function DecodeAddr(addr: nat): (id: AddrId)
      requires Params()
      ensures id == Decode(s, b, MAX_ADDR_BITS, addr)
      ensures id.tbits < Pow2(t) && id.sbits < S && id.bbits < B
    {
      AddrId(Shr(And(addr, tmask), s + b), Shr(And(addr, smask), b), And(addr, bmask))
    }

    /**
     * cacheFindBlk: walks set si from MRU to LRU and returns the first
     * valid line whose tag matches, or NIL at the first invalid line or at
     * the end of the list.
     */
    method FindBlk(si: nat, tag: nat) returns (blk: int)
      requires Shape() && si < S && Linked(lines[si], order[si])
      ensures var k := Lookup(SetView(si), tag); blk == if k >= 0 then order[si][k] else NIL
    {
      ghost var v := SetView(si);
      ghost var ord := order[si];
      ghost var L0 := lines[si];
      var L := blks[si];
      blk := heads[si];
      ghost var k := 0;
      while blk != NIL
        invariant 0 <= k <= E && blk == (if k < E then ord[k] else NIL)
        invariant LookupFrom(v, tag, k) == Lookup(v, tag)
        decreases E - k
      {
        assert v[k] == EntryOf(L0[blk]) && L0[blk] == L[blk];
        if !L[blk].valid {
          return NIL;
        }
        if tag == L[blk].tag {
          return blk;
        }
        LinkAt(L0, ord, k);
        blk := L[blk].next;
        k := k + 1;
      }
    }

    /** cacheGetLRU: the tail of set si, its least recently used line. */
    function GetLRU(si: nat): (blk: int)
      reads this, blks, heads, tails, set i | 0 <= i < blks.Length :: blks[i]
      requires Shape() && si < S
      ensures blk == order[si][E - 1]
    {
      tails[si]
    }

    /** cacheGetMRU: the head of set si, its most recently used line. */
    function GetMRU(si: nat): (blk: int)
      reads this, blks, heads, tails, set i | 0 <= i < blks.Length :: blks[i]
      requires Shape() && si < S
      ensures blk == order[si][0]
    {
      heads[si]
    }

    /**
     * cacheUseBlk: marks line blk, at position p of its set's list, valid
     * with the given dirty bit and moves it to the head; the other lines keep
     * their relative order. When blk is already the head the links are not
     * touched.
     */
    method UseBlk(si: nat, blk: int, dirty: bool, ghost p: nat)
      requires Shape() && si < S && Linked(lines[si], order[si]) && p < E && order[si][p] == blk
      modifies blks[si], heads, tails, this`lines, this`order
      ensures Shape()
      ensures order == old(order)[si := MoveFront(old(order[si]), p)]
      ensures lines == old(lines)[si := Relinked(old(lines[si]), old(order[si]), p, dirty)]
    {
      ghost var ord := order[si];
      ghost var o' := MoveFront(ord, p);
      MoveFrontEnds(ord, p);
      var prev_blk, next_blk := RelinkFront(blks[si], blk, dirty, heads[si], ord, p);
      ghost var L1 := blks[si][..];
      if prev_blk != NIL {
        if next_blk == NIL {
          tails[si] := prev_blk;
        }
        heads[si] := blk;
      }
      order := order[si := o'];
      lines := lines[si := L1];
      forall i | 0 <= i < S && i != si
        ensures blks[i][..] == lines[i]
      {
        assert blks[i] != blks[si];
      }
    }

    /**
     * The common part of cacheLoad and cacheStore on set si and tag: a hit
     * counts a hit; a miss counts a miss, re-tags the LRU line and counts an
     * eviction if that line was valid. The line used moves to the head.
     */
    method Access(si: nat, tag: nat, dirty: bool) returns (status: int)
      requires Valid() && si < S
      modifies this, blks[si], heads, tails
      ensures Valid()
      ensures status == AccessStatus(old(SetView(si)), tag)
      ensures order == old(order)[si := AccessOrder(old(lines[si]), old(order[si]), tag)]
      ensures lines == old(lines)[si := AccessLines(old(lines[si]), old(order[si]), tag, dirty)]
      ensures hits == old(hits) + (if status == CACHEBLK_HIT then 1 else 0)
      ensures misses == old(misses) + (if status == CACHEBLK_HIT then 0 else 1)
      ensures evictions == old(evictions) + (if status == CACHEBLK_MISS_EVICT then 1 else 0)
    {
      ghost var L0, ord := lines[si], order[si];
      AccessSetMeaning(L0, ord, tag, dirty);
      status := AccessLinked(si, tag, dirty);
      forall i | 0 <= i < S
        ensures SetOk(lines[i], order[i])
      {
        if i != si {
          assert lines[i] == old(lines[i]) && order[i] == old(order[i]);
        }
      }
    }

    /**
     * The body of Access, for a set whose links follow its list order: the
     * new lines and list order of the set are AccessLines and AccessOrder,
     * the status is that of the access on the set's lines in list order.
     */
    method AccessLinked(si: nat, tag: nat, dirty: bool) returns (status: int)
      requires Shape() && si < S && Linked(lines[si], order[si])
      modifies this, blks[si], heads, tails
      ensures Shape()
      ensures status == AccessStatus(old(View(lines[si], order[si])), tag)
      ensures order == old(order)[si := AccessOrder(old(lines[si]), old(order[si]), tag)]
      ensures lines == old(lines)[si := AccessLines(old(lines[si]), old(order[si]), tag, dirty)]
      ensures hits == old(hits) + (if status == CACHEBLK_HIT then 1 else 0)
      ensures misses == old(misses) + (if status == CACHEBLK_HIT then 0 else 1)
      ensures evictions == old(evictions) + (if status == CACHEBLK_MISS_EVICT then 1 else 0)
    {
      ghost var L0, ord := lines[si], order[si];
      ghost var v := View(L0, ord);
      ghost var k := Lookup(v, tag);
      ghost var target := AccessLines(L0, ord, tag, dirty);
      var blk := FindBlk(si, tag);
      ghost var p: nat;
      if blk != NIL {
        status := CACHEBLK_HIT;
        hits := hits + 1;
        p := k;
        assert Relinked(lines[si], ord, p, dirty) == target;
      } else {
        blk, status := Miss(si, tag);
        p := E - 1;
        assert Relinked(lines[si], ord, p, dirty) == target;
      }
      ghost var h, m, e := hits, misses, evictions;
      ghost var Ls := lines;
      UseBlk(si, blk, dirty, p);
      assert hits == h && misses == m && evictions == e;
      ReplacedAgain(old(lines), Ls, si, target);
    }

    /**
     * The miss path of cacheLoad and cacheStore: the LRU line of set si is
     * taken, an eviction is counted if it was valid, it takes the new tag,
     * and a miss is counted.
     */
    method Miss(si: nat, tag: nat) returns (blk: int, status: int)
      requires Shape() && si < S && Linked(lines[si], order[si])
      modifies this, blks[si]
      ensures Shape() && order == old(order) && blk == order[si][E - 1]
      ensures lines == old(lines)[si := Retagged(old(lines[si]), order[si], tag)]
      ensures Linked(lines[si], order[si])
      ensures status == if old(View(lines[si], order[si]))[E - 1].valid then CACHEBLK_MISS_EVICT else CACHEBLK_MISS_FREE
      ensures hits == old(hits) && misses == old(misses) + 1
      ensures evictions == old(evictions) + (if status == CACHEBLK_MISS_EVICT then 1 else 0)
    {
      ghost var L0, ord := lines[si], order[si];
      blk := GetLRU(si);
      status := CACHEBLK_MISS_FREE;
      assert View(L0, ord)[E - 1] == EntryOf(L0[blk]) && blks[si][blk] == L0[blk];
      if blks[si][blk].valid {
        status := CACHEBLK_MISS_EVICT;
        evictions := evictions + 1;
      }
      blks[si][blk] := blks[si][blk].(tag := tag);
      assert blks[si][..] == Retagged(L0, ord, tag);
      misses := misses + 1;
      lines := lines[si := Retagged(L0, ord, tag)];
      RetagLinked(L0, ord, tag);
      forall i | 0 <= i < S && i != si
        ensures blks[i][..] == lines[i]
      {
        assert blks[i] != blks[si];
      }
    }

    /** cacheLoad: an access that leaves the line clean. */
    method Load(id: AddrId) returns (status: int)
      requires Valid() && id.sbits < S
      modifies this, blks[id.sbits], heads, tails
      ensures Valid()
      ensures status == AccessStatus(old(SetView(id.sbits)), id.tbits)
      ensures SetView(id.sbits) == AccessView(old(SetView(id.sbits)), id.tbits, false)
      ensures forall i :: 0 <= i < S && i != id.sbits ==> SetView(i) == old(SetView(i))
      ensures hits == old(hits) + (if status == CACHEBLK_HIT then 1 else 0)
      ensures misses == old(misses) + (if status == CACHEBLK_HIT then 0 else 1)
      ensures evictions == old(evictions) + (if status == CACHEBLK_MISS_EVICT then 1 else 0)
    {
      ghost var L0, ord := lines[id.sbits], order[id.sbits];
      status := Access(id.sbits, id.tbits, false);
      AccessSetMeaning(L0, ord, id.tbits, false);
    }

    /** cacheStore: an access that marks the line dirty. */
    method Store(id: AddrId) returns (status: int)
      requires Valid() && id.sbits < S
      modifies this, blks[id.sbits], heads, tails
      ensures Valid()
      ensures status == AccessStatus(old(SetView(id.sbits)), id.tbits)
      ensures SetView(id.sbits) == AccessView(old(SetView(id.sbits)), id.tbits, true)
      ensures forall i :: 0 <= i < S && i != id.sbits ==> SetView(i) == old(SetView(i))
      ensures hits == old(hits) + (if status == CACHEBLK_HIT then 1 else 0)
      ensures misses == old(misses) + (if status == CACHEBLK_HIT then 0 else 1)
      ensures evictions == old(evictions) + (if status == CACHEBLK_MISS_EVICT then 1 else 0)
    {
      ghost var L0, ord := lines[id.sbits], order[id.sbits];
      status := Access(id.sbits, id.tbits, true);
      AccessSetMeaning(L0, ord, id.tbits, true);
    }

    /** cacheModify: a load followed by a store of the same address; the store always hits. */
    method Modify(id: AddrId) returns (status0: int, status1: int)
      requires Valid() && id.sbits < S
      modifies this, blks[id.sbits], heads, tails
      ensures Valid()
      ensures status0 == AccessStatus(old(SetView(id.sbits)), id.tbits)
      ensures status1 == CACHEBLK_HIT
      ensures SetView(id.sbits) == AccessView(AccessView(old(SetView(id.sbits)), id.tbits, false), id.tbits, true)
      ensures forall i :: 0 <= i < S && i != id.sbits ==> SetView(i) == old(SetView(i))
      ensures hits == old(hits) + (if status0 == CACHEBLK_HIT then 2 else 1)
      ensures misses == old(misses) + (if status0 == CACHEBLK_HIT then 0 else 1)
      ensures evictions == old(evictions) + (if status0 == CACHEBLK_MISS_EVICT then 1 else 0)
    {
      ghost var v := SetView(id.sbits);
      status0 := Load(id);
      status1 := Store(id);
      AccessAgainHits(v, id.tbits, false);
    }
  }

  /**
   * The allocation loop of initCache: S sets of E fresh lines each, in
   * distinct new arrays, with head 0 and tail E - 1.
   */
  method NewSets(E: nat, S: nat, bs: array<array<Line>>, hs: array<int>, ts: array<int>)
    requires E > 0 && bs.Length == S && hs.Length == S && ts.Length == S && hs != ts
    modifies bs, hs, ts
    ensures forall k, k' :: 0 <= k < k' < S ==> bs[k] != bs[k']
    ensures forall k :: 0 <= k < S ==> fresh(bs[k]) && bs[k][..] == FreshLines(E)
    ensures forall k :: 0 <= k < S ==> hs[k] == 0 && ts[k] == E - 1
  {
    var i := 0;
    while i < S
      invariant i <= S
      invariant forall k, k' :: 0 <= k < k' < i ==> bs[k] != bs[k']
      invariant forall k :: 0 <= k < i ==> fresh(bs[k]) && bs[k][..] == FreshLines(E)
      invariant forall k :: 0 <= k < i ==> hs[k] == 0 && ts[k] == E - 1
    {
      var cset := NewSet(E);
      bs[i] := cset;
      hs[i] := 0;
      ts[i] := E - 1;
      i := i + 1;
    }
  }

  /** The inner loop of initCache: one set of E fresh lines. */
  method NewSet(E: nat) returns (cset: array<Line>)
    requires E > 0
    ensures fresh(cset) && cset[..] == FreshLines(E)
  {
    cset := new Line[E];
    var j := 0;
    while j < E
      invariant j <= E
      invariant forall m :: 0 <= m < j ==> cset[m] == Line(0, false, false, m - 1, m + 1)
    {
      cset[j] := Line(0, false, false, j - 1, j + 1);
      j := j + 1;
    }
    cset[0] := cset[0].(prev := NIL);
    cset[E - 1] := cset[E - 1].(next := NIL);
    assert cset[..] == FreshLines(E);
  }

  /**
   * The pointer surgery of cacheUseBlk on one set: line blk, at position p
   * of the list ord that starts at head, is marked valid with the given
   * dirty bit; unless it is the head it is unlinked from its neighbours
   * and linked in before the head. Returns the neighbours it had.
   */
  method RelinkFront(L: array<Line>, blk: int, dirty: bool, head: int, ghost ord: seq<int>, ghost p: nat)
      returns (prev_blk: int, next_blk: int)
    requires p < |ord| && Linked(L[..], ord) && ord[p] == blk && head == ord[0]
    modifies L
    ensures prev_blk == (if p > 0 then ord[p - 1] else NIL) && next_blk == (if p + 1 < |ord| then ord[p + 1] else NIL)
    ensures (prev_blk == NIL) == (p == 0) && (next_blk == NIL) == (p + 1 == |ord|)
    ensures L[..] == Relinked(old(L[..]), ord, p, dirty)
  {
    prev_blk := L[blk].prev;
    next_blk := L[blk].next;
    LinkAt(L[..], ord, p);

    L[blk] := L[blk].(valid := true, dirty := dirty);

    if prev_blk == NIL {
      return;
    }

    if next_blk != NIL {
      L[next_blk] := L[next_blk].(prev := prev_blk);
    }

    L[prev_blk] := L[prev_blk].(next := next_blk);
    L[head] := L[head].(prev := blk);
    L[blk] := L[blk].(next := head, prev := NIL);
  }

  /** Setting entry i of s1, which is s0 or s0 with entry i replaced, is setting entry i of s0. */
  lemma ReplacedAgain<T>(s0: seq<T>, s1: seq<T>, i: nat, x: T)
    requires i < |s0| == |s1| && (s1 == s0 || s1 == s0[i := s1[i]])
    ensures s1[i := x] == s0[i := x]
  {
    if s1 != s0 {
      assert s1[i := x] == s0[i := s1[i]][i := x];
    }
  }
}
