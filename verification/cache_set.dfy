/**
 * One set of the cache simulator as values: the lines of its array, each
 * with prev/next links that are positions in that array, and the list
 * order those links follow from the MRU head to the LRU tail. Relinked is
 * the pointer surgery of cacheUseBlk on these values, and the lemmas show
 * that it moves the used line to the front of the list and that in list
 * order the set behaves as CacheLru describes.
 */
module CacheSet {
  import opened CacheLru

  /** The null link. */
  const NIL := -1

  /** A cache line (cblock_t): its tag, valid and dirty bits, and its links as positions in its set's array. */
  datatype Line = Line(tag: nat, valid: bool, dirty: bool, prev: int, next: int)

  function EntryOf(l: Line): Entry {
    Entry(l.tag, l.valid, l.dirty)
  }

  /** Whether ord lists positions of L without repetition. */
  predicate Positions(L: seq<Line>, ord: seq<int>) {
    (forall k :: 0 <= k < |ord| ==> 0 <= ord[k] < |L|) &&
    (forall k, k' :: 0 <= k < k' < |ord| ==> ord[k] != ord[k'])
  }

  /** ord lists every line of the set once, and the prev/next links of L follow it. */
  predicate Linked(L: seq<Line>, ord: seq<int>) {
    |ord| == |L| > 0 && Positions(L, ord) &&
    (forall k :: 0 <= k < |ord| ==> L[ord[k]].next == if k + 1 < |ord| then ord[k + 1] else NIL) &&
    (forall k :: 0 <= k < |ord| ==> L[ord[k]].prev == if k > 0 then ord[k - 1] else NIL)
  }

  /** The lines of a set in list order. */
  function View(L: seq<Line>, ord: seq<int>): (v: seq<Entry>)
    requires Positions(L, ord)
    ensures |v| == |ord|
    ensures forall k :: 0 <= k < |ord| ==> v[k] == EntryOf(L[ord[k]])
  {
    seq(|ord|, k requires 0 <= k < |ord| => EntryOf(L[ord[k]]))
  }

  /** 0, 1, ..., n - 1 */
  function Iota(n: nat): (r: seq<int>)
    ensures |r| == n && forall k :: 0 <= k < n ==> r[k] == k
  {
    seq(n, k => k)
  }

  /** ord with its element at position p moved to the front: [ord[p]] + ord[..p] + ord[p + 1..]. */
  function MoveFront(ord: seq<int>, p: nat): (r: seq<int>)
    requires p < |ord|
    ensures |r| == |ord|
  {
    seq(|ord|, k requires 0 <= k < |ord| => if k == 0 then ord[p] else if k <= p then ord[k - 1] else ord[k])
  }

  /** A set of E fresh lines. */
  function FreshLines(E: nat): (L: seq<Line>)
    ensures |L| == E && forall m :: 0 <= m < E ==> L[m] == FreshLine(E, m)
  {
    seq(E, m => FreshLine(E, m))
  }

  /** The head and the tail of a list after a move to the front. */
  lemma MoveFrontEnds(ord: seq<int>, p: nat)
    requires p < |ord|
    ensures MoveFront(ord, p)[0] == ord[p]
    ensures MoveFront(ord, p)[|ord| - 1] == if p + 1 < |ord| || p == 0 then ord[|ord| - 1] else ord[p - 1]
  {
  }

  /** Line m of a fresh set of E lines: tag 0, invalid, linked to its neighbours in the array. */
  function FreshLine(E: nat, m: int): Line {
    Line(0, false, false, m - 1, if m == E - 1 then NIL else m + 1)
  }

  /** A fresh set is linked in array order and holds no valid line. */
  lemma FreshLinked(E: nat)
    requires E > 0
    ensures SetOk(FreshLines(E), Iota(E))
    ensures forall k :: 0 <= k < E ==> !View(FreshLines(E), Iota(E))[k].valid
  {
  }

  /** The lines of a set after the tag update of a miss: the tail line takes tag. */
  function Retagged(L: seq<Line>, ord: seq<int>, tag: nat): (L': seq<Line>)
    requires |ord| > 0 && 0 <= ord[|ord| - 1] < |L|
    ensures |L'| == |L|
  {
    var x := ord[|ord| - 1];
    L[x := L[x].(tag := tag)]
  }

  /** Changing a tag does not touch the links; in list order only the tail's tag changes. */
  lemma RetagLinked(L: seq<Line>, ord: seq<int>, tag: nat)
    requires Linked(L, ord)
    ensures Linked(Retagged(L, ord, tag), ord)
    ensures View(Retagged(L, ord, tag), ord) == View(L, ord)[|ord| - 1 := View(L, ord)[|ord| - 1].(tag := tag)]
  {
    var x := ord[|ord| - 1];
    var L' := Retagged(L, ord, tag);
    forall k | 0 <= k < |ord| ensures L'[ord[k]].next == L[ord[k]].next && L'[ord[k]].prev == L[ord[k]].prev {
    }
    var v, v' := View(L, ord), View(L', ord);
    forall k | 0 <= k < |ord| ensures v'[k] == v[|ord| - 1 := v[|ord| - 1].(tag := tag)][k] {
      if k != |ord| - 1 {
        assert ord[k] != x;
      }
    }
  }

  /**
   * The relinking of cacheUseBlk on the values of a set: when the line at
   * position p > 0 of ord is marked used, linked before the old head, and
   * unlinked from its neighbours, the set is linked in the order that has
   * that line first and the others as before, and its lines in that order
   * are those of Touch.
   */
  lemma MoveFrontLinked(L: seq<Line>, L': seq<Line>, ord: seq<int>, p: nat, dirty: bool)
    requires 0 < p < |ord| && Linked(L, ord) && |L'| == |L|
    requires forall x :: 0 <= x < |L| ==> L'[x].tag == L[x].tag
    requires forall x :: 0 <= x < |L| ==> L'[x].valid == (x == ord[p] || L[x].valid)
    requires forall x :: 0 <= x < |L| ==> L'[x].dirty == if x == ord[p] then dirty else L[x].dirty
    requires L'[ord[p]].next == ord[0] && L'[ord[p - 1]].next == L[ord[p]].next
    requires forall x :: 0 <= x < |L| && x != ord[p] && x != ord[p - 1] ==> L'[x].next == L[x].next
    requires L'[ord[p]].prev == NIL && L'[ord[0]].prev == ord[p]
    requires p + 1 < |ord| ==> L'[ord[p + 1]].prev == ord[p - 1]
    requires forall x :: 0 <= x < |L| && x != ord[p] && x != ord[0] && (p + 1 == |ord| || x != ord[p + 1]) ==> L'[x].prev == L[x].prev
    ensures Linked(L', MoveFront(ord, p))
    ensures View(L', MoveFront(ord, p)) == Touch(View(L, ord), p, dirty)
  {
    var o' := MoveFront(ord, p);
    FrontPositions(L, L', ord, o', p);
    FrontNext(L, L', ord, o', p);
    FrontPrev(L, L', ord, o', p);
    LinkedIntro(L', o');
    FrontView(L, L', ord, o', p, dirty);
  }

  /** The neighbours of the line at position p. */
  lemma LinkAt(L: seq<Line>, ord: seq<int>, p: nat)
    requires p < |ord| && Linked(L, ord)
    ensures L[ord[p]].prev == (if p > 0 then ord[p - 1] else NIL)
    ensures L[ord[p]].next == (if p + 1 < |ord| then ord[p + 1] else NIL)
  {
  }

  /** Linked, from its parts. */
  lemma LinkedIntro(L: seq<Line>, ord: seq<int>)
    requires |ord| == |L| > 0 && Positions(L, ord)
    requires forall k :: 0 <= k < |ord| ==> L[ord[k]].next == if k + 1 < |ord| then ord[k + 1] else NIL
    requires forall k :: 0 <= k < |ord| ==> L[ord[k]].prev == if k > 0 then ord[k - 1] else NIL
    ensures Linked(L, ord)
  {
  }


  /**
   * The lines of a set after cacheUseBlk on the line at position p of ord:
   * that line marked valid with the given dirty bit and, unless it is the
   * head, unlinked from its neighbours and linked in before the head.
   */
  function Relinked(L: seq<Line>, ord: seq<int>, p: nat, dirty: bool): (L': seq<Line>)
    requires |L| == |ord| && Positions(L, ord) && p < |ord|
    ensures |L'| == |L|
  {
    var blk := ord[p];
    var L1 := L[blk := L[blk].(valid := true, dirty := dirty)];
    if p == 0 then L1
    else
      var prev := ord[p - 1];
      var next := if p + 1 < |ord| then ord[p + 1] else NIL;
      var L2 := if p + 1 < |ord| then L1[next := L1[next].(prev := prev)] else L1;
      var L3 := L2[prev := L2[prev].(next := next)];
      var L4 := L3[ord[0] := L3[ord[0]].(prev := blk)];
      L4[blk := L4[blk].(next := ord[0], prev := NIL)]
  }

  /**
   * What cacheUseBlk does to a set: the set stays linked, in the order with
   * the used line first, and its lines in list order are those of Touch.
   */
  lemma RelinkedMeaning(L: seq<Line>, ord: seq<int>, p: nat, dirty: bool)
    requires Linked(L, ord) && p < |ord|
    ensures Linked(Relinked(L, ord, p, dirty), MoveFront(ord, p))
    ensures View(Relinked(L, ord, p, dirty), MoveFront(ord, p)) == Touch(View(L, ord), p, dirty)
  {
    var L' := Relinked(L, ord, p, dirty);
    if p == 0 {
      assert MoveFront(ord, 0) == ord;
      MarkHeadLinked(L, L', ord, dirty);
    } else {
      RelinkedLinks(L, ord, p, dirty);
      MoveFrontLinked(L, L', ord, p, dirty);
    }
  }

  /** The fields Relinked changes when the line moves from position p > 0 to the front. */
  lemma RelinkedLinks(L: seq<Line>, ord: seq<int>, p: nat, dirty: bool)
    requires 0 < p < |ord| && Linked(L, ord)
    ensures var L' := Relinked(L, ord, p, dirty);
      && |L'| == |L|
      && (forall x :: 0 <= x < |L| ==> L'[x].tag == L[x].tag)
      && (forall x :: 0 <= x < |L| ==> L'[x].valid == (x == ord[p] || L[x].valid))
      && (forall x :: 0 <= x < |L| ==> L'[x].dirty == if x == ord[p] then dirty else L[x].dirty)
      && L'[ord[p]].next == ord[0] && L'[ord[p - 1]].next == L[ord[p]].next
      && (forall x :: 0 <= x < |L| && x != ord[p] && x != ord[p - 1] ==> L'[x].next == L[x].next)
      && L'[ord[p]].prev == NIL && L'[ord[0]].prev == ord[p]
      && (p + 1 < |ord| ==> L'[ord[p + 1]].prev == ord[p - 1])
      && (forall x :: 0 <= x < |L| && x != ord[p] && x != ord[0] && (p + 1 == |ord| || x != ord[p + 1]) ==> L'[x].prev == L[x].prev)
  {
    var blk, prev := ord[p], ord[p - 1];
    assert blk != prev && blk != ord[0];
    assert p + 1 < |ord| ==> ord[p + 1] != blk && ord[p + 1] != prev && ord[p + 1] != ord[0];
    var next := if p + 1 < |ord| then ord[p + 1] else NIL;
    var L1 := L[blk := L[blk].(valid := true, dirty := dirty)];
    var L2 := if p + 1 < |ord| then L1[next := L1[next].(prev := prev)] else L1;
    var L3 := L2[prev := L2[prev].(next := next)];
    var L4 := L3[ord[0] := L3[ord[0]].(prev := blk)];
    assert Relinked(L, ord, p, dirty) == L4[blk := L4[blk].(next := ord[0], prev := NIL)];
  }

  /** The first half of cacheUseBlk, which is all of it when the line is already the head. */
  lemma MarkHeadLinked(L: seq<Line>, L': seq<Line>, ord: seq<int>, dirty: bool)
    requires |ord| > 0 && Linked(L, ord)
    requires L' == L[ord[0] := L[ord[0]].(valid := true, dirty := dirty)]
    ensures Linked(L', ord)
    ensures View(L', ord) == Touch(View(L, ord), 0, dirty)
  {
    forall k | 0 <= k < |ord| ensures L'[ord[k]].next == L[ord[k]].next && L'[ord[k]].prev == L[ord[k]].prev {
    }
    LinkedIntro(L', ord);
    var v, v', r := View(L, ord), View(L', ord), Touch(View(L, ord), 0, dirty);
    TouchAt(v, 0, dirty);
    forall k | 0 <= k < |v'| ensures v'[k] == r[k] {
      if k > 0 {
        assert ord[k] != ord[0];
      }
    }
  }

  lemma FrontPositions(L: seq<Line>, L': seq<Line>, ord: seq<int>, o': seq<int>, p: nat)
    requires p < |ord| && Positions(L, ord) && |L'| == |L| && |o'| == |ord|
    requires forall k {:trigger o'[k]} :: 0 <= k < |o'| ==> o'[k] == if k == 0 then ord[p] else if k <= p then ord[k - 1] else ord[k]
    ensures Positions(L', o')
  {
    forall k, k' | 0 <= k < k' < |o'| ensures o'[k] != o'[k'] {
      var j := if k == 0 then p else if k <= p then k - 1 else k;
      var j' := if k' <= p then k' - 1 else k';
      assert o'[k] == ord[j] && o'[k'] == ord[j'] && j != j';
    }
  }

  lemma FrontNext(L: seq<Line>, L': seq<Line>, ord: seq<int>, o': seq<int>, p: nat)
    requires 0 < p < |ord| && Linked(L, ord) && |L'| == |L| && |o'| == |ord|
    requires forall k {:trigger o'[k]} :: 0 <= k < |o'| ==> o'[k] == if k == 0 then ord[p] else if k <= p then ord[k - 1] else ord[k]
    requires L'[ord[p]].next == ord[0] && L'[ord[p - 1]].next == L[ord[p]].next
    requires forall x :: 0 <= x < |L| && x != ord[p] && x != ord[p - 1] ==> L'[x].next == L[x].next
    ensures forall k :: 0 <= k < |o'| ==> L'[o'[k]].next == if k + 1 < |o'| then o'[k + 1] else NIL
  {
    forall k | 0 <= k < |o'| ensures L'[o'[k]].next == if k + 1 < |o'| then o'[k + 1] else NIL {
      if k == 0 {
        assert o'[0] == ord[p] && o'[1] == ord[0];
      } else if k < p {
        var x := ord[k - 1];
        assert o'[k] == x && o'[k + 1] == ord[k];
        assert x != ord[p] && x != ord[p - 1];
        assert L'[x].next == L[x].next == ord[k];
      } else if k == p {
        assert o'[k] == ord[p - 1];
        assert L[ord[p]].next == if p + 1 < |ord| then ord[p + 1] else NIL;
        assert k + 1 < |o'| ==> o'[k + 1] == ord[p + 1];
      } else {
        var x := ord[k];
        assert o'[k] == x;
        assert x != ord[p] && x != ord[p - 1];
        assert L'[x].next == L[x].next == if k + 1 < |ord| then ord[k + 1] else NIL;
        assert k + 1 < |o'| ==> o'[k + 1] == ord[k + 1];
      }
    }
  }

  lemma FrontPrev(L: seq<Line>, L': seq<Line>, ord: seq<int>, o': seq<int>, p: nat)
    requires 0 < p < |ord| && Linked(L, ord) && |L'| == |L| && |o'| == |ord|
    requires forall k {:trigger o'[k]} :: 0 <= k < |o'| ==> o'[k] == if k == 0 then ord[p] else if k <= p then ord[k - 1] else ord[k]
    requires L'[ord[p]].prev == NIL && L'[ord[0]].prev == ord[p]
    requires p + 1 < |ord| ==> L'[ord[p + 1]].prev == ord[p - 1]
    requires forall x :: 0 <= x < |L| && x != ord[p] && x != ord[0] && (p + 1 == |ord| || x != ord[p + 1]) ==> L'[x].prev == L[x].prev
    ensures forall k :: 0 <= k < |o'| ==> L'[o'[k]].prev == if k > 0 then o'[k - 1] else NIL
  {
    forall k | 0 <= k < |o'| ensures L'[o'[k]].prev == if k > 0 then o'[k - 1] else NIL {
      if k == 0 {
        assert o'[0] == ord[p];
      } else if k == 1 {
        assert o'[1] == ord[0] && o'[0] == ord[p];
      } else if k <= p {
        var x := ord[k - 1];
        assert o'[k] == x && o'[k - 1] == ord[k - 2];
        assert x != ord[p] && x != ord[0];
        assert p + 1 < |ord| ==> x != ord[p + 1];
        assert L'[x].prev == L[x].prev == ord[k - 2];
      } else if k == p + 1 {
        assert o'[k] == ord[p + 1] && o'[k - 1] == ord[p - 1];
      } else {
        var x := ord[k];
        assert o'[k] == x && o'[k - 1] == ord[k - 1];
        assert x != ord[p] && x != ord[0] && x != ord[p + 1];
        assert L'[x].prev == L[x].prev == ord[k - 1];
      }
    }
  }

  lemma FrontView(L: seq<Line>, L': seq<Line>, ord: seq<int>, o': seq<int>, p: nat, dirty: bool)
    requires p < |ord| && Positions(L, ord) && Positions(L', o') && |L'| == |L| && |o'| == |ord|
    requires forall k {:trigger o'[k]} :: 0 <= k < |o'| ==> o'[k] == if k == 0 then ord[p] else if k <= p then ord[k - 1] else ord[k]
    requires forall x :: 0 <= x < |L| ==> L'[x].tag == L[x].tag
    requires forall x :: 0 <= x < |L| ==> L'[x].valid == (x == ord[p] || L[x].valid)
    requires forall x :: 0 <= x < |L| ==> L'[x].dirty == if x == ord[p] then dirty else L[x].dirty
    ensures View(L', o') == Touch(View(L, ord), p, dirty)
  {
    var v, v', r := View(L, ord), View(L', o'), Touch(View(L, ord), p, dirty);
    TouchAt(v, p, dirty);
    forall k | 0 <= k < |v'| ensures v'[k] == r[k] {
      if k == 0 {
      } else if k <= p {
        assert o'[k] == ord[k - 1];
      } else {
        assert o'[k] == ord[k];
      }
    }
  }

  /** A set in a good state: linked, its valid lines first and their tags distinct. */
  ghost predicate SetOk(L: seq<Line>, ord: seq<int>) {
    Linked(L, ord) && ValidPrefix(View(L, ord)) && UniqueTags(View(L, ord))
  }

  /** The list order of a set after an access to tag: the chosen line moves to the front. */
  function AccessOrder(L: seq<Line>, ord: seq<int>, tag: nat): (o': seq<int>)
    requires Linked(L, ord)
    ensures |o'| == |ord|
  {
    MoveFront(ord, Chosen(View(L, ord), tag))
  }

  /**
   * The lines of a set after an access to tag (cacheLoad, cacheStore): on a
   * hit the matching line is used; on a miss the tail line is retagged and
   * used.
   */
  function AccessLines(L: seq<Line>, ord: seq<int>, tag: nat, dirty: bool): (L': seq<Line>)
    requires Linked(L, ord)
    ensures |L'| == |L|
  {
    var k := Lookup(View(L, ord), tag);
    if k >= 0 then Relinked(L, ord, k, dirty)
    else Relinked(Retagged(L, ord, tag), ord, |ord| - 1, dirty)
  }

  /**
   * An access keeps the set in a good state, and in list order the set is
   * exactly what AccessView describes.
   */
  lemma AccessSetMeaning(L: seq<Line>, ord: seq<int>, tag: nat, dirty: bool)
    requires SetOk(L, ord)
    ensures SetOk(AccessLines(L, ord, tag, dirty), AccessOrder(L, ord, tag))
    ensures View(AccessLines(L, ord, tag, dirty), AccessOrder(L, ord, tag)) == AccessView(View(L, ord), tag, dirty)
  {
    var v := View(L, ord);
    var k := Lookup(v, tag);
    if k >= 0 {
      RelinkedMeaning(L, ord, k, dirty);
    } else {
      RetagLinked(L, ord, tag);
      RelinkedMeaning(Retagged(L, ord, tag), ord, |ord| - 1, dirty);
    }
    AccessKeepsInvariant(v, tag, dirty);
  }
}
