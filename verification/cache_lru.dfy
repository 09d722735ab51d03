/**
 * The replacement policy of one cache set, on values: the set's lines in
 * MRU-to-LRU order, and what a load or store of a tag does to them. The
 * linked lists of the simulator are proved to follow this order.
 */
module CacheLru {

  /** Status codes of an access. */
  const CACHEBLK_NIL := -1
  const CACHEBLK_HIT := 0
  const CACHEBLK_MISS_EVICT := 1
  const CACHEBLK_MISS_FREE := 2

  /** What a cache line holds, apart from its links. */
  datatype Entry = Entry(tag: nat, valid: bool, dirty: bool)

  /** Every valid line comes before every invalid one. */
  predicate ValidPrefix(v: seq<Entry>) {
    forall k, k' :: 0 <= k < k' < |v| && v[k'].valid ==> v[k].valid
  }

  /** No two valid lines carry the same tag. */
  predicate UniqueTags(v: seq<Entry>) {
    forall k, k' :: 0 <= k < k' < |v| && v[k].valid && v[k].tag == v[k'].tag ==> !v[k'].valid
  }

  /** Whether a valid line carries tag. */
  predicate Holds(v: seq<Entry>, tag: nat) {
    exists k :: 0 <= k < |v| && v[k].valid && v[k].tag == tag
  }

  /** The tags of the valid lines. */
  function Tags(v: seq<Entry>): set<nat> {
    set k | 0 <= k < |v| && v[k].valid :: v[k].tag
  }

  /**
   * The search from position k on: the first valid line with tag, or -1 at
   * the first invalid line or at the end.
   */
  function LookupFrom(v: seq<Entry>, tag: nat, k: nat): (r: int)
    requires k <= |v|
    ensures r == -1 || (k <= r < |v| && v[r].valid && v[r].tag == tag)
    decreases |v| - k
  {
    if k == |v| || !v[k].valid then -1
    else if v[k].tag == tag then k
    else LookupFrom(v, tag, k + 1)
  }

  /** cacheFindBlk on the list read in order: the first valid line with tag, or -1. */
  function Lookup(v: seq<Entry>, tag: nat): (r: int)
    ensures r == -1 || (0 <= r < |v| && v[r].valid && v[r].tag == tag)
  {
    LookupFrom(v, tag, 0)
  }

  /** With valid lines first, a search from k misses exactly when no valid line from k on has the tag. */
  lemma {:induction false} LookupFromMiss(v: seq<Entry>, tag: nat, k: nat)
    requires k <= |v| && ValidPrefix(v)
    ensures LookupFrom(v, tag, k) == -1 <==> !exists j :: k <= j < |v| && v[j].valid && v[j].tag == tag
    decreases |v| - k
  {
    if k < |v| && v[k].valid && v[k].tag != tag {
      LookupFromMiss(v, tag, k + 1);
      if exists j :: k <= j < |v| && v[j].valid && v[j].tag == tag {
        var j :| k <= j < |v| && v[j].valid && v[j].tag == tag;
        assert k + 1 <= j;
      }
    }
  }

  /** A search finds the tag exactly when some valid line holds it. */
  lemma LookupHit(v: seq<Entry>, tag: nat)
    requires ValidPrefix(v)
    ensures Lookup(v, tag) >= 0 <==> Holds(v, tag)
    ensures Lookup(v, tag) >= 0 ==> v[Lookup(v, tag)].valid && v[Lookup(v, tag)].tag == tag
  {
    LookupFromMiss(v, tag, 0);
  }

  /** Line k moved to the MRU position, marked valid, with the given dirty bit. */
  function Touch(v: seq<Entry>, k: nat, dirty: bool): (r: seq<Entry>)
    requires k < |v|
    ensures |r| == |v|
  {
    seq(|v|, j requires 0 <= j < |v| => if j == 0 then v[k].(valid := true, dirty := dirty) else if j <= k then v[j - 1] else v[j])
  }

  /** The status of a load or store of tag: a hit, a miss into a free line, or a miss that evicts. */
  function AccessStatus(v: seq<Entry>, tag: nat): int
    requires |v| > 0
  {
    if Lookup(v, tag) >= 0 then CACHEBLK_HIT
    else if v[|v| - 1].valid then CACHEBLK_MISS_EVICT
    else CACHEBLK_MISS_FREE
  }

  /**
   * The lines after a load or store of tag: on a hit the matching line, on a
   * miss the LRU line re-tagged, moves to the MRU position.
   */
  function AccessView(v: seq<Entry>, tag: nat, dirty: bool): (r: seq<Entry>)
    requires |v| > 0
    ensures |r| == |v|
  {
    var k := Lookup(v, tag);
    if k >= 0 then Touch(v, k, dirty)
    else Touch(v[|v| - 1 := v[|v| - 1].(tag := tag)], |v| - 1, dirty)
  }

  /** Where each line of the set ends up when line k moves to the front. */
  lemma TouchAt(v: seq<Entry>, k: nat, dirty: bool)
    requires k < |v|
    ensures Touch(v, k, dirty)[0] == v[k].(valid := true, dirty := dirty)
    ensures forall j :: 1 <= j < |v| ==> Touch(v, k, dirty)[j] == if j <= k then v[j - 1] else v[j]
  {
  }

  /** After an access the set has as many lines as before and the accessed tag sits, valid, at the MRU position. */
  lemma AccessFront(v: seq<Entry>, tag: nat, dirty: bool)
    requires |v| > 0
    ensures |AccessView(v, tag, dirty)| == |v|
    ensures AccessView(v, tag, dirty)[0] == Entry(tag, true, dirty)
  {
    var k := Lookup(v, tag);
    if k >= 0 {
      TouchAt(v, k, dirty);
    } else {
      TouchAt(v[|v| - 1 := v[|v| - 1].(tag := tag)], |v| - 1, dirty);
    }
  }

  /** The position of the line an access moves to the front: the matching line on a hit, the LRU line on a miss. */
  function Chosen(v: seq<Entry>, tag: nat): (d: nat)
    requires |v| > 0
    ensures d < |v|
  {
    if Lookup(v, tag) >= 0 then Lookup(v, tag) else |v| - 1
  }

  /**
   * The other lines keep their relative order: the lines before the chosen
   * one move down one place and those after it stay where they were.
   */
  lemma AccessKeepsOrder(v: seq<Entry>, tag: nat, dirty: bool)
    requires |v| > 0
    ensures var d := Chosen(v, tag); var r := AccessView(v, tag, dirty);
      forall j {:trigger r[j]} :: 1 <= j < |r| ==> r[j] == if j <= d then v[j - 1] else v[j]
  {
    var k := Lookup(v, tag);
    if k >= 0 {
      TouchAt(v, k, dirty);
    } else {
      TouchAt(v[|v| - 1 := v[|v| - 1].(tag := tag)], |v| - 1, dirty);
    }
  }

  /**
   * On a set whose valid lines come first: an access hits exactly when a
   * valid line holds the tag, evicts exactly when it misses and every line
   * is valid, and otherwise fills a free line.
   */
  lemma AccessStatusMeaning(v: seq<Entry>, tag: nat)
    requires |v| > 0 && ValidPrefix(v)
    ensures AccessStatus(v, tag) == CACHEBLK_HIT <==> Holds(v, tag)
    ensures AccessStatus(v, tag) == CACHEBLK_MISS_EVICT <==> !Holds(v, tag) && forall k :: 0 <= k < |v| ==> v[k].valid
    ensures AccessStatus(v, tag) == CACHEBLK_MISS_FREE <==> !Holds(v, tag) && exists k :: 0 <= k < |v| && !v[k].valid
  {
    LookupHit(v, tag);
    if !v[|v| - 1].valid {
      assert !v[|v| - 1].valid;
    }
  }

  /** Moving line d to the front as a valid line whose tag no other valid line has keeps the set invariant. */
  lemma MoveFrontInvariant(v: seq<Entry>, r: seq<Entry>, d: nat)
    requires |r| == |v| && d < |v| && r[0].valid && ValidPrefix(v) && UniqueTags(v)
    requires forall j {:trigger r[j]} :: 1 <= j < |r| ==> r[j] == if j <= d then v[j - 1] else v[j]
    requires forall i :: 0 <= i < |v| && i != d && v[i].valid ==> v[i].tag != r[0].tag
    ensures ValidPrefix(r) && UniqueTags(r)
  {
    forall j, j' | 0 <= j < j' < |r| && r[j'].valid
      ensures r[j].valid
    {
      if j > 0 {
        assert r[j] == if j <= d then v[j - 1] else v[j];
        assert r[j'] == if j' <= d then v[j' - 1] else v[j'];
      }
    }
    forall j, j' | 0 <= j < j' < |r| && r[j].valid && r[j].tag == r[j'].tag
      ensures !r[j'].valid
    {
      assert r[j'] == if j' <= d then v[j' - 1] else v[j'];
      if j > 0 {
        assert r[j] == if j <= d then v[j - 1] else v[j];
      }
    }
  }

  /** An access keeps the valid lines first and their tags distinct. */
  lemma AccessKeepsInvariant(v: seq<Entry>, tag: nat, dirty: bool)
    requires |v| > 0 && ValidPrefix(v) && UniqueTags(v)
    ensures ValidPrefix(AccessView(v, tag, dirty))
    ensures UniqueTags(AccessView(v, tag, dirty))
  {
    LookupHit(v, tag);
    AccessKeepsOrder(v, tag, dirty);
    AccessFront(v, tag, dirty);
    MoveFrontInvariant(v, AccessView(v, tag, dirty), Chosen(v, tag));
  }

  /** The valid tags of a set whose line d moved to the front as the valid line f. */
  lemma TagsMoveFront(v: seq<Entry>, r: seq<Entry>, d: nat)
    requires |r| == |v| && d < |v| && r[0].valid
    requires forall j {:trigger r[j]} :: 1 <= j < |r| ==> r[j] == if j <= d then v[j - 1] else v[j]
    ensures Tags(r) == Tags(v[d := v[d].(valid := false)]) + {r[0].tag}
  {
    var u := v[d := v[d].(valid := false)];
    forall t | t in Tags(r)
      ensures t in Tags(u) + {r[0].tag}
    {
      var j :| 0 <= j < |r| && r[j].valid && r[j].tag == t;
      if j > 0 {
        var i := if j <= d then j - 1 else j;
        assert r[j] == if j <= d then v[j - 1] else v[j];
        assert i != d && r[j] == v[i];
        assert u[i] == v[i];
      }
    }
    forall t | t in Tags(u)
      ensures t in Tags(r)
    {
      var i :| 0 <= i < |u| && u[i].valid && u[i].tag == t;
      assert i != d && u[i] == v[i];
      var j := if i < d then i + 1 else i;
      assert 1 <= j < |r|;
      assert r[j] == if j <= d then v[j - 1] else v[j];
      assert r[j] == v[i];
    }
  }

  /** Making line d invalid removes its tag if it was valid (and no other valid line carries it). */
  lemma TagsDrop(v: seq<Entry>, d: nat)
    requires d < |v| && UniqueTags(v)
    ensures v[d].valid ==> Tags(v[d := v[d].(valid := false)]) == Tags(v) - {v[d].tag}
    ensures !v[d].valid ==> Tags(v[d := v[d].(valid := false)]) == Tags(v)
  {
    var u := v[d := v[d].(valid := false)];
    forall t | t in Tags(u)
      ensures t in Tags(v) && (v[d].valid ==> t != v[d].tag)
    {
      var i :| 0 <= i < |u| && u[i].valid && u[i].tag == t;
      assert v[i] == u[i];
    }
    forall t | t in Tags(v) && (v[d].valid ==> t != v[d].tag)
      ensures t in Tags(u)
    {
      var i :| 0 <= i < |v| && v[i].valid && v[i].tag == t;
      assert u[i] == v[i];
    }
  }

  /**
   * The tags held after an access: the accessed tag is added, and on an
   * eviction the LRU line's tag is the one removed.
   */
  lemma AccessTags(v: seq<Entry>, tag: nat, dirty: bool)
    requires |v| > 0 && ValidPrefix(v) && UniqueTags(v)
    ensures AccessStatus(v, tag) == CACHEBLK_HIT ==> Tags(AccessView(v, tag, dirty)) == Tags(v)
    ensures AccessStatus(v, tag) == CACHEBLK_MISS_FREE ==> Tags(AccessView(v, tag, dirty)) == Tags(v) + {tag}
    ensures AccessStatus(v, tag) == CACHEBLK_MISS_EVICT ==>
      Tags(AccessView(v, tag, dirty)) == Tags(v) - {v[|v| - 1].tag} + {tag}
  {
    LookupHit(v, tag);
    AccessKeepsOrder(v, tag, dirty);
    AccessFront(v, tag, dirty);
    TagsMoveFront(v, AccessView(v, tag, dirty), Chosen(v, tag));
    TagsDrop(v, Chosen(v, tag));
  }

  /** A second access of the same tag right after the first hits (a modify's store after its load). */
  lemma AccessAgainHits(v: seq<Entry>, tag: nat, dirty: bool)
    requires |v| > 0
    ensures AccessStatus(AccessView(v, tag, dirty), tag) == CACHEBLK_HIT
  {
    AccessFront(v, tag, dirty);
  }
}
