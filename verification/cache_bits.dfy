/**
 * The address split of the cache simulator: the three masks built when a
 * cache is created and the decoding of an address into tag, set and
 * block-offset bits. An `unsigned long` is a `nat` below 2^64.
 */
module CacheBits {
  import opened Bits

  const MAX_ADDR_BITS: nat := 47
  const WORD_BITS: nat := 64

  // ---------------------------------------------------------------
  // The masks of a cache with 2^s sets and 2^b-byte blocks, for addresses
  // of w bits (w is MAX_ADDR_BITS in the simulator)

  /** The address mask: (1ul << w) - 1. */
  function AMask(w: nat): nat {
    Pow2(w) - 1
  }

  /** The block-offset mask: (1ul << b) - 1. */
  function BMask(b: nat): nat {
    Pow2(b) - 1
  }

  /** The tag mask: ~((1ul << (s + b)) - 1) & amask. */
  function TMask(s: nat, b: nat, w: nat): nat {
    And(Not(Pow2(s + b) - 1, WORD_BITS), AMask(w))
  }

  /** The set-index mask: ~(bmask | tmask) & amask. */
  function SMask(s: nat, b: nat, w: nat): nat {
    And(Not(Or(BMask(b), TMask(s, b, w)), WORD_BITS), AMask(w))
  }

  /** Which bits each mask selects: [0, w), [0, b), [s + b, w) and [b, s + b). */
  lemma AMaskBit(w: nat, i: nat)
    ensures Bit(AMask(w), i) == (i < w)
  {
    LowMaskBit(w, i);
  }

  lemma BMaskBit(b: nat, i: nat)
    ensures Bit(BMask(b), i) == (i < b)
  {
    LowMaskBit(b, i);
  }

  lemma TMaskBit(s: nat, b: nat, w: nat, i: nat)
    requires w <= WORD_BITS
    ensures Bit(TMask(s, b, w), i) == (s + b <= i < w)
  {
    LowMaskBit(s + b, i);
    NotBit(Pow2(s + b) - 1, WORD_BITS, i);
    AndBit(Not(Pow2(s + b) - 1, WORD_BITS), AMask(w), i);
    AMaskBit(w, i);
  }

  lemma SMaskBit(s: nat, b: nat, w: nat, i: nat)
    requires s + b <= w <= WORD_BITS
    ensures Bit(SMask(s, b, w), i) == (b <= i < s + b)
  {
    BMaskBit(b, i);
    TMaskBit(s, b, w, i);
    OrBit(BMask(b), TMask(s, b, w), i);
    NotBit(Or(BMask(b), TMask(s, b, w)), WORD_BITS, i);
    AndBit(Not(Or(BMask(b), TMask(s, b, w)), WORD_BITS), AMask(w), i);
    AMaskBit(w, i);
  }

  /** The three masks are pairwise disjoint and together select exactly the low w bits. */
  lemma MasksPartition(s: nat, b: nat, w: nat)
    requires s + b <= w <= WORD_BITS
    ensures And(BMask(b), SMask(s, b, w)) == 0
    ensures And(BMask(b), TMask(s, b, w)) == 0
    ensures And(SMask(s, b, w), TMask(s, b, w)) == 0
    ensures Or(Or(BMask(b), SMask(s, b, w)), TMask(s, b, w)) == AMask(w)
  {
    forall i: nat
      ensures Bit(And(BMask(b), SMask(s, b, w)), i) == Bit(0, i)
      ensures Bit(And(BMask(b), TMask(s, b, w)), i) == Bit(0, i)
      ensures Bit(And(SMask(s, b, w), TMask(s, b, w)), i) == Bit(0, i)
      ensures Bit(Or(Or(BMask(b), SMask(s, b, w)), TMask(s, b, w)), i) == Bit(AMask(w), i)
    {
      ZeroBit(i);
      BMaskBit(b, i);
      TMaskBit(s, b, w, i);
      SMaskBit(s, b, w, i);
      AMaskBit(w, i);
      AndBit(BMask(b), SMask(s, b, w), i);
      AndBit(BMask(b), TMask(s, b, w), i);
      AndBit(SMask(s, b, w), TMask(s, b, w), i);
      OrBit(BMask(b), SMask(s, b, w), i);
      OrBit(Or(BMask(b), SMask(s, b, w)), TMask(s, b, w), i);
    }
    BitsEqual(And(BMask(b), SMask(s, b, w)), 0);
    BitsEqual(And(BMask(b), TMask(s, b, w)), 0);
    BitsEqual(And(SMask(s, b, w), TMask(s, b, w)), 0);
    BitsEqual(Or(Or(BMask(b), SMask(s, b, w)), TMask(s, b, w)), AMask(w));
  }

  // ---------------------------------------------------------------
  // Address decoding

  /** The parts of an address: tag, set index and block offset (addr_id_t). */
  datatype AddrId = AddrId(tbits: nat, sbits: nat, bbits: nat)

  /**
   * Splits addr with the masks of a cache with 2^s sets and 2^b-byte blocks:
   * tag = (addr & tmask) >> (s + b), set = (addr & smask) >> b,
   * offset = addr & bmask.
   */
  function Decode(s: nat, b: nat, w: nat, addr: nat): (id: AddrId)
    requires s + b <= w <= WORD_BITS
    ensures id.tbits < Pow2(w - (s + b))
    ensures id.sbits < Pow2(s)
    ensures id.bbits < Pow2(b)
  {
    DecodeBounds(s, b, w, addr);
    AddrId(Shr(And(addr, TMask(s, b, w)), s + b), Shr(And(addr, SMask(s, b, w)), b), And(addr, BMask(b)))
  }

  /** The bits of each decoded part. */
  lemma DecodeBits(s: nat, b: nat, w: nat, addr: nat, i: nat)
    requires s + b <= w <= WORD_BITS
    ensures Bit(Shr(And(addr, TMask(s, b, w)), s + b), i) == (i < w - (s + b) && Bit(addr, i + (s + b)))
    ensures Bit(Shr(And(addr, SMask(s, b, w)), b), i) == (i < s && Bit(addr, i + b))
    ensures Bit(And(addr, BMask(b)), i) == (i < b && Bit(addr, i))
  {
    ShrBit(And(addr, TMask(s, b, w)), s + b, i);
    AndBit(addr, TMask(s, b, w), i + (s + b));
    TMaskBit(s, b, w, i + (s + b));
    ShrBit(And(addr, SMask(s, b, w)), b, i);
    AndBit(addr, SMask(s, b, w), i + b);
    SMaskBit(s, b, w, i + b);
    AndBit(addr, BMask(b), i);
    BMaskBit(b, i);
  }

  lemma DecodeBounds(s: nat, b: nat, w: nat, addr: nat)
    requires s + b <= w <= WORD_BITS
    ensures Shr(And(addr, TMask(s, b, w)), s + b) < Pow2(w - (s + b))
    ensures Shr(And(addr, SMask(s, b, w)), b) < Pow2(s)
    ensures And(addr, BMask(b)) < Pow2(b)
  {
    var x := Shr(And(addr, TMask(s, b, w)), s + b);
    forall i: nat | w - (s + b) <= i
      ensures !Bit(x, i)
    {
      DecodeBits(s, b, w, addr, i);
    }
    forall i: nat | s <= i
      ensures !Bit(Shr(And(addr, SMask(s, b, w)), b), i)
    {
      DecodeBits(s, b, w, addr, i);
    }
    forall i: nat | b <= i
      ensures !Bit(And(addr, BMask(b)), i)
    {
      DecodeBits(s, b, w, addr, i);
    }
    BitsBelow(x, w - (s + b));
    BitsBelow(Shr(And(addr, SMask(s, b, w)), b), s);
    BitsBelow(And(addr, BMask(b)), b);
  }

  /** Bit i of the recomposed address. */
  lemma RecomposeBit(s: nat, b: nat, w: nat, addr: nat, i: nat)
    requires s + b <= w <= WORD_BITS
    ensures var id := Decode(s, b, w, addr);
      Bit(Or(Or(Shl(id.tbits, s + b), Shl(id.sbits, b)), id.bbits), i) == (i < w && Bit(addr, i))
  {
    var id := Decode(s, b, w, addr);
    OrBit(Or(Shl(id.tbits, s + b), Shl(id.sbits, b)), id.bbits, i);
    OrBit(Shl(id.tbits, s + b), Shl(id.sbits, b), i);
    ShlBit(id.tbits, s + b, i);
    ShlBit(id.sbits, b, i);
    if s + b <= i {
      DecodeBits(s, b, w, addr, i - (s + b));
    }
    if b <= i {
      DecodeBits(s, b, w, addr, i - b);
    }
    DecodeBits(s, b, w, addr, i);
  }

  /** Putting the parts back together gives the address cut to its low w bits. */
  lemma Recompose(s: nat, b: nat, w: nat, addr: nat)
    requires s + b <= w <= WORD_BITS
    ensures var id := Decode(s, b, w, addr);
      Or(Or(Shl(id.tbits, s + b), Shl(id.sbits, b)), id.bbits) == And(addr, AMask(w))
  {
    var id := Decode(s, b, w, addr);
    var whole := Or(Or(Shl(id.tbits, s + b), Shl(id.sbits, b)), id.bbits);
    forall i: nat
      ensures Bit(whole, i) == Bit(And(addr, AMask(w)), i)
    {
      RecomposeBit(s, b, w, addr, i);
      AndBit(addr, AMask(w), i);
      AMaskBit(w, i);
    }
    BitsEqual(whole, And(addr, AMask(w)));
  }
}
