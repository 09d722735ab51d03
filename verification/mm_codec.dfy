/**
 * The words and macros of the allocator. The allocator is built for a
 * 32-bit target: a size_t and an unsigned int are both 32 bits wide, so
 * every size is a `nat` below WORD = 2^32. The heap is a sequence of bytes
 * addressed by their offset from the start of the heap; a word (GET/PUT) is
 * four bytes, least significant first.
 */
module MmCodec {
  import opened Bits

  const WORD: nat := 0x1_0000_0000
  /** The width of a size_t and of an unsigned int. */
  const WORD_BITS: nat := 32
  const WSIZE: nat := 4
  const DSIZE: nat := 8
  const ALIGNMENT: nat := 8
  const CHUNKSIZE: nat := 4096
  /** ALIGN(sizeof(size_t)) with a 4-byte size_t; AlignOfSizeT shows it is 8. */
  const SIZE_T_SIZE: nat := 8

  type Byte = x: nat | x < 256

  // ---------------------------------------------------------------
  // ALIGN, PACK, GET_SIZE, GET_ALLOC

  /** The sum of two 32-bit words, wrapped around to 32 bits. */
  function AddWrap(x: nat, y: nat): (r: nat)
    requires x < WORD && y < WORD
    ensures r < WORD && r == (x + y) % WORD
  {
    if x + y < WORD then x + y else x + y - WORD
  }

  /** ALIGN(n) on a 32-bit size_t: (n + 7) & ~0x7, where the sum wraps around. */
  function Align(n: nat): (r: nat)
    requires n < WORD
    ensures r % 8 == 0 && r < WORD
  {
    ClearLow3(AddWrap(n, ALIGNMENT - 1));
    MaskLow3(AddWrap(n, ALIGNMENT - 1))
  }

  /** PACK(size, alloc) */
  function Pack(size: nat, alloc: nat): nat {
    Or(size, alloc)
  }

  /** ~0x7 on a 32-bit word, written out; NotSeven shows it is Not(7, WORD_BITS). */
  const LOW3_CLEAR: nat := 0xFFFF_FFF8

  /** x & ~0x7 on a 32-bit word. */
  function MaskLow3(x: nat): nat {
    And(x, LOW3_CLEAR)
  }

  /** GET_SIZE of a header word: the word with its three low bits cleared. */
  function GetSize(w: nat): nat {
    MaskLow3(w)
  }

  /** GET_ALLOC of a header word: its lowest bit. */
  function GetAlloc(w: nat): (r: nat)
    ensures r < 2
  {
    AndOne(w / 2, w % 2);
    And(w, 1)
  }

  /** The multiple of 8 below or at n. */
  function Floor8(n: nat): (r: nat)
    ensures r % 8 == 0 && r <= n < r + 8
  {
    n / 8 * 8
  }

  /** ALIGN without wrap-around: the least multiple of 8 at or above n. */
  function RoundUp8(n: nat): (r: nat)
    ensures r % 8 == 0 && n <= r < n + 8
  {
    (n + 7) / 8 * 8
  }

  lemma {:induction false} AndZero(x: nat)
    ensures And(x, 0) == 0
    decreases x
  {
    if x != 0 {
      AndZero(x / 2);
    }
  }

  lemma {:induction false} OrZero(x: nat)
    ensures Or(x, 0) == x
    decreases x
  {
    if x != 0 {
      OrZero(x / 2);
    }
  }

  lemma {:induction false} NotZero(w: nat)
    ensures Not(0, w) == Pow2(w) - 1
  {
    if w > 0 {
      NotZero(w - 1);
    }
  }

  /** x & (2^w - 1) == x for x below 2^w. */
  lemma {:induction false} AndOnes(x: nat, w: nat)
    requires x < Pow2(w)
    ensures And(x, Pow2(w) - 1) == x
  {
    if w > 0 && x > 0 {
      assert Pow2(w) - 1 == 2 * (Pow2(w - 1) - 1) + 1;
      AndOnes(x / 2, w - 1);
    }
  }

  lemma {:induction false} Pow2Add(a: nat, b: nat)
    ensures Pow2(a + b) == Pow2(a) * Pow2(b)
  {
    if a > 0 {
      Pow2Add(a - 1, b);
    }
  }

  lemma Pow2Word()
    ensures Pow2(WORD_BITS) == WORD && Pow2(3) == 8
  {
    assert Pow2(8) == 256;
    Pow2Add(8, 8);
    Pow2Add(16, 16);
  }

  /** ~(2^k - 1) on a w-bit word is 2^w - 2^k. */
  lemma {:induction false} NotLowMask(k: nat, w: nat)
    requires k <= w
    ensures Not(Pow2(k) - 1, w) == Pow2(w) - Pow2(k)
  {
    if k == 0 {
      NotZero(w);
    } else {
      var x := Pow2(k) - 1;
      assert x == 2 * (Pow2(k - 1) - 1) + 1;
      assert x / 2 == Pow2(k - 1) - 1 && x % 2 == 1;
      NotLowMask(k - 1, w - 1);
      assert Not(x, w) == 2 * Not(x / 2, w - 1);
    }
  }

  /** The mask LOW3_CLEAR is ~0x7 on a 32-bit word. */
  lemma NotSeven()
    ensures Not(7, WORD_BITS) == LOW3_CLEAR
  {
    Pow2Word();
    NotLowMask(3, WORD_BITS);
  }

  /** x & 2m drops the lowest bit of x and ands the rest with m. */
  lemma AndDouble(x: nat, m: nat)
    ensures And(x, 2 * m) == 2 * And(x / 2, m)
  {
    if x != 0 {
      assert (2 * m) / 2 == m && (2 * m) % 2 == 0;
    }
  }

  /** w & ~0x7 clears the three low bits of a 32-bit word. */
  lemma ClearLow3(w: nat)
    requires w < WORD
    ensures MaskLow3(w) == Floor8(w)
  {
    Pow2Word();
    NotLowMask(3, WORD_BITS);
    Pow2Add(3, 29);
    var m := Pow2(29) - 1;
    assert LOW3_CLEAR == 8 * m;
    AndDouble(w, 4 * m);
    AndDouble(w / 2, 2 * m);
    AndDouble(w / 4, m);
    assert w / 2 / 2 == w / 4 && w / 4 / 2 == w / 8;
    AndOnes(w / 8, 29);
  }

  /** ALIGN(n) is the least multiple of 8 at or above n, unless n + 7 wraps around. */
  lemma AlignMeaning(n: nat)
    requires n < WORD
    ensures n + 7 < WORD ==> Align(n) == RoundUp8(n)
    ensures WORD <= n + 7 ==> Align(n) == Floor8(n + 7 - WORD) && Align(n) < 8
  {
    ClearLow3(AddWrap(n, 7));
  }

  lemma AlignOfSizeT()
    ensures Align(4) == SIZE_T_SIZE
  {
    AlignMeaning(4);
  }

  /** An even number or'd with a bit is their sum. */
  lemma OrLowBit(h: nat, b: nat)
    requires b < 2
    ensures Or(2 * h, b) == 2 * h + b
  {
    if h != 0 || b != 0 {
      assert (2 * h + b) / 2 == h && (2 * h) / 2 == h && b / 2 == 0;
      OrZero(h);
    }
  }

  /** The lowest bit of an even number plus a bit is that bit. */
  lemma AndOne(h: nat, b: nat)
    requires b < 2
    ensures And(2 * h + b, 1) == b
  {
    if h != 0 || b != 0 {
      assert (2 * h + b) / 2 == h && (2 * h + b) % 2 == b;
      AndZero(h);
    }
  }

  /** PACK of a multiple of 8 and an allocated bit is their sum. */
  lemma PackSum(size: nat, alloc: nat)
    requires size % 8 == 0 && alloc < 2
    ensures Pack(size, alloc) == size + alloc
  {
    var q := size / 8;
    assert size == 2 * (4 * q);
    OrLowBit(4 * q, alloc);
  }

  /** GET_SIZE of a multiple of 8 plus an allocated bit is the multiple. */
  lemma GetSizeSum(w: nat, size: nat, alloc: nat)
    requires w == size + alloc && size < WORD && size % 8 == 0 && alloc < 2
    ensures GetSize(w) == size
  {
    var q := size / 8;
    assert size == 8 * q;
    assert w / 8 == q;
    ClearLow3(w);
  }

  /** GET_ALLOC of a multiple of 8 plus an allocated bit is the bit. */
  lemma GetAllocSum(w: nat, size: nat, alloc: nat)
    requires w == size + alloc && size % 8 == 0 && alloc < 2
    ensures GetAlloc(w) == alloc
  {
    var q := size / 8;
    assert w == 2 * (4 * q) + alloc;
    AndOne(4 * q, alloc);
  }

  /** GET_SIZE and GET_ALLOC recover what PACK stored. */
  lemma PackRoundTrip(size: nat, alloc: nat)
    requires size < WORD && size % 8 == 0 && alloc < 2
    ensures Pack(size, alloc) == size + alloc < WORD
    ensures GetSize(Pack(size, alloc)) == size && GetAlloc(Pack(size, alloc)) == alloc
  {
    var q := size / 8;
    assert size == 8 * q && q < WORD / 8;
    PackSum(size, alloc);
    GetSizeSum(Pack(size, alloc), size, alloc);
    GetAllocSum(Pack(size, alloc), size, alloc);
  }

  // ---------------------------------------------------------------
  // GET and PUT

  /** GET(p): the word at offset p. */
  function Word(m: seq<Byte>, p: nat): (w: nat)
    requires p + 4 <= |m|
    ensures w < WORD
  {
    m[p] as nat + 256 * (m[p + 1] as nat + 256 * (m[p + 2] as nat + 256 * m[p + 3] as nat))
  }

  /** PUT(p, v): the heap with the word at offset p replaced by v (truncated to 32 bits). */
  function PutWord(m: seq<Byte>, p: nat, v: nat): (m': seq<Byte>)
    requires p + 4 <= |m|
    ensures |m'| == |m|
    ensures forall i :: 0 <= i < |m| && (i < p || p + 4 <= i) ==> m'[i] == m[i]
  {
    var w := v % WORD;
    var w1 := w / 256;
    var w2 := w1 / 256;
    m[p := w % 256][p + 1 := w1 % 256][p + 2 := w2 % 256][p + 3 := w2 / 256 % 256]
  }

  /** A word reads back what was put there. */
  lemma WordPut(m: seq<Byte>, p: nat, v: nat)
    requires p + 4 <= |m| && v < WORD
    ensures Word(PutWord(m, p, v), p) == v
  {
    var m' := PutWord(m, p, v);
    assert v % WORD == v;
    var w1 := v / 256;
    var w2 := w1 / 256;
    var w3 := w2 / 256;
    assert v == v % 256 + 256 * w1;
    assert w1 == w1 % 256 + 256 * w2;
    assert w2 == w2 % 256 + 256 * w3;
    assert w3 < 256;
    assert m'[p] == v % 256 && m'[p + 1] == w1 % 256 && m'[p + 2] == w2 % 256 && m'[p + 3] == w3 % 256;
  }

  /** Putting a word leaves the words that do not overlap it alone. */
  lemma WordFrame(m: seq<Byte>, p: nat, v: nat, q: nat)
    requires p + 4 <= |m| && q + 4 <= |m| && (q + 4 <= p || p + 4 <= q)
    ensures Word(PutWord(m, p, v), q) == Word(m, q)
  {
  }
}
