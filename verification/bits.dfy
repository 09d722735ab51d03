/**
 * Bit operations on unsigned integers, defined bit by bit on `nat`: the C
 * operators &, |, ~ (on a word of a given width), >> and <<, and lemmas that
 * characterise each result bit by bit.
 */
module Bits {

  function Pow2(n: nat): (p: nat)
    ensures p >= 1
  {
    if n == 0 then 1 else 2 * Pow2(n - 1)
  }

  /** Bit i of x (bit 0 is the least significant). */
  function Bit(x: nat, i: nat): bool {
    if i == 0 then x % 2 == 1 else Bit(x / 2, i - 1)
  }

  /** x & y */
  function And(x: nat, y: nat): nat {
    if x == 0 then 0 else 2 * And(x / 2, y / 2) + (if x % 2 == 1 && y % 2 == 1 then 1 else 0)
  }

  /** x | y */
  function Or(x: nat, y: nat): nat
    decreases x + y
  {
    if x == 0 && y == 0 then 0 else 2 * Or(x / 2, y / 2) + (if x % 2 == 1 || y % 2 == 1 then 1 else 0)
  }

  /** ~x on a w-bit unsigned integer. */
  function Not(x: nat, w: nat): nat {
    if w == 0 then 0 else 2 * Not(x / 2, w - 1) + (if x % 2 == 1 then 0 else 1)
  }

  /** x >> k */
  function Shr(x: nat, k: nat): nat {
    if k == 0 then x else Shr(x / 2, k - 1)
  }

  /** x << k, where no bit is shifted out of the word. */
  function Shl(x: nat, k: nat): nat {
    if k == 0 then x else 2 * Shl(x, k - 1)
  }

  // ---------------------------------------------------------------
  // Bit-level characterisations

  lemma {:induction false} ZeroBit(i: nat)
    ensures !Bit(0, i)
  {
    if i > 0 {
      ZeroBit(i - 1);
    }
  }

  /** The bits of 2q + r. */
  lemma BitOfHalves(q: nat, r: nat, i: nat)
    requires r < 2
    ensures Bit(2 * q + r, i) == if i == 0 then r == 1 else Bit(q, i - 1)
  {
  }

  lemma {:induction false} AndBit(x: nat, y: nat, i: nat)
    ensures Bit(And(x, y), i) == (Bit(x, i) && Bit(y, i))
    decreases x
  {
    if x == 0 {
      ZeroBit(i);
    } else {
      var r := if x % 2 == 1 && y % 2 == 1 then 1 else 0;
      BitOfHalves(And(x / 2, y / 2), r, i);
      if i > 0 {
        AndBit(x / 2, y / 2, i - 1);
      }
    }
  }

  lemma {:induction false} OrBit(x: nat, y: nat, i: nat)
    ensures Bit(Or(x, y), i) == (Bit(x, i) || Bit(y, i))
    decreases x + y
  {
    if x == 0 && y == 0 {
      ZeroBit(i);
    } else {
      var r := if x % 2 == 1 || y % 2 == 1 then 1 else 0;
      BitOfHalves(Or(x / 2, y / 2), r, i);
      if i > 0 {
        OrBit(x / 2, y / 2, i - 1);
      }
    }
  }

  lemma {:induction false} NotBit(x: nat, w: nat, i: nat)
    ensures Bit(Not(x, w), i) == (i < w && !Bit(x, i))
  {
    if w == 0 {
      ZeroBit(i);
    } else {
      var r := if x % 2 == 1 then 0 else 1;
      BitOfHalves(Not(x / 2, w - 1), r, i);
      if i > 0 {
        NotBit(x / 2, w - 1, i - 1);
      }
    }
  }

  lemma {:induction false} ShrBit(x: nat, k: nat, i: nat)
    ensures Bit(Shr(x, k), i) == Bit(x, i + k)
  {
    if k > 0 {
      ShrBit(x / 2, k - 1, i);
    }
  }

  lemma {:induction false} ShlBit(x: nat, k: nat, i: nat)
    ensures Bit(Shl(x, k), i) == (k <= i && Bit(x, i - k))
  {
    if k > 0 {
      BitOfHalves(Shl(x, k - 1), 0, i);
      if i > 0 {
        ShlBit(x, k - 1, i - 1);
      }
    }
  }

  /** 2^n - 1 has exactly the bits below n set. */
  lemma {:induction false} LowMaskBit(n: nat, i: nat)
    ensures Bit(Pow2(n) - 1, i) == (i < n)
  {
    if n == 0 {
      ZeroBit(i);
    } else {
      BitOfHalves(Pow2(n - 1) - 1, 1, i);
      if i > 0 {
        LowMaskBit(n - 1, i - 1);
      }
    }
  }

  /** Two numbers with the same bits are equal. */
  lemma {:induction false} BitsEqual(x: nat, y: nat)
    requires forall i: nat :: Bit(x, i) == Bit(y, i)
    ensures x == y
    decreases x + y
  {
    if x != 0 || y != 0 {
      assert Bit(x, 0) == Bit(y, 0);
      forall i: nat
        ensures Bit(x / 2, i) == Bit(y / 2, i)
      {
        assert Bit(x, i + 1) == Bit(y, i + 1);
      }
      BitsEqual(x / 2, y / 2);
    }
  }

  /** A number with no bit set at or above n is below 2^n. */
  lemma {:induction false} BitsBelow(x: nat, n: nat)
    requires forall i: nat :: n <= i ==> !Bit(x, i)
    ensures x < Pow2(n)
  {
    if n == 0 {
      forall i: nat
        ensures Bit(x, i) == Bit(0, i)
      {
        ZeroBit(i);
      }
      BitsEqual(x, 0);
    } else {
      forall i: nat | n - 1 <= i
        ensures !Bit(x / 2, i)
      {
        assert !Bit(x, i + 1);
      }
      BitsBelow(x / 2, n - 1);
    }
  }
}
