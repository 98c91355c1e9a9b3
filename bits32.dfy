/**
 * Bit arithmetic on a Java `int` seen as 32 bits. `Bit` counts bit
 * positions with ordinary numbers and is defined by shifting right one
 * place at a time; `BitAt` is the same test on a 5-bit index, in which the
 * bitwise facts are proved before they are carried over to `Bit`.
 */
module Bits32 {
  /** Bit `b` of `d` is set. */
  predicate BitAt(d: bv32, b: bv5)
  {
    (d >> (b as bv32)) & 1 == 1
  }

  /** Bit `k` of `d` is set. */
  predicate Bit(d: bv32, k: nat)
    requires k < 32
  {
    if k == 0 then d & 1 == 1 else Bit(d >> 1, k - 1)
  }

  /** The 5-bit index of bit position `k`. */
  function Index(k: nat): (b: bv5)
    requires k < 32
    ensures b as int == k
  {
    if k == 0 then 0 else Index(k - 1) + 1
  }

  lemma BitAtNext(d: bv32, i: bv5)
    requires i < 31
    ensures BitAt(d >> 1, i) == BitAt(d, i + 1)
  {
  }

  /** Both tests agree. */
  lemma {:induction false} BitIsBitAt(d: bv32, k: nat)
    requires k < 32
    ensures Bit(d, k) == BitAt(d, Index(k))
  {
    if k > 0 {
      BitIsBitAt(d >> 1, k - 1);
      BitAtNext(d, Index(k - 1));
    }
  }

  lemma BitAtAnd(a: bv32, b: bv32, i: bv5)
    ensures BitAt(a & b, i) == (BitAt(a, i) && BitAt(b, i))
  {
  }

  /** `&` works bit by bit. */
  lemma BitAnd(a: bv32, b: bv32, k: nat)
    requires k < 32
    ensures Bit(a & b, k) == (Bit(a, k) && Bit(b, k))
  {
    BitIsBitAt(a & b, k);
    BitIsBitAt(a, k);
    BitIsBitAt(b, k);
    BitAtAnd(a, b, Index(k));
  }

  lemma BitAtOr(a: bv32, b: bv32, i: bv5)
    ensures BitAt(a | b, i) == (BitAt(a, i) || BitAt(b, i))
  {
  }

  /** `|` works bit by bit. */
  lemma BitOr(a: bv32, b: bv32, k: nat)
    requires k < 32
    ensures Bit(a | b, k) == (Bit(a, k) || Bit(b, k))
  {
    BitIsBitAt(a | b, k);
    BitIsBitAt(a, k);
    BitIsBitAt(b, k);
    BitAtOr(a, b, Index(k));
  }

  lemma BitAtShl(a: bv32, i: bv5)
    ensures BitAt(a << 1, i) == (i != 0 && BitAt(a, i - 1))
  {
  }

  /** `<< 1` moves every bit one place up and clears bit 0; bit 31 falls off. */
  lemma BitShl(a: bv32, k: nat)
    requires k < 32
    ensures Bit(a << 1, k) == (k > 0 && Bit(a, k - 1))
  {
    BitIsBitAt(a << 1, k);
    BitAtShl(a, Index(k));
    if k > 0 {
      BitIsBitAt(a, k - 1);
    }
  }

  /** No bit of 0 is set. */
  lemma BitZero(k: nat)
    requires k < 32
    ensures !Bit(0, k)
  {
    BitIsBitAt(0, k);
  }

  /** Only bit 0 of 1 is set. */
  lemma BitOne(k: nat)
    requires k < 32
    ensures Bit(1, k) <==> k == 0
  {
    BitIsBitAt(1, k);
  }

  /** Every bit of `~0` is set. */
  lemma BitAllOnes(k: nat)
    requires k < 32
    ensures Bit(!0, k)
  {
    BitIsBitAt(!0, k);
  }

  /** A nonzero word has a bit set. */
  lemma SomeBit(d: bv32) returns (k: nat)
    requires d != 0
    ensures k < 32 && Bit(d, k)
  {
    var i: bv5 := 0;
    while !BitAt(d, i)
      invariant d >> (i as bv32) != 0
      decreases 31 - i as int
    {
      i := i + 1;
    }
    k := i as int;
    BitIsBitAt(d, k);
    assert Index(k) == i;
  }
}
