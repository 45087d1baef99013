/**
 * Unsigned 32-bit words as natural numbers below 2^32, with the bitwise
 * operations the atlas packer uses to round a size up to a power of two.
 * A bit is read by repeated halving, `Or` combines two numbers bit by bit
 * and `Shr` is a logical shift to the right.
 */
module Bits {

  /** 2^k */
  function Pow2(k: nat): (r: nat)
    ensures r >= 1
  {
    if k == 0 then 1 else 2 * Pow2(k - 1)
  }

  /** Number of values of a uint32. */
  const U32: nat := 0x1_0000_0000

  /** Bit i of x (bit 0 is the least significant). */
  function Bit(x: nat, i: nat): bool
  {
    if i == 0 then x % 2 == 1 else Bit(x / 2, i - 1)
  }

  /** Bitwise or of two naturals. */
  function Or(a: nat, b: nat): nat
    decreases a + b
  {
    if a == 0 then b
    else if b == 0 then a
    else 2 * Or(a / 2, b / 2) + (if a % 2 == 1 || b % 2 == 1 then 1 else 0)
  }

  /** Logical shift right by s bits. */
  function Shr(a: nat, s: nat): nat
  {
    if s == 0 then a else Shr(a / 2, s - 1)
  }

  /** Number of significant bits of x: 0 for 0, else one more than the position of the top bit. */
  function BitLength(x: nat): nat
  {
    if x == 0 then 0 else 1 + BitLength(x / 2)
  }

  lemma Pow2Of32()
    ensures Pow2(32) == U32
  {
    assert Pow2(8) == 256;
    Pow2Add(8, 8);
    Pow2Add(16, 16);
  }

  lemma Pow2Add(j: nat, k: nat)
    ensures Pow2(j + k) == Pow2(j) * Pow2(k)
  {
    if j > 0 {
      Pow2Add(j - 1, k);
    }
  }

  lemma {:induction false} Pow2Monotone(j: nat, k: nat)
    requires j <= k
    ensures Pow2(j) <= Pow2(k)
    decreases k
  {
    if j < k {
      Pow2Monotone(j, k - 1);
    }
  }

  /** A power of two above 2^k is at least 2^(k+1). */
  lemma {:induction false} Pow2Gap(j: nat, k: nat)
    requires Pow2(j) > Pow2(k)
    ensures j >= k + 1 && Pow2(j) >= Pow2(k + 1)
  {
    if j <= k {
      Pow2Monotone(j, k);
    }
    Pow2Monotone(k + 1, j);
  }

  /** BitLength locates the top bit: 2^(len-1) <= x < 2^len. */
  lemma {:induction false} BitLengthBounds(x: nat)
    ensures x < Pow2(BitLength(x))
    ensures x >= 1 ==> Pow2(BitLength(x) - 1) <= x
  {
    if x > 0 {
      BitLengthBounds(x / 2);
    }
  }

  /** BitLength is determined by the two bounds it satisfies. */
  lemma {:induction false} BitLengthUnique(x: nat, k: nat)
    requires x < Pow2(k)
    requires k >= 1 ==> Pow2(k - 1) <= x
    ensures BitLength(x) == k
  {
    if k == 0 {
    } else {
      BitLengthUnique(x / 2, k - 1);
    }
  }

  /** Appending a low digit c to r: halving gives back r, the parity is c. */
  lemma AppendDigit(r: nat, c: nat)
    requires c < 2
    ensures (2 * r + c) / 2 == r && (2 * r + c) % 2 == c
  {
  }

  lemma {:induction false} OrBit(a: nat, b: nat, i: nat)
    ensures Bit(Or(a, b), i) == (Bit(a, i) || Bit(b, i))
    decreases a + b
  {
    if a == 0 {
      ZeroBits(i);
    } else if b == 0 {
      ZeroBits(i);
    } else {
      var r := Or(a / 2, b / 2);
      var c := if a % 2 == 1 || b % 2 == 1 then 1 else 0;
      assert Or(a, b) == 2 * r + c;
      AppendDigit(r, c);
      if i > 0 {
        OrBit(a / 2, b / 2, i - 1);
      }
    }
  }

  lemma {:induction false} ZeroBits(i: nat)
    ensures !Bit(0, i)
  {
    if i > 0 {
      ZeroBits(i - 1);
    }
  }

  lemma {:induction false} ShrBit(a: nat, s: nat, i: nat)
    ensures Bit(Shr(a, s), i) == Bit(a, i + s)
    decreases s
  {
    if s > 0 {
      ShrBit(a / 2, s - 1, i);
      HalfBit(a, i + s - 1);
    }
  }

  lemma HalfBit(a: nat, i: nat)
    ensures Bit(a / 2, i) == Bit(a, i + 1)
  {
  }

  /** Two naturals with the same bits are equal. */
  lemma {:induction false} BitsDetermine(a: nat, b: nat)
    requires forall i: nat :: Bit(a, i) == Bit(b, i)
    ensures a == b
    decreases a + b
  {
    assert Bit(a, 0) == Bit(b, 0);
    if a == 0 && b == 0 {
    } else {
      forall i: nat
        ensures Bit(a / 2, i) == Bit(b / 2, i)
      {
        HalfBit(a, i);
        HalfBit(b, i);
        assert Bit(a, i + 1) == Bit(b, i + 1);
      }
      BitsDetermine(a / 2, b / 2);
    }
  }

  /** 2^k - 1 has exactly the bits below k. */
  lemma {:induction false} OnesBits(k: nat, i: nat)
    ensures Bit(Pow2(k) - 1, i) <==> i < k
  {
    if k == 0 {
      ZeroBits(i);
    } else if i > 0 {
      assert (Pow2(k) - 1) / 2 == Pow2(k - 1) - 1;
      OnesBits(k - 1, i - 1);
    }
  }

  /** No bit of x is set at or above its bit length. */
  lemma {:induction false} HighBitsClear(x: nat, i: nat)
    requires i >= BitLength(x)
    ensures !Bit(x, i)
  {
    if x == 0 {
      ZeroBits(i);
    } else {
      HighBitsClear(x / 2, i - 1);
    }
  }

  /** The top bit of a nonzero x is set. */
  lemma {:induction false} TopBitSet(x: nat)
    requires x >= 1
    ensures Bit(x, BitLength(x) - 1)
  {
    if x >= 2 {
      TopBitSet(x / 2);
    }
  }

  /** One smearing step `v | (v >> s)`. */
  function SmearStep(v: nat, s: nat): nat
  {
    Or(v, Shr(v, s))
  }

  /** uint32 decrement: 0 wraps around to 2^32 - 1. */
  function Dec32(x: nat): (r: nat)
    requires x < U32
    ensures r < U32
    ensures x >= 1 ==> r == x - 1
    ensures x == 0 ==> r == U32 - 1
  {
    if x == 0 then U32 - 1 else x - 1
  }

  /** uint32 increment: 2^32 - 1 wraps around to 0. */
  function Inc32(x: nat): (r: nat)
    ensures r < U32
    ensures x < U32 - 1 ==> r == x + 1
    ensures x == U32 - 1 ==> r == 0
  {
    (x + 1) % U32
  }

  /** The first k smearing steps: v | (v >> 1), then | (v >> 2), ..., up to the shift 2^(k-1). */
  function SmearSteps(x: nat, k: nat): nat
  {
    if k == 0 then x else SmearStep(SmearSteps(x, k - 1), Pow2(k - 1))
  }

  /** The five smearing steps of the packer's power-of-two rounding, shifts 1, 2, 4, 8 and 16. */
  function Smear(x: nat): nat
  {
    SmearSteps(x, 5)
  }

  /** Some bit of x in the window [i, i + d) is set. */
  ghost predicate AnyBitIn(x: nat, i: nat, d: nat)
  {
    exists j: nat :: i <= j < i + d && Bit(x, j)
  }

  /**
   * If bit i of v says whether x has a set bit in [i, i + d), then one step
   * `v | (v >> d)` widens the window to [i, i + 2d).
   */
  lemma {:induction false} SmearStepWindow(x: nat, v: nat, d: nat)
    requires forall i: nat :: Bit(v, i) <==> AnyBitIn(x, i, d)
    ensures forall i: nat :: Bit(SmearStep(v, d), i) <==> AnyBitIn(x, i, 2 * d)
  {
    forall i: nat
      ensures Bit(SmearStep(v, d), i) <==> AnyBitIn(x, i, 2 * d)
    {
      OrBit(v, Shr(v, d), i);
      ShrBit(v, d, i);
      assert Bit(v, i) <==> AnyBitIn(x, i, d);
      assert Bit(v, i + d) <==> AnyBitIn(x, i + d, d);
      if AnyBitIn(x, i, 2 * d) {
        var j: nat :| i <= j < i + 2 * d && Bit(x, j);
        if j < i + d {
          assert AnyBitIn(x, i, d);
        } else {
          assert AnyBitIn(x, i + d, d);
        }
      }
    }
  }

  /** After k steps, bit i is set iff x has a set bit in [i, i + 2^k). */
  lemma {:induction false} SmearStepsWindow(x: nat, k: nat)
    ensures forall i: nat :: Bit(SmearSteps(x, k), i) <==> AnyBitIn(x, i, Pow2(k))
  {
    if k == 0 {
      forall i: nat
        ensures Bit(x, i) <==> AnyBitIn(x, i, 1)
      {
        if Bit(x, i) {
          assert i <= i < i + 1 && Bit(x, i);
        }
      }
    } else {
      SmearStepsWindow(x, k - 1);
      SmearStepWindow(x, SmearSteps(x, k - 1), Pow2(k - 1));
    }
  }

  /** After smearing, bit i of a uint32 x is set iff x has a set bit at or above i. */
  lemma {:induction false} SmearBits(x: nat)
    requires x < U32
    ensures forall i: nat :: Bit(Smear(x), i) <==> i < BitLength(x)
  {
    SmearStepsWindow(x, 5);
    assert Pow2(5) == 32;
    BitLengthBounds(x);
    Pow2Of32();
    if BitLength(x) > 32 {
      Pow2Monotone(32, BitLength(x) - 1);
    }
    forall i: nat
      ensures Bit(Smear(x), i) <==> i < BitLength(x)
    {
      assert Bit(Smear(x), i) <==> AnyBitIn(x, i, 32);
      if i < BitLength(x) {
        TopBitSet(x);
        assert i <= BitLength(x) - 1 < i + 32;
      } else {
        forall j: nat | i <= j < i + 32
          ensures !Bit(x, j)
        {
          HighBitsClear(x, j);
        }
      }
    }
  }

  /** A value whose set bits are exactly those below L is 2^L - 1. */
  lemma OnesFromBits(y: nat, L: nat)
    requires forall i: nat :: Bit(y, i) <==> i < L
    ensures y == Pow2(L) - 1
  {
    forall i: nat
      ensures Bit(y, i) == Bit(Pow2(L) - 1, i)
    {
      OnesBits(L, i);
    }
    BitsDetermine(y, Pow2(L) - 1);
  }

  /** Smearing a uint32 x fills every bit below its top bit: the result is 2^len - 1. */
  lemma SmearValue(x: nat)
    requires x < U32
    ensures Smear(x) == Pow2(BitLength(x)) - 1
  {
    SmearBits(x);
    OnesFromBits(Smear(x), BitLength(x));
  }
}
