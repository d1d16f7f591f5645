/** The bit arithmetic of lib/hmap.c: `hash & mask` and the mask computed by calc_mask. */
module Masks {
  function Bit(x: nat, i: nat): bool {
    if i == 0 then x % 2 == 1 else Bit(x / 2, i - 1)
  }

  function And(x: nat, y: nat): nat {
    if x == 0 || y == 0 then 0 else 2 * And(x / 2, y / 2) + if x % 2 == 1 && y % 2 == 1 then 1 else 0
  }

  function Or(x: nat, y: nat): nat
    decreases x + y
  {
    if x == 0 && y == 0 then 0 else 2 * Or(x / 2, y / 2) + if x % 2 == 1 || y % 2 == 1 then 1 else 0
  }

  function Shr(x: nat, k: nat): nat {
    if k == 0 then x else Shr(x / 2, k - 1)
  }

  /** Only ones: one less than a power of two. */
  predicate IsMask(m: nat) {
    m == 0 || (m % 2 == 1 && IsMask(m / 2))
  }

  function Pow2(k: nat): nat {
    if k == 0 then 1 else 2 * Pow2(k - 1)
  }

  function Width(m: nat): nat {
    if m == 0 then 0 else 1 + Width(m / 2)
  }

  lemma {:induction false} MaskIsPow2(m: nat)
    requires IsMask(m)
    ensures m + 1 == Pow2(Width(m))
  {
    if m != 0 {
      MaskIsPow2(m / 2);
    }
  }

  lemma {:induction false} Pow2IsMask(k: nat)
    ensures Pow2(k) > 0 && IsMask(Pow2(k) - 1)
  {
    if k != 0 {
      Pow2IsMask(k - 1);
      assert (Pow2(k) - 1) / 2 == Pow2(k - 1) - 1;
    }
  }

  /** A bucket index is in range. */
  lemma {:induction false} AndBound(x: nat, y: nat)
    ensures And(x, y) <= y
  {
    if x != 0 && y != 0 {
      AndBound(x / 2, y / 2);
    }
  }

  /** With a mask of ones no bucket is out of reach. */
  lemma {:induction false} AndReaches(x: nat, m: nat)
    requires IsMask(m) && x <= m
    ensures And(x, m) == x
  {
    if x != 0 {
      AndReaches(x / 2, m / 2);
    }
  }

  // ----- calc_mask -----

  lemma {:induction false} OrBits(x: nat, y: nat, i: nat)
    ensures Bit(Or(x, y), i) <==> Bit(x, i) || Bit(y, i)
    decreases i
  {
    if i > 0 {
      if x == 0 && y == 0 {
        OrBits(0, 0, i - 1);
      } else {
        OrBits(x / 2, y / 2, i - 1);
      }
    }
  }

  lemma {:induction false} ShrBits(x: nat, k: nat, i: nat)
    ensures Bit(Shr(x, k), i) == Bit(x, i + k)
    decreases k
  {
    if k > 0 {
      ShrBits(x / 2, k - 1, i);
    }
  }

  lemma {:induction false} OrGrows(x: nat, y: nat)
    ensures Or(x, y) >= x
    decreases x + y
  {
    if x != 0 || y != 0 {
      OrGrows(x / 2, y / 2);
    }
  }

  /** One of the n bits from i on is set. */
  function AnyBit(x: nat, i: nat, n: nat): bool
    decreases n
  {
    n > 0 && (Bit(x, i) || AnyBit(x, i + 1, n - 1))
  }

  lemma {:induction false} AnyBitSplit(x: nat, i: nat, n: nat, m: nat)
    ensures AnyBit(x, i, n + m) <==> AnyBit(x, i, n) || AnyBit(x, i + n, m)
    decreases n
  {
    if n > 0 {
      AnyBitSplit(x, i + 1, n - 1, m);
    }
  }

  /** Every bit of y says whether one of n bits of x, from there up, is set. */
  ghost predicate Smeared(x: nat, n: nat, y: nat) {
    forall i: nat :: Bit(y, i) == AnyBit(x, i, n)
  }

  lemma SmearStep(x: nat, n: nat, y: nat)
    requires Smeared(x, n, y)
    ensures Smeared(x, 2 * n, Or(y, Shr(y, n)))
  {
    forall i: nat ensures Bit(Or(y, Shr(y, n)), i) == AnyBit(x, i, 2 * n) {
      OrBits(y, Shr(y, n), i);
      ShrBits(y, n, i);
      AnyBitSplit(x, i, n, n);
    }
  }

  lemma {:induction false} NoHighBits(x: nat, w: nat, i: nat)
    requires x < Pow2(w) && i >= w
    ensures !Bit(x, i)
    decreases i
  {
    if i > 0 {
      if w == 0 {
        NoHighBits(0, 0, i - 1);
      } else {
        NoHighBits(x / 2, w - 1, i - 1);
      }
    }
  }

  lemma {:induction false} NoBitsNoValue(x: nat)
    requires forall i: nat :: !Bit(x, i)
    ensures x == 0
  {
    if x != 0 {
      assert !Bit(x, 0);
      forall i: nat ensures !Bit(x / 2, i) {
        assert !Bit(x, i + 1);
      }
      NoBitsNoValue(x / 2);
    }
  }

  /** A number whose bits are set downwards from the top is a mask. */
  lemma {:induction false} DownwardIsMask(y: nat)
    requires forall i: nat :: Bit(y, i + 1) ==> Bit(y, i)
    ensures IsMask(y)
  {
    if y != 0 {
      if y % 2 == 0 {
        forall i: nat ensures !Bit(y, i) {
          NoBitAbove(y, i);
        }
        NoBitsNoValue(y);
      }
      forall i: nat ensures Bit(y / 2, i + 1) ==> Bit(y / 2, i) {
        assert Bit(y, i + 2) ==> Bit(y, i + 1);
      }
      DownwardIsMask(y / 2);
    }
  }

  lemma {:induction false} NoBitAbove(y: nat, i: nat)
    requires !Bit(y, 0) && forall k: nat :: Bit(y, k + 1) ==> Bit(y, k)
    ensures !Bit(y, i)
    decreases i
  {
    if i > 0 {
      NoBitAbove(y, i - 1);
    }
  }

  lemma SmearedIsMask(x: nat, y: nat)
    requires x < Pow2(64) && Smeared(x, 64, y)
    ensures IsMask(y)
  {
    forall i: nat ensures Bit(y, i + 1) ==> Bit(y, i) {
      AnyBitSplit(x, i, 1, 64);
      AnyBitSplit(x, i, 64, 1);
      NoHighBits(x, 64, i + 64);
      assert AnyBit(x, i + 64, 1) == Bit(x, i + 64);
    }
    DownwardIsMask(y);
  }

  /** The mask for a given number of nodes on a 64-bit machine: one less than a power of two, at least half the
      number of nodes, and never 1. */
  method CalcMask(capacity: nat) returns (mask: nat)
    requires capacity < Pow2(64)
    ensures IsMask(mask) && mask >= capacity / 2 && mask != 1
  {
    ghost var x := capacity / 2;
    mask := capacity / 2;
    assert Smeared(x, 1, mask);
    SmearStep(x, 1, mask);
    OrGrows(mask, Shr(mask, 1));
    mask := Or(mask, Shr(mask, 1));
    SmearStep(x, 2, mask);
    OrGrows(mask, Shr(mask, 2));
    mask := Or(mask, Shr(mask, 2));
    SmearStep(x, 4, mask);
    OrGrows(mask, Shr(mask, 4));
    mask := Or(mask, Shr(mask, 4));
    SmearStep(x, 8, mask);
    OrGrows(mask, Shr(mask, 8));
    mask := Or(mask, Shr(mask, 8));
    SmearStep(x, 16, mask);
    OrGrows(mask, Shr(mask, 16));
    mask := Or(mask, Shr(mask, 16));
    SmearStep(x, 32, mask);
    OrGrows(mask, Shr(mask, 32));
    mask := Or(mask, Shr(mask, 32));
    SmearedIsMask(x, mask);
    TwoBits(mask);
    mask := Or(mask, 2 * And(mask, 1));
  }

  lemma TwoBits(mask: nat)
    requires IsMask(mask)
    ensures Or(mask, 2 * And(mask, 1)) == if mask == 1 then 3 else mask
  {
    assert And(mask, 1) == mask % 2;
    OrZero(mask / 2 / 2);
    if mask % 2 == 0 {
      OrZero(mask);
    }
  }

  lemma {:induction false} OrZero(x: nat)
    ensures Or(x, 0) == x
  {
    if x != 0 {
      OrZero(x / 2);
    }
  }
}
