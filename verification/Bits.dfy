/** Bits of machine integers: shift, or, and, and what they do bit by bit. */
module Bits {
  import opened Bytes

  function Pow2(n: nat): (p: nat)
    ensures p > 0
  {
    if n == 0 then 1 else 2 * Pow2(n - 1)
  }

  /** Bit k, counted from the least significant one. */
  predicate Bit(x: nat, k: nat) {
    if k == 0 then x % 2 == 1 else Bit(x / 2, k - 1)
  }

  /** `<<` on 64 bits: what is shifted out is lost. */
  function Shl(v: u64, k: nat): u64 {
    (v * Pow2(k)) % 0x1_0000_0000_0000_0000
  }

  /** `|`. */
  function Or(a: nat, b: nat): nat {
    if a == 0 && b == 0 then 0 else
      2 * Or(a / 2, b / 2) + if a % 2 == 1 || b % 2 == 1 then 1 else 0
  }

  /** `&`. */
  function And(a: nat, b: nat): nat {
    if a == 0 || b == 0 then 0 else
      2 * And(a / 2, b / 2) + if a % 2 == 1 && b % 2 == 1 then 1 else 0
  }

  lemma {:induction false} ZeroHasNoBit(k: nat)
    ensures !Bit(0, k)
  {
    if k > 0 {
      ZeroHasNoBit(k - 1);
    }
  }

  lemma {:induction false} OrBits(a: nat, b: nat, k: nat)
    ensures Bit(Or(a, b), k) <==> Bit(a, k) || Bit(b, k)
  {
    if a == 0 && b == 0 {
      ZeroHasNoBit(k);
    } else {
      assert Or(a, b) / 2 == Or(a / 2, b / 2);
      if k > 0 {
        OrBits(a / 2, b / 2, k - 1);
      }
    }
  }

  lemma {:induction false} AndBits(a: nat, b: nat, k: nat)
    ensures Bit(And(a, b), k) <==> Bit(a, k) && Bit(b, k)
  {
    if a == 0 || b == 0 {
      ZeroHasNoBit(k);
    } else {
      assert And(a, b) / 2 == And(a / 2, b / 2);
      if k > 0 {
        AndBits(a / 2, b / 2, k - 1);
      }
    }
  }

  lemma {:induction false} AndAtMost(a: nat, b: nat)
    ensures And(a, b) <= b
  {
    if a > 0 && b > 0 {
      AndAtMost(a / 2, b / 2);
    }
  }

  lemma {:induction false} PowerHasOneBit(j: nat, k: nat)
    ensures Bit(Pow2(j), k) <==> j == k
  {
    if j == 0 {
      if k > 0 {
        ZeroHasNoBit(k - 1);
      }
    } else if k > 0 {
      PowerHasOneBit(j - 1, k - 1);
    }
  }

  lemma {:induction false} OrFits(a: nat, b: nat, n: nat)
    requires a < Pow2(n) && b < Pow2(n)
    ensures Or(a, b) < Pow2(n)
  {
    if n > 0 && !(a == 0 && b == 0) {
      OrFits(a / 2, b / 2, n - 1);
    }
  }

  /** A number below 2^n is its n bits. */
  lemma {:induction false} NumberByBits(a: nat, b: nat, n: nat)
    requires a < Pow2(n) && b < Pow2(n) && forall k | 0 <= k < n :: Bit(a, k) <==> Bit(b, k)
    ensures a == b
  {
    if n > 0 {
      forall k | 0 <= k < n - 1
        ensures Bit(a / 2, k) <==> Bit(b / 2, k)
      {
        assert Bit(a, k + 1) <==> Bit(b, k + 1);
      }
      NumberByBits(a / 2, b / 2, n - 1);
      assert Bit(a, 0) <==> Bit(b, 0);
    }
  }

  lemma {:induction false} OrZero(a: nat)
    ensures Or(a, 0) == a
  {
    if a > 0 {
      OrZero(a / 2);
    }
  }

  lemma Halves(e: nat, k: nat)
    requires k > 0
    ensures (e * Pow2(k)) / 2 == e * Pow2(k - 1) && (e * Pow2(k)) % 2 == 0
  {
    assert e * Pow2(k) == 2 * (e * Pow2(k - 1));
  }

  /** Numbers without a common bit: or is addition. */
  lemma {:induction false} OrIsSum(e: nat, s: nat, k: nat)
    requires s < Pow2(k)
    ensures Or(e * Pow2(k), s) == e * Pow2(k) + s
  {
    if k == 0 {
      OrZero(e);
    } else {
      Halves(e, k);
      OrIsSum(e, s / 2, k - 1);
      assert e * Pow2(k) == 2 * (e * Pow2(k - 1));
    }
  }

  // --------------------------------------------------------------------- bytes

  lemma ByteRange()
    ensures Pow2(8) == 0x100
  {
    assert Pow2(4) == 16 && Pow2(8) == 16 * Pow2(4);
  }

  predicate HasBit(b: u8, k: nat)
    requires k < 8
  {
    Bit(b, k)
  }

  /** `|= 1 << k` on a byte. */
  function SetBit(b: u8, k: nat): (r: u8)
    requires k < 8
  {
    ByteRange();
    PowerBelow(k, 8);
    OrFits(b, Pow2(k), 8);
    Or(b, Pow2(k))
  }

  lemma {:induction false} PowerBelow(k: nat, n: nat)
    requires k < n
    ensures Pow2(k) < Pow2(n)
  {
    if k < n - 1 {
      PowerBelow(k, n - 1);
    }
  }

  /** Setting a bit sets that bit and no other. */
  lemma SetBitExact(b: u8, k: nat, j: nat)
    requires k < 8 && j < 8
    ensures HasBit(SetBit(b, k), j) <==> j == k || HasBit(b, j)
  {
    OrBits(b, Pow2(k), j);
    PowerHasOneBit(k, j);
  }

  lemma NoBits(k: nat)
    requires k < 8
    ensures !HasBit(0, k)
  {
    ZeroHasNoBit(k);
  }

  /** A byte is its bits. */
  lemma ByBits(a: u8, b: u8)
    requires forall k | 0 <= k < 8 :: HasBit(a, k) <==> HasBit(b, k)
    ensures a == b
  {
    ByteRange();
    forall k | 0 <= k < 8
      ensures Bit(a, k) <==> Bit(b, k)
    {
      assert HasBit(a, k) <==> HasBit(b, k);
    }
    NumberByBits(a, b, 8);
  }
}
