/**
 * Bitwise operations on unsigned integers, defined arithmetically bit by
 * bit: Go's `|`, `&^` and `&` on the uint32 type, flag and mask fields of
 * an ACE. `Bit(x, k)` is bit k of x (the bit of weight 2^k).
 */
module Bits {
  import opened Wire

  /** 2 to the power k. */
  function Pow2(k: nat): (r: nat)
    ensures r >= 1
  {
    if k == 0 then 1 else 2 * Pow2(k - 1)
  }

  /** Bit k of x. */
  function Bit(x: nat, k: nat): bool
    decreases k
  {
    if k == 0 then x % 2 == 1 else Bit(x / 2, k - 1)
  }

  /** Go's `a | b`. */
  function Or(a: nat, b: nat): nat
    decreases a + b
  {
    if a == 0 then b
    else if b == 0 then a
    else 2 * Or(a / 2, b / 2) + (if a % 2 == 1 || b % 2 == 1 then 1 else 0)
  }

  /** Go's `a &^ b` (AND NOT). */
  function AndNot(a: nat, b: nat): nat
    decreases a
  {
    if a == 0 then 0
    else 2 * AndNot(a / 2, b / 2) + (if a % 2 == 1 && b % 2 == 0 then 1 else 0)
  }

  /** Go's `a & b`. */
  function And(a: nat, b: nat): nat
    decreases a
  {
    if a == 0 then 0
    else 2 * And(a / 2, b / 2) + (if a % 2 == 1 && b % 2 == 1 then 1 else 0)
  }

  /** Zero has no bit set. */
  lemma BitOfZero(k: nat)
    ensures !Bit(0, k)
  {
  }

  /** The lowest set bit of a positive number. */
  function LowestBit(x: nat): (k: nat)
    requires x > 0
    ensures Bit(x, k)
    ensures forall j :: 0 <= j < k ==> !Bit(x, j)
    decreases x
  {
    if x % 2 == 1 then 0
    else
      var k := 1 + LowestBit(x / 2);
      assert forall j :: 0 < j < k ==> Bit(x, j) == Bit(x / 2, j - 1);
      k
  }

  /** Two numbers with the same bits are equal. */
  lemma {:induction false} BitsEqual(a: nat, b: nat)
    requires forall k :: Bit(a, k) == Bit(b, k)
    ensures a == b
    decreases a + b
  {
    if a == 0 && b == 0 {
    } else if a == 0 {
      BitOfZero(LowestBit(b));
    } else if b == 0 {
      BitOfZero(LowestBit(a));
    } else {
      forall k: nat
        ensures Bit(a / 2, k) == Bit(b / 2, k)
      {
        assert Bit(a, k + 1) == Bit(b, k + 1);
      }
      BitsEqual(a / 2, b / 2);
      assert Bit(a, 0) == Bit(b, 0);
    }
  }

  /** Bit k of `Or(a, b)` is set exactly when it is set in a or in b. */
  lemma {:induction false} BitOr(a: nat, b: nat)
    ensures forall k :: Bit(Or(a, b), k) == (Bit(a, k) || Bit(b, k))
    decreases a + b
  {
    if a == 0 {
      forall k: nat
        ensures !Bit(a, k)
      {
        BitOfZero(k);
      }
    } else if b == 0 {
      forall k: nat
        ensures !Bit(b, k)
      {
        BitOfZero(k);
      }
    } else {
      BitOr(a / 2, b / 2);
      forall k: nat
        ensures Bit(Or(a, b), k) == (Bit(a, k) || Bit(b, k))
      {
        if k > 0 {
          assert Bit(Or(a, b), k) == Bit(Or(a / 2, b / 2), k - 1);
        }
      }
    }
  }

  /** Bit k of `AndNot(a, b)` is set exactly when it is set in a and clear in b. */
  lemma {:induction false} BitAndNot(a: nat, b: nat)
    ensures forall k :: Bit(AndNot(a, b), k) == (Bit(a, k) && !Bit(b, k))
    decreases a
  {
    if a == 0 {
      forall k: nat
        ensures !Bit(a, k)
      {
        BitOfZero(k);
      }
    } else {
      BitAndNot(a / 2, b / 2);
      forall k: nat
        ensures Bit(AndNot(a, b), k) == (Bit(a, k) && !Bit(b, k))
      {
        if k > 0 {
          assert Bit(AndNot(a, b), k) == Bit(AndNot(a / 2, b / 2), k - 1);
        }
      }
    }
  }

  /** Bit k of `And(a, b)` is set exactly when it is set in both a and b. */
  lemma {:induction false} BitAnd(a: nat, b: nat)
    ensures forall k :: Bit(And(a, b), k) == (Bit(a, k) && Bit(b, k))
    decreases a
  {
    if a == 0 {
      forall k: nat
        ensures !Bit(a, k)
      {
        BitOfZero(k);
      }
    } else {
      BitAnd(a / 2, b / 2);
      forall k: nat
        ensures Bit(And(a, b), k) == (Bit(a, k) && Bit(b, k))
      {
        if k > 0 {
          assert Bit(And(a, b), k) == Bit(And(a / 2, b / 2), k - 1);
        }
      }
    }
  }

  /** Bit k of `Pow2(j)` is set exactly when k is j. */
  lemma {:induction false} BitOfPow2(j: nat, k: nat)
    ensures Bit(Pow2(j), k) == (j == k)
    decreases j
  {
    if j == 0 {
      if k > 0 {
        BitOfZero(k - 1);
      }
    } else if k == 0 {
    } else {
      BitOfPow2(j - 1, k - 1);
    }
  }

  /** Or of two numbers below 2^n is below 2^n. */
  lemma {:induction false} OrBelow(a: nat, b: nat, n: nat)
    requires a < Pow2(n) && b < Pow2(n)
    ensures Or(a, b) < Pow2(n)
    decreases a + b
  {
    if a != 0 && b != 0 {
      OrBelow(a / 2, b / 2, n - 1);
    }
  }

  /** And-not never exceeds its first operand. */
  lemma {:induction false} AndNotAtMost(a: nat, b: nat)
    ensures AndNot(a, b) <= a
    decreases a
  {
    if a != 0 {
      AndNotAtMost(a / 2, b / 2);
    }
  }

  /** 2^32 is the uint32 limit. */
  lemma Pow2Of32()
    ensures Pow2(32) == UINT32_LIMIT
  {
    assert Pow2(8) == 0x100;
    assert Pow2(16) == 0x1_0000;
    assert Pow2(24) == 0x100_0000;
  }

  /**
   * Go's `value | bits` on uint32: every bit of `bits` becomes set and
   * every other bit keeps its value from `value`.
   */
  function SetBits(value: uint32, bits: uint32): (r: uint32)
    ensures forall k :: Bit(r, k) == (Bit(value, k) || Bit(bits, k))
  {
    Pow2Of32();
    OrBelow(value, bits, 32);
    BitOr(value, bits);
    Or(value, bits)
  }

  /**
   * Go's `value &^ bits` on uint32: every bit of `bits` becomes clear and
   * every other bit keeps its value from `value`.
   */
  function ClearBits(value: uint32, bits: uint32): (r: uint32)
    ensures forall k :: Bit(r, k) == (Bit(value, k) && !Bit(bits, k))
  {
    AndNotAtMost(value, bits);
    BitAndNot(value, bits);
    AndNot(value, bits)
  }

  /** Go's test `x & Pow2(k) != 0`: whether bit k of x is set. */
  function HasBit(x: nat, k: nat): (r: bool)
    ensures r == Bit(x, k)
  {
    BitAnd(x, Pow2(k));
    BitOfPow2(k, k);
    if And(x, Pow2(k)) == 0 then
      BitOfZero(k);
      false
    else
      var j := LowestBit(And(x, Pow2(k)));
      BitOfPow2(k, j);
      true
  }

  /** Setting the same bits twice is setting them once; likewise clearing. */
  lemma BitOpsIdempotent(value: uint32, bits: uint32)
    ensures SetBits(SetBits(value, bits), bits) == SetBits(value, bits)
    ensures ClearBits(ClearBits(value, bits), bits) == ClearBits(value, bits)
  {
    BitsEqual(SetBits(SetBits(value, bits), bits), SetBits(value, bits));
    BitsEqual(ClearBits(ClearBits(value, bits), bits), ClearBits(value, bits));
  }

  /** Clearing after setting the same bits is clearing them; setting after clearing is setting. */
  lemma BitOpsAbsorb(value: uint32, bits: uint32)
    ensures ClearBits(SetBits(value, bits), bits) == ClearBits(value, bits)
    ensures SetBits(ClearBits(value, bits), bits) == SetBits(value, bits)
  {
    BitsEqual(ClearBits(SetBits(value, bits), bits), ClearBits(value, bits));
    BitsEqual(SetBits(ClearBits(value, bits), bits), SetBits(value, bits));
  }

  /** And-not with nothing to clear keeps every bit. */
  lemma {:induction false} AndNotNothing(a: nat)
    ensures AndNot(a, 0) == a
    decreases a
  {
    if a != 0 {
      AndNotNothing(a / 2);
    }
  }

  /** The worked example of `applyAccessMask` in nfs4_ace.go: 00110101 | 00000011. */
  lemma SetBitsExample()
    ensures SetBits(0x35, 0x03) == 0x37
  {
    assert Or(0x1A, 0x01) == 2 * Or(0x0D, 0) + 1 == 0x1B;
    assert Or(0x35, 0x03) == 2 * Or(0x1A, 0x01) + 1;
  }

  /** The worked example of `removeAccessMask` in nfs4_ace.go: 00110101 &^ 00000011. */
  lemma ClearBitsExample()
    ensures ClearBits(0x35, 0x03) == 0x34
  {
    AndNotNothing(0x0D);
    assert AndNot(0x1A, 0x01) == 2 * AndNot(0x0D, 0) == 0x1A;
    assert AndNot(0x35, 0x03) == 2 * AndNot(0x1A, 0x01);
  }
}
