/** Bitmasks as unsigned numbers, and the sets of positions they stand for. */
module Bits {
  type u8 = x: int | 0 <= x < 0x100
  type u16 = x: int | 0 <= x < 0x1_0000
  type u32 = x: int | 0 <= x < 0x1_0000_0000

  /** The bitwise operators on unsigned numbers. */
  function And(a: nat, b: nat): nat {
    if a == 0 then 0 else (if a % 2 == 1 && b % 2 == 1 then 1 else 0) + 2 * And(a / 2, b / 2)
  }

  function Or(a: nat, b: nat): nat {
    if a == 0 then b
    else (if a % 2 == 1 || b % 2 == 1 then 1 else 0) + 2 * Or(a / 2, b / 2)
  }

  /** `a & ~b`. */
  function AndNot(a: nat, b: nat): nat {
    if a == 0 then 0
    else (if a % 2 == 1 && b % 2 == 0 then 1 else 0) + 2 * AndNot(a / 2, b / 2)
  }

  /** `x << w`. */
  function Shl(x: nat, w: nat): nat {
    if w == 0 then x else 2 * Shl(x, w - 1)
  }

  /** `x >> w`. */
  function Shr(x: nat, w: nat): nat {
    if w == 0 then x else Shr(x / 2, w - 1)
  }

  /** `1 << n`. */
  function Bit(n: nat): (b: nat)
    ensures b > 0
  {
    if n == 0 then 1 else 2 * Bit(n - 1)
  }

  predicate HasBit(mask: nat, n: nat) {
    if n == 0 then mask % 2 == 1 else HasBit(mask / 2, n - 1)
  }

  /** The positions of the bits that are set. */
  function BitSet(mask: nat): set<nat> {
    set n: nat | n < 32 && HasBit(mask, n)
  }

  // ---------------------------------------------------------------- Bits of combined masks

  lemma {:induction false} ZeroHasNoBit(n: nat)
    ensures !HasBit(0, n)
  {
    if n > 0 { ZeroHasNoBit(n - 1); }
  }

  lemma AndStep(a: nat, b: nat)
    ensures And(a, b) == (if a % 2 == 1 && b % 2 == 1 then 1 else 0) + 2 * And(a / 2, b / 2)
  {
  }

  lemma {:induction false} BitOfAnd(a: nat, b: nat, n: nat)
    ensures HasBit(And(a, b), n) <==> HasBit(a, n) && HasBit(b, n)
  {
    if a == 0 {
      ZeroHasNoBit(n);
    } else if n > 0 {
      BitOfAnd(a / 2, b / 2, n - 1);
    }
  }

  lemma {:induction false} BitOfOr(a: nat, b: nat, n: nat)
    ensures HasBit(Or(a, b), n) <==> HasBit(a, n) || HasBit(b, n)
  {
    if a == 0 {
      ZeroHasNoBit(n);
    } else if n > 0 {
      BitOfOr(a / 2, b / 2, n - 1);
    }
  }

  lemma {:induction false} BitOfAndNot(a: nat, b: nat, n: nat)
    ensures HasBit(AndNot(a, b), n) <==> HasBit(a, n) && !HasBit(b, n)
  {
    if a == 0 {
      ZeroHasNoBit(n);
    } else if n > 0 {
      BitOfAndNot(a / 2, b / 2, n - 1);
    }
  }

  lemma {:induction false} BitOfBit(k: nat, n: nat)
    ensures HasBit(Bit(k), n) <==> n == k
  {
    if k == 0 {
      if n > 0 { ZeroHasNoBit(n - 1); }
    } else if n > 0 {
      BitOfBit(k - 1, n - 1);
    }
  }

  /** A mask of `w` bits has no bit at or above `w`. */
  lemma {:induction false} NoBitAbove(mask: nat, w: nat, n: nat)
    requires mask < Bit(w) && n >= w
    ensures !HasBit(mask, n)
  {
    if w == 0 {
      ZeroHasNoBit(n);
    } else {
      NoBitAbove(mask / 2, w - 1, n - 1);
    }
  }

  lemma {:induction false} AllOnes(w: nat, n: nat)
    requires n < w
    ensures HasBit(Bit(w) - 1, n)
  {
    if n > 0 { AllOnes(w - 1, n - 1); }
  }

  /** Masks with the same bits are the same mask. */
  lemma {:induction false} BitsDetermineMask(a: nat, b: nat, w: nat)
    requires a < Bit(w) && b < Bit(w)
    requires forall n: nat | n < w :: HasBit(a, n) <==> HasBit(b, n)
    ensures a == b
  {
    if w > 0 {
      assert HasBit(a, 0) <==> HasBit(b, 0);
      forall n: nat | n < w - 1
        ensures HasBit(a / 2, n) <==> HasBit(b / 2, n)
      {
        assert HasBit(a, n + 1) <==> HasBit(b, n + 1);
      }
      BitsDetermineMask(a / 2, b / 2, w - 1);
    }
  }

  lemma {:induction false} ResultsFit(a: nat, b: nat, w: nat)
    requires a < Bit(w) && b < Bit(w)
    ensures And(a, b) < Bit(w) && Or(a, b) < Bit(w) && AndNot(a, b) <= a
    decreases w
  {
    if w > 0 { ResultsFit(a / 2, b / 2, w - 1); }
  }

  lemma Widths()
    ensures Bit(8) == 0x100 && Bit(16) == 0x1_0000 && Bit(32) == 0x1_0000_0000
  {
    assert Bit(4) == 0x10;
    assert Bit(8) == 0x100;
    assert Bit(12) == 0x1000;
    assert Bit(16) == 0x1_0000;
    assert Bit(20) == 0x10_0000;
    assert Bit(24) == 0x100_0000;
    assert Bit(28) == 0x1000_0000;
  }

  lemma {:induction false} BitFits(n: nat, w: nat)
    requires n < w
    ensures Bit(n) < Bit(w)
  {
    if n > 0 { BitFits(n - 1, w - 1); }
  }

  // ---------------------------------------------------------------- Masks as sets

  /** Each operator on masks is the operator on the sets of positions. */
  lemma MaskOperators(a: u32, b: u32)
    ensures BitSet(And(a, b)) == BitSet(a) * BitSet(b)
    ensures BitSet(Or(a, b)) == BitSet(a) + BitSet(b)
    ensures BitSet(AndNot(a, b)) == BitSet(a) - BitSet(b)
    ensures And(a, b) < 0x1_0000_0000 && Or(a, b) < 0x1_0000_0000 && AndNot(a, b) <= a
  {
    Widths();
    ResultsFit(a, b, 32);
    forall n: nat
      ensures HasBit(And(a, b), n) <==> HasBit(a, n) && HasBit(b, n)
      ensures HasBit(Or(a, b), n) <==> HasBit(a, n) || HasBit(b, n)
      ensures HasBit(AndNot(a, b), n) <==> HasBit(a, n) && !HasBit(b, n)
    {
      BitOfAnd(a, b, n);
      BitOfOr(a, b, n);
      BitOfAndNot(a, b, n);
    }
  }

  lemma SingleBit(n: nat)
    requires n < 32
    ensures Bit(n) < 0x1_0000_0000 && BitSet(Bit(n)) == {n}
  {
    Widths();
    BitFits(n, 32);
    forall k: nat ensures HasBit(Bit(n), k) <==> k == n { BitOfBit(n, k); }
  }

  lemma SameSetSameMask(a: u32, b: u32)
    requires BitSet(a) == BitSet(b)
    ensures a == b
  {
    Widths();
    forall n: nat | n < 32
      ensures HasBit(a, n) <==> HasBit(b, n)
    {
      assert n in BitSet(a) <==> n in BitSet(b);
    }
    BitsDetermineMask(a, b, 32);
  }

  lemma EmptyMask(a: u32)
    ensures BitSet(a) == {} <==> a == 0
  {
    forall n: nat ensures !HasBit(0, n) { ZeroHasNoBit(n); }
    if BitSet(a) == {} { SameSetSameMask(a, 0); }
  }

  /** `mask & (1 << n)` is non-zero exactly when position `n` is in the mask. */
  lemma TestBit(mask: u32, n: nat)
    requires n < 32
    ensures And(mask, Bit(n)) != 0 <==> n in BitSet(mask)
  {
    SingleBit(n);
    MaskOperators(mask, Bit(n));
    EmptyMask(And(mask, Bit(n)));
  }

  /** `a & b == b` says that every position of `b` is in `a`. */
  lemma SupersetTest(a: u32, b: u32)
    ensures And(a, b) == b <==> BitSet(b) <= BitSet(a)
  {
    MaskOperators(a, b);
    if BitSet(b) <= BitSet(a) { SameSetSameMask(And(a, b), b); }
  }
}
