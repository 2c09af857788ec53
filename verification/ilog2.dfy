/** The bit-halving integer logarithm of the client library. */
module Logarithms {
  import opened Bits

  function Log2(x: nat): nat {
    if x <= 1 then 0 else 1 + Log2(x / 2)
  }

  /** `Log2` is the floor of the logarithm, and the index of the highest bit set. */
  lemma {:induction false} Log2IsFloor(x: nat)
    requires x > 0
    ensures Bit(Log2(x)) <= x < Bit(Log2(x) + 1)
    ensures HasBit(x, Log2(x)) && forall k | k > Log2(x) :: !HasBit(x, k)
  {
    if x > 1 { Log2IsFloor(x / 2); }
    forall k | k > Log2(x) ensures !HasBit(x, k) { NoBitAbove(x, Log2(x) + 1, k); }
  }

  lemma {:induction false} AndOnes(x: nat, k: nat)
    requires x < Bit(k)
    ensures And(x, Bit(k) - 1) == x
  {
    if k > 0 { AndOnes(x / 2, k - 1); }
  }

  /** Masking off the low `w` of `w + k` bits leaves zero exactly for numbers of `w` bits. */
  lemma {:induction false} HighBitsTest(x: nat, k: nat, w: nat)
    requires x < Bit(w + k)
    ensures And(x, Shl(Bit(k) - 1, w)) != 0 <==> x >= Bit(w)
  {
    if w == 0 {
      AndOnes(x, k);
    } else {
      AndStep(x, Shl(Bit(k) - 1, w));
      HighBitsTest(x / 2, k, w - 1);
    }
  }

  lemma {:induction false} ShiftLowersLog2(x: nat, k: nat, w: nat)
    requires x < Bit(w + k)
    ensures Shr(x, w) < Bit(k)
    ensures x >= Bit(w) ==> Shr(x, w) > 0 && Log2(x) == w + Log2(Shr(x, w))
  {
    if w > 0 { ShiftLowersLog2(x / 2, k, w - 1); }
  }

  lemma HalvingConstants()
    ensures Shl(Bit(16) - 1, 16) == 0xFFFF_0000 && Bit(16) == 0x1_0000 && Bit(32) == 0x1_0000_0000
    ensures Shl(Bit(8) - 1, 8) == 0xFF00 && Bit(8) == 0x100
    ensures Shl(Bit(4) - 1, 4) == 0xF0 && Bit(4) == 0x10
    ensures Shl(Bit(2) - 1, 2) == 0xC && Bit(2) == 4
    ensures Shl(Bit(1) - 1, 1) == 0x2 && Bit(1) == 2
  {
    Widths();
    assert Bit(4) == 0x10;
    assert Shl(0xFFFF, 4) == 0xF_FFF0;
    assert Shl(0xFFFF, 8) == 0xFF_FF00;
    assert Shl(0xFFFF, 12) == 0xFFF_F000;
    assert Shl(0xFF, 4) == 0xFF0;
  }

  /** The mask, shift distance and limit of one halving, as the code pairs them. */
  ghost predicate Halving(mask: nat, w: nat, limit: nat) {
    || (w == 16 && mask == 0xFFFF_0000 && limit == 0x1_0000)
    || (w == 8 && mask == 0xFF00 && limit == 0x100)
    || (w == 4 && mask == 0xF0 && limit == 0x10)
    || (w == 2 && mask == 0xC && limit == 4)
    || (w == 1 && mask == 0x2 && limit == 2)
  }

  /** One halving: when a bit of the mask is set, shift by `w` and count `w`. */
  method Halve(x: nat, ret: int, mask: nat, w: nat, ghost limit: nat) returns (y: nat, sum: int)
    requires Halving(mask, w, limit) && 0 < x < limit * limit
    ensures 0 < y < limit
    ensures sum + Log2(y) == ret + Log2(x)
  {
    HalvingConstants();
    assert Bit(w) == limit && Bit(w + w) == limit * limit && Shl(limit - 1, w) == mask;
    HighBitsTest(x, w, w);
    ShiftLowersLog2(x, w, w);
    if And(x, mask) != 0 {
      return Shr(x, w), ret + w;
    }
    return x, ret;
  }

  /** -1 for zero, otherwise the floor of the logarithm. */
  method ILog2F(arg: u32) returns (ret: int)
    ensures arg == 0 ==> ret == -1
    ensures arg != 0 ==> ret == Log2(arg) && ret >= 0 && Bit(ret) <= arg < Bit(ret + 1)
  {
    ret := 0;
    var x: nat := arg;
    if x == 0 { return -1; }
    Log2IsFloor(arg);
    x, ret := Halve(x, ret, 0xFFFF_0000, 16, 0x1_0000);
    x, ret := Halve(x, ret, 0x0000_FF00, 8, 0x100);
    x, ret := Halve(x, ret, 0x0000_00F0, 4, 0x10);
    x, ret := Halve(x, ret, 0x0000_000C, 2, 4);
    x, ret := Halve(x, ret, 0x0000_0002, 1, 2);
  }
}
