/** Bitwise operations on bytes, defined bit by bit from the least significant. */
module Bits {
  import opened Bytes

  function Pow2(n: nat): nat {
    if n == 0 then 1 else 2 * Pow2(n - 1)
  }

  /** Bit `i` of `x`, counting from the least significant. */
  function LowBit(x: nat, i: nat): nat {
    if i == 0 then x % 2 else LowBit(x / 2, i - 1)
  }

  function XorN(a: nat, b: nat, n: nat): (r: nat)
    ensures r < Pow2(n)
  {
    if n == 0 then 0 else (if a % 2 == b % 2 then 0 else 1) + 2 * XorN(a / 2, b / 2, n - 1)
  }

  function AndN(a: nat, b: nat, n: nat): (r: nat)
    ensures r < Pow2(n)
  {
    if n == 0 then 0 else (if a % 2 == 1 && b % 2 == 1 then 1 else 0) + 2 * AndN(a / 2, b / 2, n - 1)
  }

  function Xor(a: byte, b: byte): byte {
    assert Pow2(8) == 0x100;
    XorN(a, b, 8)
  }

  function And(a: byte, b: byte): byte {
    assert Pow2(8) == 0x100;
    AndN(a, b, 8)
  }

  /** Bit `j` of a byte counting from the most significant, the order in which leading zeros are counted. */
  function Bit(b: byte, j: nat): nat
    requires j < 8
  {
    LowBit(b, 7 - j)
  }

  /** `0xff >> k`. */
  function OnesShifted(k: nat): byte
    requires k < 8
  {
    [255, 127, 63, 31, 15, 7, 3, 1][k]
  }

  lemma {:induction false} XorNBit(a: nat, b: nat, n: nat, i: nat)
    requires i < n
    ensures LowBit(XorN(a, b, n), i) == (LowBit(a, i) + LowBit(b, i)) % 2
  {
    if i == 0 {
    } else {
      XorNBit(a / 2, b / 2, n - 1, i - 1);
    }
  }

  lemma {:induction false} AndNBit(a: nat, b: nat, n: nat, i: nat)
    requires i < n
    ensures LowBit(AndN(a, b, n), i) == if LowBit(a, i) == 1 && LowBit(b, i) == 1 then 1 else 0
  {
    if i == 0 {
    } else {
      AndNBit(a / 2, b / 2, n - 1, i - 1);
    }
  }

  lemma {:induction false} XorNCancels(a: nat, b: nat, m: nat, n: nat)
    requires a < Pow2(n) && b < Pow2(n) && XorN(a, m, n) == XorN(b, m, n)
    ensures a == b
  {
    if n == 0 {
    } else {
      XorNCancels(a / 2, b / 2, m / 2, n - 1);
    }
  }

  lemma {:induction false} XorNZero(a: nat, n: nat)
    requires a < Pow2(n)
    ensures XorN(a, 0, n) == a
  {
    if n == 0 {
    } else {
      XorNZero(a / 2, n - 1);
    }
  }

  lemma XorCancels(a: byte, b: byte, m: byte)
    requires Xor(a, m) == Xor(b, m)
    ensures a == b
  {
    assert Pow2(8) == 0x100;
    XorNCancels(a, b, m, 8);
  }

  lemma XorZero(a: byte)
    ensures Xor(a, 0) == a
  {
    assert Pow2(8) == 0x100;
    XorNZero(a, 8);
  }

  /** Exclusive or adds bits modulo 2. */
  lemma XorBit(a: byte, b: byte, j: nat)
    requires j < 8
    ensures Bit(Xor(a, b), j) == (Bit(a, j) + Bit(b, j)) % 2
  {
    XorNBit(a, b, 8, 7 - j);
  }

  /** Where the mask has a zero bit, the other operand's bit goes through unchanged. */
  lemma XorKeepsBit(a: byte, m: byte, j: nat)
    requires j < 8 && Bit(m, j) == 0
    ensures Bit(Xor(a, m), j) == Bit(a, j)
  {
    XorNBit(a, m, 8, 7 - j);
    BitIsBinary(a, 7 - j);
  }

  lemma {:induction false} BitIsBinary(x: nat, i: nat)
    ensures LowBit(x, i) < 2
  {
    if i == 0 {
    } else {
      BitIsBinary(x / 2, i - 1);
    }
  }

  lemma OnesShiftedBits(k: nat, j: nat)
    requires k < 8 && j < 8
    ensures Bit(OnesShifted(k), j) == if j < k then 0 else 1
  {
    var v := OnesShifted(k);
    BitsOf(k, 7 - j);
  }

  lemma {:induction false} BitsOf(k: nat, i: nat)
    requires k < 8 && i < 8
    ensures LowBit(OnesShifted(k), i) == if i < 8 - k then 1 else 0
    decreases 8 - k, i
  {
    if i == 0 {
    } else {
      if k < 7 {
        assert OnesShifted(k) / 2 == OnesShifted(k + 1);
        BitsOf(k + 1, i - 1);
      } else {
        assert OnesShifted(k) / 2 == 0;
        ZeroBits(i - 1);
      }
    }
  }

  lemma {:induction false} ZeroBits(i: nat)
    ensures LowBit(0, i) == 0
  {
    if i == 0 {
    } else {
      ZeroBits(i - 1);
    }
  }

  /** `b & (0xff >> k)` clears the k leading bits and keeps the rest. */
  lemma AndClearsLeadingBits(b: byte, k: nat, j: nat)
    requires k < 8 && j < 8
    ensures Bit(And(b, OnesShifted(k)), j) == if j < k then 0 else Bit(b, j)
  {
    AndNBit(b, OnesShifted(k), 8, 7 - j);
    OnesShiftedBits(k, j);
    BitIsBinary(b, 7 - j);
  }
}
