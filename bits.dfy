/** The bitwise exclusive or of JavaScript's `^` operator, on the
    non-negative operands the userscript applies it to. */
module Bits {

  function Pow2(n: nat): (r: nat)
    ensures r >= 1
  {
    if n == 0 then 1 else 2 * Pow2(n - 1)
  }

  lemma {:induction false} Pow2Add(m: nat, n: nat)
    ensures Pow2(m + n) == Pow2(m) * Pow2(n)
  {
    if m > 0 {
      Pow2Add(m - 1, n);
    }
  }

  /** `a ^ b`, computed bit by bit from the least significant bit. */
  function Xor(a: nat, b: nat): nat
    decreases a + b
  {
    if a == 0 then b
    else if b == 0 then a
    else 2 * Xor(a / 2, b / 2) + (if a % 2 == b % 2 then 0 else 1)
  }

  /** The defining step of `Xor` holds for zero operands too. */
  lemma XorStep(a: nat, b: nat)
    ensures Xor(a, b) == 2 * Xor(a / 2, b / 2) + (if a % 2 == b % 2 then 0 else 1)
  {
  }

  /** Xor-ing twice with the same key gives the original value back. */
  lemma {:induction false} XorInvolutive(a: nat, k: nat)
    ensures Xor(Xor(a, k), k) == a
    decreases a + k
  {
    if a != 0 || k != 0 {
      var c := Xor(a, k);
      XorStep(a, k);
      assert c / 2 == Xor(a / 2, k / 2) && c % 2 == (if a % 2 == k % 2 then 0 else 1);
      XorStep(c, k);
      XorInvolutive(a / 2, k / 2);
    }
  }

  /** Xor of two n-bit values is an n-bit value. */
  lemma {:induction false} XorBound(a: nat, b: nat, n: nat)
    requires a < Pow2(n) && b < Pow2(n)
    ensures Xor(a, b) < Pow2(n)
  {
    XorStep(a, b);
    if n > 0 {
      XorBound(a / 2, b / 2, n - 1);
    }
  }

  /** Xor of two bytes is a byte; with a byte key, xor yields a byte exactly
      when the other operand is a byte. */
  lemma XorByte(a: nat, k: nat)
    requires k < 256
    ensures Xor(a, k) < 256 <==> a < 256
  {
    assert Pow2(8) == 256;
    if a < 256 {
      XorBound(a, k, 8);
    }
    if Xor(a, k) < 256 {
      XorBound(Xor(a, k), k, 8);
      XorInvolutive(a, k);
    }
  }

  /** Xor of two UTF-16 code units is a code unit. */
  lemma XorUnit(a: nat, b: nat)
    requires a < 0x1_0000 && b < 0x1_0000
    ensures Xor(a, b) < 0x1_0000
  {
    assert Pow2(8) == 256;
    assert Pow2(16) == 256 * 256 by { Pow2Add(8, 8); }
    XorBound(a, b, 16);
  }
}
