/** Bytes, their unsigned big-endian reading, and the bitwise exclusive or of two bytes. */
module Octets {

  /** A `u8`. */
  type byte = x: int | 0 <= x < 256

  /** 256 to the power n. */
  function Pow256(n: nat): (p: nat)
    ensures p >= 1
  {
    if n == 0 then 1 else 256 * Pow256(n - 1)
  }

  lemma MulMonotone(a: nat, b: nat, c: nat)
    requires a <= b
    ensures a * c <= b * c
  {
  }

  /** The unsigned big-endian integer a byte string stands for: `u16::from_be_bytes` on two bytes,
      the 160-bit reading of a node id on twenty. */
  function BeValue(s: seq<byte>): (v: nat)
    ensures v < Pow256(|s|)
  {
    if s == [] then 0
    else
      var rest := BeValue(s[1..]);
      MulMonotone(s[0] as int + 1, 256, Pow256(|s| - 1));
      s[0] as int * Pow256(|s| - 1) + rest
  }

  /** Two bytes read big-endian: the high byte counts 256 times. */
  lemma BeValuePair(hi: byte, lo: byte)
    ensures BeValue([hi, lo]) == hi as int * 256 + lo
  {
    assert [hi, lo][1..] == [lo];
    assert [lo][1..] == [];
  }

  lemma DivModPair(hi: byte, lo: byte)
    ensures (hi as int * 256 + lo) / 256 == hi && (hi as int * 256 + lo) % 256 == lo
  {
  }

  /** 2 to the power n. */
  function Pow2(n: nat): (p: nat)
    ensures p >= 1
  {
    if n == 0 then 1 else 2 * Pow2(n - 1)
  }

  /** The exclusive or of the low `n` bits of `a` and `b`, lowest bit first. */
  function XorBits(a: nat, b: nat, n: nat): (x: nat)
    ensures x < Pow2(n)
  {
    if n == 0 then 0
    else (if a % 2 == b % 2 then 0 else 1) + 2 * XorBits(a / 2, b / 2, n - 1)
  }

  /** `^` on two `u8`s: the mask that turns either operand into the other, zero only for equal
      operands. */
  function ByteXor(a: byte, b: byte): (x: byte)
    ensures XorBits(a, x, 8) == b && XorBits(b, x, 8) == a
    ensures x == 0 <==> a == b
  {
    assert Pow2(8) == 256;
    XorBitsCancels(a, b, 8);
    XorBitsSymmetric(a, b, 8);
    XorBitsCancels(b, a, 8);
    XorBitsZeroIff(a, b, 8);
    XorBits(a, b, 8)
  }

  lemma {:induction false} XorBitsSymmetric(a: nat, b: nat, n: nat)
    ensures XorBits(a, b, n) == XorBits(b, a, n)
  {
    if n > 0 {
      XorBitsSymmetric(a / 2, b / 2, n - 1);
    }
  }

  /** Exclusive or with the same value undoes itself. */
  lemma {:induction false} XorBitsCancels(a: nat, b: nat, n: nat)
    requires b < Pow2(n)
    ensures XorBits(a, XorBits(a, b, n), n) == b
  {
    if n > 0 {
      var x := XorBits(a, b, n);
      var rest := XorBits(a / 2, b / 2, n - 1);
      assert x % 2 == (if a % 2 == b % 2 then 0 else 1) && x / 2 == rest;
      XorBitsCancels(a / 2, b / 2, n - 1);
    }
  }

  /** The exclusive or is zero exactly when the operands agree. */
  lemma {:induction false} XorBitsZeroIff(a: nat, b: nat, n: nat)
    requires a < Pow2(n) && b < Pow2(n)
    ensures XorBits(a, b, n) == 0 <==> a == b
  {
    if n > 0 {
      XorBitsZeroIff(a / 2, b / 2, n - 1);
    }
  }

  lemma ByteXorCancels(a: byte, b: byte)
    ensures ByteXor(a, ByteXor(a, b)) == b
  {
    assert Pow2(8) == 256;
    XorBitsCancels(a, b, 8);
  }

  lemma ByteXorZeroIff(a: byte, b: byte)
    ensures ByteXor(a, b) == 0 <==> a == b
  {
    assert Pow2(8) == 256;
    XorBitsZeroIff(a, b, 8);
  }

  lemma ByteXorSymmetric(a: byte, b: byte)
    ensures ByteXor(a, b) == ByteXor(b, a)
  {
    XorBitsSymmetric(a, b, 8);
  }
}
