/**
 * Octets as the servers handle them: a Java `byte` read through `& 0xFF`, so a value in
 * 0..255, with the few bit operations the frame code applies to it written as arithmetic.
 */
module Bytes {
  newtype byte = x: int | 0 <= x < 0x100

  /** `(b & 0x80) != 0`: bit 7, FIN in the first byte of a frame and MASK in the second. */
  predicate HighBit(b: byte) {
    b >= 0x80
  }

  /** `b & 0x0F`: the low four bits, the opcode in the first byte of a frame. */
  function Low4(b: byte): byte {
    b % 0x10
  }

  /** `b & 0x7F`: the low seven bits, the payload length code in the second byte. */
  function Low7(b: byte): byte {
    b % 0x80
  }

  /** `n & 0xFF`, and what OutputStream.write(int) keeps of its argument: the one byte congruent to `n` modulo 256. */
  function Low(n: int): (r: byte)
    ensures (n - r as int) % 0x100 == 0
  {
    (n % 0x100) as byte
  }

  /** A 16-bit number is its high byte, shifted by eight, plus its low byte: the two bytes of a medium frame's length. */
  lemma LowSplit(n: int)
    requires 0 <= n < 0x10000
    ensures Low(n / 0x100) as int < 0x100 && n == Low(n / 0x100) as int * 0x100 + Low(n) as int
  {
  }

  /** 2 to the power `k`: every `k`-bit number lies below it. */
  function Pow2(k: nat): (r: nat)
    ensures r >= 1
  {
    if k == 0 then 1 else 2 * Pow2(k - 1)
  }

  /** The exclusive or of the low `k` bits of `a` and `b`, lowest bit first. */
  function XorBits(a: nat, b: nat, k: nat): (r: nat)
    ensures r < Pow2(k)
    decreases k
  {
    if k == 0 then 0 else (a + b) % 2 + 2 * XorBits(a / 2, b / 2, k - 1)
  }

  /** `a ^ b` on two bytes. */
  function Xor(a: byte, b: byte): byte {
    assert Pow2(8) == 0x100;
    XorBits(a as nat, b as nat, 8) as byte
  }

  /** A low bit and the rest: the two halves of `r + 2 * y`. */
  lemma Halves(r: nat, y: nat)
    requires r < 2
    ensures (r + 2 * y) % 2 == r && (r + 2 * y) / 2 == y
  {
  }

  /** Adding `b` twice leaves the parity of `a`. */
  lemma Parity(a: nat, b: nat, x: nat)
    requires x % 2 == (a + b) % 2
    ensures (x + b) % 2 == a % 2
  {
  }

  /** A number is its low bit plus twice the rest; below `2 * p`, the rest is below `p`. */
  lemma Rebuild(a: nat, p: nat)
    requires a < 2 * p
    ensures a == a % 2 + 2 * (a / 2) && a / 2 < p
  {
  }

  /** Xor-ing twice with the same bits gives back the original bits. */
  lemma {:induction false} XorBitsTwice(a: nat, b: nat, k: nat)
    requires a < Pow2(k)
    ensures XorBits(XorBits(a, b, k), b, k) == a
    decreases k
  {
    if k > 0 {
      var y := XorBits(a / 2, b / 2, k - 1);
      var x := XorBits(a, b, k);
      assert x == (a + b) % 2 + 2 * y;
      Halves((a + b) % 2, y);
      Rebuild(a, Pow2(k - 1));
      XorBitsTwice(a / 2, b / 2, k - 1);
      Parity(a, b, x);
      var z := XorBits(x, b, k);
      assert z == (x + b) % 2 + 2 * XorBits(x / 2, b / 2, k - 1);
      assert XorBits(x / 2, b / 2, k - 1) == a / 2;
      assert z == a % 2 + 2 * (a / 2);
    }
  }

  /** Xor-ing zero bits with `b` gives `b`. */
  lemma {:induction false} XorBitsZero(b: nat, k: nat)
    requires b < Pow2(k)
    ensures XorBits(0, b, k) == b
    decreases k
  {
    if k > 0 {
      Rebuild(b, Pow2(k - 1));
      XorBitsZero(b / 2, k - 1);
      assert XorBits(0, b, k) == b % 2 + 2 * XorBits(0, b / 2, k - 1);
    }
  }

  /** A zero byte xor-ed with a key byte is the key byte. */
  lemma XorZero(b: byte)
    ensures Xor(0, b) == b
  {
    assert Pow2(8) == 0x100;
    XorBitsZero(b as nat, 8);
  }

  /** Xor with a key byte is undone by xor with the same byte. */
  lemma XorTwice(a: byte, b: byte)
    ensures Xor(Xor(a, b), b) == a
  {
    assert Pow2(8) == 0x100;
    XorBitsTwice(a as nat, b as nat, 8);
  }
}
