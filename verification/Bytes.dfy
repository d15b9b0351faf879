/** Octets and the masking operation of section 5.3 of RFC 6455. */
module Bytes {
  type byte = x: int | 0 <= x < 256

  const NEWLINE: byte := 10

  /** Bitwise exclusive or, lowest bit first. */
  function XorNat(a: nat, b: nat): (r: nat)
    decreases a + b
  {
    if a == 0 && b == 0 then 0 else (if a % 2 == b % 2 then 0 else 1) + 2 * XorNat(a / 2, b / 2)
  }

  function Pow2(n: nat): nat { if n == 0 then 1 else 2 * Pow2(n - 1) }

  lemma {:induction false} XorFits(a: nat, b: nat, bits: nat)
    requires a < Pow2(bits) && b < Pow2(bits)
    ensures XorNat(a, b) < Pow2(bits)
    decreases bits
  {
    if bits != 0 { XorFits(a / 2, b / 2, bits - 1); }
  }

  /** Combining twice with the same mask is the identity. */
  lemma {:induction false} XorInvolution(a: nat, b: nat)
    ensures XorNat(XorNat(a, b), b) == a
    decreases a + b
  {
    if a != 0 || b != 0 {
      XorInvolution(a / 2, b / 2);
      assert XorNat(a, b) / 2 == XorNat(a / 2, b / 2);
    }
  }

  function Xor(a: byte, b: byte): byte {
    XorFits(a, b, 8);
    assert Pow2(8) == 256;
    XorNat(a, b)
  }
}
