/** Byte strings as the Go code sees them, and the ^ operator on bytes. */
module Octets {
  type Octet = n: int | 0 <= n < 256
  type Bytes = seq<Octet>

  function Pow2(n: nat): (p: nat)
    ensures p >= 1
  {
    if n == 0 then 1 else 2 * Pow2(n - 1)
  }

  /** The exclusive or of two numbers of `bits` bits, lowest bit first. */
  function XorBelow(a: nat, b: nat, bits: nat): (x: nat)
    ensures x < Pow2(bits)
  {
    if bits == 0 then 0
    else (if a % 2 == b % 2 then 0 else 1) + 2 * XorBelow(a / 2, b / 2, bits - 1)
  }

  lemma OctetHasEightBits()
    ensures Pow2(8) == 256
  {
    assert Pow2(4) == 16;
  }

  function Xor(a: Octet, b: Octet): Octet {
    OctetHasEightBits();
    XorBelow(a, b, 8)
  }

  // ----- what it computes -------------------------------------------------------------------

  /** Bit k of a natural number, the lowest being bit 0. */
  function Bit(n: nat, k: nat): (b: nat)
    ensures b < 2
  {
    if k == 0 then n % 2 else Bit(n / 2, k - 1)
  }

  lemma {:induction false} XorBelowAddsBits(a: nat, b: nat, bits: nat, k: nat)
    requires k < bits
    ensures Bit(XorBelow(a, b, bits), k) == (Bit(a, k) + Bit(b, k)) % 2
    decreases k
  {
    if k == 0 {
    } else {
      XorBelowAddsBits(a / 2, b / 2, bits - 1, k - 1);
    }
  }

  /** Each bit of the result is the sum of the two bits modulo 2. */
  lemma XorAddsBits(a: Octet, b: Octet, k: nat)
    requires k < 8
    ensures Bit(Xor(a, b), k) == (Bit(a, k) + Bit(b, k)) % 2
  {
    XorBelowAddsBits(a, b, 8, k);
  }

  predicate SameBits(m: nat, n: nat, bits: nat) { forall k: nat :: k < bits ==> Bit(m, k) == Bit(n, k) }

  /** A number below 2^bits is determined by its bits. */
  lemma {:induction false} BitsDetermine(m: nat, n: nat, bits: nat)
    requires m < Pow2(bits) && n < Pow2(bits) && SameBits(m, n, bits)
    ensures m == n
  {
    if bits == 0 {
    } else {
      assert Bit(m, 0) == Bit(n, 0);
      forall k: nat | k < bits - 1 ensures Bit(m / 2, k) == Bit(n / 2, k) { assert Bit(m, k + 1) == Bit(n, k + 1); }
      BitsDetermine(m / 2, n / 2, bits - 1);
    }
  }

  lemma OctetsByBits(a: Octet, b: Octet)
    requires SameBits(a, b, 8)
    ensures a == b
  {
    OctetHasEightBits();
    BitsDetermine(a, b, 8);
  }

  /** Xor is the function of octets that adds bits: the octet whose bits are the sums is the only one. */
  lemma XorIsTheSum(a: Octet, b: Octet, c: Octet)
    requires forall k: nat :: k < 8 ==> Bit(c, k) == (Bit(a, k) + Bit(b, k)) % 2
    ensures c == Xor(a, b)
  {
    forall k: nat | k < 8 ensures Bit(Xor(a, b), k) == Bit(c, k) { XorAddsBits(a, b, k); }
    OctetsByBits(c, Xor(a, b));
  }

  lemma {:induction false} ZeroHasNoBits(k: nat)
    ensures Bit(0, k) == 0
  {
    if k == 0 {
    } else {
      ZeroHasNoBits(k - 1);
    }
  }

  /** Adding the same octet twice changes nothing, the order does not matter, and 0 is neutral. */
  lemma XorLaws(a: Octet, b: Octet)
    ensures Xor(Xor(a, b), b) == a && Xor(a, b) == Xor(b, a) && Xor(a, 0) == a
  {
    var d := Xor(a, b);
    forall k: nat | k < 8
      ensures Bit(a, k) == (Bit(d, k) + Bit(b, k)) % 2 && Bit(d, k) == (Bit(b, k) + Bit(a, k)) % 2
      ensures Bit(a, k) == (Bit(a, k) + Bit(0, k)) % 2
    {
      XorAddsBits(a, b, k);
      ZeroHasNoBits(k);
    }
    XorIsTheSum(d, b, a);
    XorIsTheSum(b, a, d);
    XorIsTheSum(a, 0, a);
  }
}
