/**
 * Java's 32-bit `int` bit operations as arithmetic on the unsigned reading of the bit
 * pattern: `<<` is multiplication by a power of two modulo 2^32, `|` is bitwise or, a
 * `(byte)` cast followed by `& 0xFF` keeps the low 8 bits.
 */
module Bits {

  function Pow2(k: nat): (p: nat)
    ensures p >= 1
  {
    if k == 0 then 1 else 2 * Pow2(k - 1)
  }

  /** The unsigned reading of an int's 32-bit pattern (two's complement). */
  function Pattern(v: int): (p: nat)
    ensures p < 0x1_0000_0000
  {
    v % 0x1_0000_0000
  }

  /** Java's `v << k` on an int, as a pattern. */
  function ShiftLeft(v: int, k: nat): (p: nat)
    ensures p < 0x1_0000_0000
  {
    Pattern(v * Pow2(k))
  }

  /** Bitwise or of two bit patterns. */
  function Or(a: nat, b: nat): nat
    decreases a + b
  {
    if a == 0 then b
    else if b == 0 then a
    else 2 * Or(a / 2, b / 2) + (if a % 2 == 1 || b % 2 == 1 then 1 else 0)
  }

  /** A pattern read back as a two's-complement int. */
  function Signed(p: nat): int
    requires p < 0x1_0000_0000
  {
    if p < 0x8000_0000 then p else p - 0x1_0000_0000
  }

  /** Or-ing a value below 2^k into `a << k` is adding it: the bits do not overlap. */
  lemma {:induction false} OrShifted(a: nat, b: nat, k: nat)
    requires b < Pow2(k)
    ensures Or(a * Pow2(k), b) == a * Pow2(k) + b
    decreases k
  {
    var x := a * Pow2(k);
    if k == 0 {
      assert b == 0;
    } else if x != 0 && b != 0 {
      var h := a * Pow2(k - 1);
      assert x == 2 * h;
      assert x / 2 == h && x % 2 == 0;
      assert b / 2 < Pow2(k - 1);
      OrShifted(a, b / 2, k - 1);
      assert Or(x, b) == 2 * Or(h, b / 2) + b % 2;
    }
  }

  lemma {:induction false} Pow2Add(m: nat, n: nat)
    ensures Pow2(m + n) == Pow2(m) * Pow2(n)
    decreases m
  {
    if m > 0 {
      Pow2Add(m - 1, n);
    }
  }

  lemma Pow2Values()
    ensures Pow2(4) == 0x10 && Pow2(8) == 0x100 && Pow2(16) == 0x1_0000
    ensures Pow2(24) == 0x100_0000 && Pow2(32) == 0x1_0000_0000
  {
    assert Pow2(4) == 0x10;
    Pow2Add(4, 4);
    Pow2Add(8, 8);
    Pow2Add(16, 8);
    Pow2Add(16, 16);
  }

  /** Or-ing anything below 2^k into k one-bits leaves the k one-bits. */
  lemma {:induction false} OrAllOnes(x: nat, k: nat)
    requires x < Pow2(k)
    ensures Or(x, Pow2(k) - 1) == Pow2(k) - 1
    decreases k
  {
    if k > 0 && x != 0 {
      var ones := Pow2(k) - 1;
      assert ones / 2 == Pow2(k - 1) - 1 && ones % 2 == 1;
      assert x / 2 < Pow2(k - 1);
      OrAllOnes(x / 2, k - 1);
    }
  }
}
