/**
 * Unsigned 32-bit machine arithmetic, written out on unbounded integers.
 *
 * A `u32` is an integer in [0, 2^32). Wrap-around is explicit (`% TWO_32`),
 * a left shift by k is a multiplication by 2^k reduced modulo 2^32, a right
 * shift by k is a division by 2^k, and a mask of the k low bits is `% 2^k`.
 * Bitwise OR has no arithmetic equivalent in general, so it is defined bit by
 * bit (`BitOr`) and related to addition by lemmas.
 */
module Bits {

  const TWO_32: nat := 0x1_0000_0000

  type u32 = x: int | 0 <= x < TWO_32

  function Min(a: int, b: int): int { if a <= b then a else b }

  function Max(a: int, b: int): int { if a >= b then a else b }

  /** 2^k */
  function Pow2(k: nat): (r: nat)
    ensures r >= 1
  {
    if k == 0 then 1 else 2 * Pow2(k - 1)
  }

  /** Unsigned subtraction `a - b` on uint32. */
  function Sub32(a: u32, b: u32): (r: u32)
    ensures a >= b ==> r == a - b
    ensures a < b ==> r == TWO_32 + a - b
  {
    (a - b) % TWO_32
  }

  /** Bitwise OR of two naturals, least significant bit first. */
  function BitOr(a: nat, b: nat): nat
    decreases a + b
  {
    if a == 0 then b
    else if b == 0 then a
    else 2 * BitOr(a / 2, b / 2) + (if a % 2 == 1 || b % 2 == 1 then 1 else 0)
  }

  /** Number of one bits of a natural. */
  function PopCount(x: nat): nat
  {
    if x == 0 then 0 else x % 2 + PopCount(x / 2)
  }

  /** OR of two k-bit numbers is a k-bit number. */
  lemma {:induction false} BitOrBound(a: nat, b: nat, k: nat)
    requires a < Pow2(k) && b < Pow2(k)
    ensures BitOr(a, b) < Pow2(k)
  {
    if a == 0 || b == 0 {
    } else {
      assert k > 0;
      BitOrBound(a / 2, b / 2, k - 1);
    }
  }

  /** When the set bits of the two operands are disjoint (b fits below the k
      low bits, which are clear in m * 2^k), OR is addition. */
  lemma {:induction false} BitOrDisjoint(m: nat, b: nat, k: nat)
    requires b < Pow2(k)
    ensures BitOr(m * Pow2(k), b) == m * Pow2(k) + b
  {
    var a := m * Pow2(k);
    if a == 0 || b == 0 {
    } else {
      assert k > 0;
      var y := m * Pow2(k - 1);
      assert a == 2 * y;
      BitOrDisjoint(m, b / 2, k - 1);
      assert BitOr(y, b / 2) == y + b / 2;
    }
  }

  /** Doubling shifts the bits up by one and adds no set bit. */
  lemma PopCountDouble(x: nat)
    ensures PopCount(2 * x) == PopCount(x)
  {
    if x > 0 {
      assert (2 * x) % 2 == 0 && (2 * x) / 2 == x;
    }
  }

  /** A power of two has exactly one bit set. */
  lemma {:induction false} PopCountPow2(k: nat)
    ensures PopCount(Pow2(k)) == 1
  {
    if k == 0 {
      assert PopCount(1) == 1 + PopCount(0);
    } else {
      var half := Pow2(k - 1);
      assert Pow2(k) == 2 * half;
      PopCountPow2(k - 1);
      PopCountDouble(half);
    }
  }

  lemma {:induction false} Pow2Monotone(k: nat, n: nat)
    requires k < n
    ensures Pow2(k) < Pow2(n)
  {
    if k + 1 < n {
      Pow2Monotone(k, n - 1);
    }
  }

  lemma Pow2Values()
    ensures Pow2(6) == 64 && Pow2(32) == TWO_32
  {
    assert Pow2(8) == 0x100;
    assert Pow2(16) == 0x1_0000;
    assert Pow2(24) == 0x100_0000;
  }
}
