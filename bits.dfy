/**
 * Bitwise AND, OR and left shift on the binary representation of natural
 * numbers, with the facts about them that the page arithmetic and
 * pos_from_hilo rely on.
 */
module Bits {

  function Pow2(k: nat): (r: nat)
    ensures r >= 1
  {
    if k == 0 then 1 else 2 * Pow2(k - 1)
  }

  /** a & b, bit by bit from the least significant end. */
  function BitAnd(a: nat, b: nat): nat
  {
    if a == 0 || b == 0 then 0
    else 2 * BitAnd(a / 2, b / 2) + (if a % 2 == 1 && b % 2 == 1 then 1 else 0)
  }

  /** a | b, bit by bit from the least significant end. */
  function BitOr(a: nat, b: nat): nat
  {
    if a == 0 then b
    else if b == 0 then a
    else 2 * BitOr(a / 2, b / 2) + (if a % 2 == 1 || b % 2 == 1 then 1 else 0)
  }

  /** x << n in a 64-bit register: the bits shifted past bit 63 are lost. */
  function ShiftLeft64(x: nat, n: nat): (r: nat)
    ensures r < 0x1_0000_0000_0000_0000
  {
    (x * Pow2(n)) % 0x1_0000_0000_0000_0000
  }

  lemma {:induction false} Pow2Add(a: nat, b: nat)
    ensures Pow2(a + b) == Pow2(a) * Pow2(b)
  {
    if a > 0 {
      Pow2Add(a - 1, b);
      assert Pow2(a + b) == 2 * Pow2(a - 1 + b);
    }
  }

  lemma Pow2Of16()
    ensures Pow2(16) == 0x1_0000
  {
    assert Pow2(8) == 256;
    Pow2Add(8, 8);
  }

  lemma Pow2Of32()
    ensures Pow2(32) == 0x1_0000_0000
  {
    Pow2Of16();
    Pow2Add(16, 16);
  }

  lemma MulAtLeast(m: int, d: int)
    requires m > 0 && d >= 1
    ensures m * d >= m
  {}

  /** Euclidean division is determined by any quotient and remainder that fit. */
  lemma DivModUnique(x: int, m: int, t: int, r: int)
    requires m > 0 && x == m * t + r && 0 <= r < m
    ensures x % m == r && x / m == t
  {
    var q, s := x / m, x % m;
    assert m * (t - q) == s - r;
    if t - q >= 1 { MulAtLeast(m, t - q); assert false; }
    if q - t >= 1 { MulAtLeast(m, q - t); assert false; }
  }

  /** Peeling off the lowest bit: x mod 2p from x/2 mod p. */
  lemma ModOfDouble(x: nat, p: nat)
    requires p > 0
    ensures 2 * ((x / 2) % p) + x % 2 == x % (2 * p)
  {
    var q, b := x / 2, x % 2;
    var t, r := q / p, q % p;
    assert x == 2 * q + b;
    assert q == p * t + r;
    assert x == (2 * p) * t + (2 * r + b);
    DivModUnique(x, 2 * p, t, 2 * r + b);
  }

  /** One step of BitAnd against an odd mask 2p - 1. */
  lemma BitAndOddMask(x: nat, p: nat)
    requires p >= 1 && x > 0
    ensures BitAnd(x, 2 * p - 1) == 2 * BitAnd(x / 2, p - 1) + x % 2
  {
    DivModUnique(2 * p - 1, 2, p - 1, 1);
  }

  /** One inductive step of BitAndLowMask, from the fact for x / 2 and k - 1. */
  lemma BitAndLowMaskStep(x: nat, k: nat)
    requires k > 0 && x > 0
    requires BitAnd(x / 2, Pow2(k - 1) - 1) == (x / 2) % Pow2(k - 1)
    ensures BitAnd(x, Pow2(k) - 1) == x % Pow2(k)
  {
    var p := Pow2(k - 1);
    assert Pow2(k) == 2 * p;
    BitAndOddMask(x, p);
    ModOfDouble(x, p);
  }

  /** Masking with 2^k - 1 keeps the remainder modulo 2^k. */
  lemma {:induction false} BitAndLowMask(x: nat, k: nat)
    ensures BitAnd(x, Pow2(k) - 1) == x % Pow2(k)
  {
    if k == 0 {
      assert Pow2(k) == 1;
    } else if x == 0 {
      assert BitAnd(x, Pow2(k) - 1) == 0;
    } else {
      BitAndLowMask(x / 2, k - 1);
      BitAndLowMaskStep(x, k);
    }
  }

  /** OR of a multiple of 2^k with a number below 2^k is their sum. */
  lemma {:induction false} BitOrDisjoint(a: nat, b: nat, k: nat)
    requires b < Pow2(k)
    ensures BitOr(a * Pow2(k), b) == a * Pow2(k) + b
  {
    var x := a * Pow2(k);
    if k == 0 {
      assert b == 0;
    } else if x != 0 && b != 0 {
      assert x == 2 * (a * Pow2(k - 1));
      assert x / 2 == a * Pow2(k - 1) && x % 2 == 0;
      BitOrDisjoint(a, b / 2, k - 1);
    }
  }
}
