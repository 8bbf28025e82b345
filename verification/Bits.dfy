/** Unsigned 32-bit indices and the power-of-two masks that ring and hash indexing rely on. */
module Bits {

  const U32: nat := 0x1_0000_0000

  /** An unsigned 32-bit word. */
  type word = x: int | 0 <= x < U32

  function Pow2(k: nat): (p: nat)
    ensures p >= 1
  {
    if k == 0 then 1 else 2 * Pow2(k - 1)
  }

  /** Bitwise conjunction of unsigned integers, by their binary digits. */
  function BitAnd(x: nat, y: nat): nat
  {
    if x == 0 || y == 0 then 0 else 2 * BitAnd(x / 2, y / 2) + (x % 2) * (y % 2)
  }

  ghost predicate IsPow2(n: nat) {
    exists k: nat :: n == Pow2(k)
  }

  lemma ProductGrows(m: int, d: int)
    requires m > 0
    ensures d >= 1 ==> m * d >= m
    ensures d <= -1 ==> m * d <= -m
  {
    if d >= 1 {
      assert m * d == m * (d - 1) + m;
    } else if d <= -1 {
      assert m * d == m * (d + 1) - m;
    }
  }

  lemma DivModUnique(x: int, m: int, q: int, r: int)
    requires 0 <= r < m && x == m * q + r
    ensures x / m == q && x % m == r
  {
    ghost var p := x / m;
    assert x == m * p + x % m;
    assert m * (p - q) == m * p - m * q;
    ProductGrows(m, p - q);
  }

  lemma SameRemainder(x: int, y: int, m: int, k: int)
    requires m > 0 && x == y + m * k
    ensures x % m == y % m
  {
    assert y == m * (y / m) + y % m;
    assert m * (y / m) + m * k == m * (y / m + k);
    DivModUnique(x, m, y / m + k, y % m);
  }

  /** Adding less than the modulus keeps the remainder only when it adds nothing. */
  lemma RemainderMoves(x: int, d: int, m: int)
    requires 0 <= d < m
    ensures (x + d) % m == x % m <==> d == 0
  {
    var q, p := x / m, (x + d) / m;
    assert x == m * q + x % m && x + d == m * p + (x + d) % m;
    assert m * (p - q) == m * p - m * q;
    ProductGrows(m, p - q);
  }

  lemma ModOfMod(x: int, c: int, n: int)
    requires c > 0 && n > 0
    ensures c * n > 0 && (x % (c * n)) % n == x % n
  {
    assert c * n > 0;
    var q, r := x / (c * n), x % (c * n);
    assert x == c * n * q + r;
    assert r == n * (r / n) + r % n;
    assert c * n * q == n * (c * q);
    assert n * (c * q) + n * (r / n) == n * (c * q + r / n);
    DivModUnique(x, n, c * q + r / n, r % n);
  }

  function Mod(x: nat, m: nat): nat
    requires m > 0
  {
    x % m
  }

  lemma HalfMod(x: nat, m: nat)
    requires m > 0
    ensures Mod(x, 2 * m) == 2 * Mod(x / 2, m) + x % 2
  {
    var q, r := (x / 2) / m, (x / 2) % m;
    assert x / 2 == m * q + r;
    assert x == 2 * m * q + (2 * r + x % 2);
    DivModUnique(x, 2 * m, q, 2 * r + x % 2);
  }

  lemma HalfMask(x: nat, m: nat)
    requires m > 0
    ensures BitAnd(x, 2 * m - 1) == 2 * BitAnd(x / 2, m - 1) + x % 2
  {
    assert (2 * m - 1) / 2 == m - 1 && (2 * m - 1) % 2 == 1;
  }

  lemma MaskStep(x: nat, m: nat)
    requires m > 0 && BitAnd(x / 2, m - 1) == Mod(x / 2, m)
    ensures BitAnd(x, 2 * m - 1) == Mod(x, 2 * m)
  {
    hide Mod, BitAnd;
    HalfMask(x, m);
    HalfMod(x, m);
  }

  lemma MaskWithZero(x: nat)
    ensures BitAnd(x, 0) == Mod(x, 1)
  {
  }

  /** Masking with 2^k - 1 is reduction modulo 2^k. */
  lemma {:induction false} MaskIsMod(x: nat, k: nat)
    ensures BitAnd(x, Pow2(k) - 1) == Mod(x, Pow2(k))
  {
    hide Mod, BitAnd;
    if k == 0 {
      MaskWithZero(x);
    } else {
      MaskIsMod(x / 2, k - 1);
      MaskStep(x, Pow2(k - 1));
    }
  }

  lemma MaskPow2(x: nat, n: nat)
    requires IsPow2(n)
    ensures BitAnd(x, n - 1) == x % n
  {
    var k: nat :| n == Pow2(k);
    MaskIsMod(x, k);
  }

  lemma Pow2Splits(j: nat, k: nat)
    ensures Pow2(j + k) == Pow2(j) * Pow2(k)
  {
    if j > 0 {
      Pow2Splits(j - 1, k);
      assert Pow2(j + k) == 2 * (Pow2(j - 1) * Pow2(k));
    }
  }

  lemma Pow2Of32()
    ensures Pow2(32) == U32
  {
    assert Pow2(8) == 256;
    Pow2Splits(8, 8);
    Pow2Splits(16, 16);
  }

  lemma {:induction false} Pow2Monotone(j: nat, k: nat)
    requires j < k
    ensures Pow2(j) < Pow2(k)
    decreases k
  {
    if j < k - 1 { Pow2Monotone(j, k - 1); }
  }

  /** A power of two that fits 32 bits divides 2^32, so wrapping an index keeps its masked slot. */
  lemma WrapKeepsSlot(x: int, n: nat)
    requires IsPow2(n) && n <= U32
    ensures n > 0 && (x % U32) % n == x % n
  {
    var k: nat :| n == Pow2(k);
    Pow2Of32();
    if k > 32 { Pow2Monotone(32, k); }
    Pow2Splits(32 - k, k);
    ModOfMod(x, Pow2(32 - k), n);
  }

  /** Bitwise exclusive or of unsigned integers, by their binary digits. */
  function BitXor(x: nat, y: nat): nat
    decreases x + y
  {
    if x == 0 && y == 0 then 0 else 2 * BitXor(x / 2, y / 2) + (x + y) % 2
  }

  lemma XorDigits(x: nat, y: nat)
    ensures BitXor(x, y) / 2 == BitXor(x / 2, y / 2) && BitXor(x, y) % 2 == (x + y) % 2
  {
  }

  lemma XorTwiceStep(x: nat, y: nat)
    requires BitXor(BitXor(x / 2, y / 2), y / 2) == x / 2
    ensures BitXor(BitXor(x, y), y) == x
  {
    hide BitXor;
    XorDigits(x, y);
    XorDigits(BitXor(x, y), y);
    Parity(BitXor(x, y), x, y);
    SameDigits(BitXor(BitXor(x, y), y), x);
  }

  lemma Parity(z: nat, x: nat, y: nat)
    requires z % 2 == (x + y) % 2
    ensures (z + y) % 2 == x % 2
  {
  }

  lemma {:induction false} XorTwice(x: nat, y: nat)
    ensures BitXor(BitXor(x, y), y) == x
    decreases x + y
  {
    if x != 0 || y != 0 {
      XorTwice(x / 2, y / 2);
      XorTwiceStep(x, y);
    }
  }

  lemma SameDigits(x: nat, y: nat)
    requires x / 2 == y / 2 && x % 2 == y % 2
    ensures x == y
  {
  }

  lemma {:induction false} XorBound(x: nat, y: nat, k: nat)
    requires x < Pow2(k) && y < Pow2(k)
    ensures BitXor(x, y) < Pow2(k)
  {
    if k > 0 { XorBound(x / 2, y / 2, k - 1); }
  }
}
