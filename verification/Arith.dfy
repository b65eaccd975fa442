/** The few facts about multiplication, division and powers of two that slicing an address range needs. */
module Arith {

  lemma MulSub(b: int, x: int, y: int)
    ensures b * (x - y) == b * x - b * y
  {
  }

  lemma MulAtLeast(b: nat, k: int)
    requires k >= 1
    ensures b * k >= b
  {
    assert b * (k - 1) >= 0;
    MulSub(b, k, 1);
  }

  lemma MulMonotone(b: nat, x: int, y: int)
    requires x <= y
    ensures b * x <= b * y
  {
    assert b * (y - x) >= 0;
    MulSub(b, y, x);
  }

  lemma DivMod(n: int, b: int)
    requires b > 0
    ensures n == b * (n / b) + n % b && 0 <= n % b < b
  {
  }

  lemma DivUnique(n: int, b: int, q: int, r: int)
    requires b > 0 && n == b * q + r && 0 <= r < b
    ensures n / b == q && n % b == r
  {
    DivMod(n, b);
    MulSub(b, q, n / b);
    if q > n / b { MulAtLeast(b, q - n / b); }
    if q < n / b { MulSub(b, n / b, q); MulAtLeast(b, n / b - q); }
  }

  function Quotient(n: nat, b: nat): (q: nat)
    requires b > 0
    ensures q == n / b
  {
    DivMod(n, b);
    assert n / b >= 0 by { if n / b < 0 { MulMonotone(b, n / b, -1); } }
    n / b
  }

  function AlignDown(a: nat, m: nat): (r: nat)
    requires m > 0
    ensures r <= a < r + m
    ensures r == m * (a / m) && r % m == 0
  {
    DivMod(a, m);
    assert a / m >= 0 by { if a / m < 0 { MulMonotone(m, a / m, -1); } }
    MulMonotone(m, 0, a / m);
    DivUnique(m * (a / m), m, a / m, 0);
    a - a % m
  }

  function Pow2(k: nat): (r: nat)
    ensures r >= 1
  {
    if k == 0 then 1 else 2 * Pow2(k - 1)
  }

  lemma AlignFits(a: nat, m: nat, k: nat)
    requires m > 0 && a < m * k
    ensures AlignDown(a, m) + m <= m * k
  {
    if a / m >= k { MulMonotone(m, k, a / m); }
    MulMonotone(m, a / m + 1, k);
    MulSub(m, a / m, -1);
  }

  lemma {:induction false} Pow2Sum(a: nat, b: nat)
    ensures Pow2(a + b) == Pow2(a) * Pow2(b)
  {
    if a > 0 {
      Pow2Sum(a - 1, b);
      assert 2 * (Pow2(a - 1) * Pow2(b)) == 2 * Pow2(a - 1) * Pow2(b);
    }
  }

  lemma Pow2Of32()
    ensures Pow2(32) == 0x1_0000_0000
  {
    assert Pow2(8) == 256;
    Pow2Sum(8, 8);
    Pow2Sum(16, 16);
  }

  /** Cutting size == count * block into blocks: block i starts aligned and ends within the whole. */
  lemma BlockFits(base: nat, count: nat, block: nat, i: nat)
    requires block > 0 && i < count && base % (count * block) == 0 && count * block > 0
    ensures i * block + block <= count * block
    ensures (base + i * block) % block == 0
  {
    MulMonotone(block, i + 1, count);
    var q := base / (count * block);
    DivMod(base, count * block);
    assert base == block * (count * q) by { assert count * block * q == block * (count * q); }
    assert base + i * block == block * (count * q + i) + 0;
    DivUnique(base + i * block, block, count * q + i, 0);
  }

  lemma BlocksApart(block: nat, i: nat, j: nat)
    requires i < j
    ensures i * block + block <= j * block
  {
    MulMonotone(block, i + 1, j);
  }

  lemma CyclicValue(first: nat, count: nat, i: nat)
    requires first < count && i < count
    ensures (first + i) % count == if first + i < count then first + i else first + i - count
  {
    if first + i < count { DivUnique(first + i, count, 0, first + i); }
    else { DivUnique(first + i, count, 1, first + i - count); }
  }
}
