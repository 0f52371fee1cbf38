/** Facts about products and remainders that the other modules share. */
module Arithmetic {
  lemma MulBound(k: int, n: int)
    requires n > 0
    ensures k >= 1 ==> k * n >= n
    ensures k <= -1 ==> k * n <= -n
    ensures k == 0 ==> k * n == 0
  {
    if k >= 1 {
      assert k * n == (k - 1) * n + n && (k - 1) * n >= 0;
    } else if k <= -1 {
      assert -(k * n) == (-k) * n && (-k) * n == (-k - 1) * n + n && (-k - 1) * n >= 0;
    }
  }

  lemma MulMonotone(a: int, b: int, c: int, d: int)
    requires 0 <= a <= c && 0 <= b <= d
    ensures 0 <= a * b <= c * d
  {
    assert c * d - a * b == c * (d - b) + (c - a) * b;
  }

  lemma Difference(a: int, b: int, n: int)
    ensures (a - b) * n == a * n - b * n
  {
  }

  lemma ModUnique(n: nat, q: nat, r: nat, i: nat)
    requires r < n && i == q * n + r
    ensures i % n == r && i / n == q
  {
    MulBound(q - i / n, n);
    Difference(q, i / n, n);
  }

  lemma ProductOfDivisor(n: nat, d: nat)
    requires d > 0 && n % d == 0
    ensures n == (n / d) * d
  {
  }

  lemma DividesProduct(k: nat, d: nat)
    requires d > 0
    ensures (k * d) % d == 0
  {
    ModUnique(d, k, 0, k * d);
  }
}
