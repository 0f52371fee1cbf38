/** The numeric functions of nt_algodefs.c: the primes that size the hash tables, and the integer square root. */
module Numeric {
  import opened Arithmetic

  // ----- primes -----

  ghost predicate Prime(n: int) {
    n >= 2 && forall d :: 2 <= d < n ==> n % d != 0
  }

  lemma EvenProduct(k: nat, d: nat)
    requires d % 2 == 0
    ensures (k * d) % 2 == 0
  {
    assert k * d == (k * (d / 2)) * 2;
    DividesProduct(k * (d / 2), 2);
  }

  /** An odd number has no even divisor. */
  lemma OddHasNoEvenDivisor(n: nat, d: nat)
    requires n % 2 == 1 && d > 0 && d % 2 == 0
    ensures n % d != 0
  {
    if n % d == 0 {
      ProductOfDivisor(n, d);
      EvenProduct(n / d, d);
    }
  }

  /** The quotient by a proper divisor is a proper divisor too. */
  lemma CoDivisor(n: nat, d: nat)
    requires 2 <= d < n && n % d == 0
    ensures var e := n / d; e * d == n && 2 <= e < n && n % e == 0
  {
    ProductOfDivisor(n, d);
    var e := n / d;
    MulMonotone(e, 2, e, d);
    MulBound(e, d);
    if e > 0 {
      DividesProduct(d, e);
    }
  }

  ghost predicate NoDivisorBelow(n: nat, i: nat) {
    forall d :: 2 <= d < i && d < n ==> n % d != 0
  }

  /** Trial division need not go beyond the square root. */
  lemma NoDivisorBeyondRoot(n: nat, i: nat)
    requires 2 <= i && 2 <= n < i * i && NoDivisorBelow(n, i)
    ensures Prime(n)
  {
    forall d | 2 <= d < n
      ensures n % d != 0
    {
      if n % d == 0 {
        CoDivisor(n, d);
        if d >= i && n / d >= i {
          MulMonotone(i, i, n / d, d);
        }
      }
    }
  }

  lemma ProperDivisor(n: nat, i: nat)
    requires 3 <= i && i * i <= n
    ensures i < n && (n % i == 0 ==> !Prime(n))
  {
    MulMonotone(i, 3, i, i);
  }

  lemma NextOddDivisor(n: nat, i: nat)
    requires NoDivisorBelow(n, i) && n % 2 == 1 && i % 2 == 1 && i >= 3 && n % i != 0
    ensures NoDivisorBelow(n, i + 2)
  {
    OddHasNoEvenDivisor(n, i + 1);
  }

  lemma SmallPrimes(n: int)
    ensures n <= 1 ==> !Prime(n)
    ensures n == 2 ==> Prime(n)
    ensures n > 2 && n % 2 == 0 ==> !Prime(n)
    ensures n > 2 && n % 2 == 1 ==> NoDivisorBelow(n, 3)
  {
  }

  /** is_prime. */
  method IsPrime(n: int) returns (r: bool)
    ensures r <==> Prime(n)
  {
    hide Prime, NoDivisorBelow;
    SmallPrimes(n);
    if n <= 1 { return false; }
    if n == 2 { return true; }
    if n % 2 == 0 { return false; }
    var i := 3;
    while i * i <= n
      invariant i >= 3 && i % 2 == 1 && NoDivisorBelow(n, i)
      decreases n - i
    {
      ProperDivisor(n, i);
      if n % i == 0 {
        return false;
      }
      NextOddDivisor(n, i);
      i := i + 2;
    }
    NoDivisorBeyondRoot(n, i);
    r := true;
  }

  function Factorial(n: nat): nat {
    if n == 0 then 1 else n * Factorial(n - 1)
  }

  lemma {:induction false} FactorialMultiple(n: nat, d: nat)
    requires 1 <= d <= n
    ensures Factorial(n) % d == 0
  {
    if d == n {
      DividesProduct(Factorial(n - 1), d);
      assert Factorial(n) == Factorial(n - 1) * d;
    } else {
      FactorialMultiple(n - 1, d);
      ProductOfDivisor(Factorial(n - 1), d);
      var k := Factorial(n - 1) / d;
      assert Factorial(n) == n * (k * d) == (n * k) * d;
      DividesProduct(n * k, d);
    }
  }

  lemma {:induction false} FactorialPositive(n: nat)
    ensures Factorial(n) >= 1
  {
    if n > 0 {
      FactorialPositive(n - 1);
      MulMonotone(1, 1, n, Factorial(n - 1));
    }
  }

  /** Every number from 2 on has a prime divisor. */
  lemma {:induction false} PrimeDivisor(m: nat) returns (p: nat)
    requires m >= 2
    ensures Prime(p) && m % p == 0
  {
    if Prime(m) {
      p := m;
    } else {
      var d :| 2 <= d < m && m % d == 0;
      p := PrimeDivisor(d);
      ProductOfDivisor(m, d);
      ProductOfDivisor(d, p);
      var a, b := m / d, d / p;
      assert m == a * (b * p) == (a * b) * p;
      DividesProduct(a * b, p);
    }
  }

  /** There is a prime at or above every number. */
  lemma PrimeAbove(n: int) returns (p: int)
    ensures Prime(p) && p >= n
  {
    if n <= 2 {
      p := 2;
    } else {
      FactorialPositive(n);
      p := PrimeDivisor(Factorial(n) + 1);
      if p < n {
        FactorialMultiple(n, p);
        ProductOfDivisor(Factorial(n), p);
        ProductOfDivisor(Factorial(n) + 1, p);
        Difference((Factorial(n) + 1) / p, Factorial(n) / p, p);
        MulBound((Factorial(n) + 1) / p - Factorial(n) / p, p);
      }
    }
  }

  /** The least prime from n on. */
  ghost predicate IsNextPrime(n: int, p: int) {
    Prime(p) && p >= n && forall q :: n <= q < p ==> !Prime(q)
  }

  /** next_prime: it ends for every argument. */
  method NextPrime(n: int) returns (p: int)
    ensures IsNextPrime(n, p)
  {
    p := n;
    ghost var bound := PrimeAbove(n);
    var found := IsPrime(p);
    while !found
      invariant n <= p <= bound && (found <==> Prime(p))
      invariant forall q :: n <= q < p ==> !Prime(q)
      decreases bound - p, !found
    {
      p := p + 1;
      found := IsPrime(p);
    }
  }

  // ----- integer square root -----

  const WORD: nat := 0x1_0000_0000

  /** What a 32-bit register keeps of a number. */
  function Wrap(x: nat): (r: nat)
    ensures r < WORD && (x < WORD ==> r == x)
  {
    x % WORD
  }

  function Power4(n: nat): (r: nat)
    ensures r > 0
  {
    if n == 0 then 1 else 4 * Power4(n - 1)
  }

  lemma {:induction false} Power4Sum(a: nat, b: nat)
    ensures Power4(a) * Power4(b) == Power4(a + b)
  {
    if a > 0 {
      Power4Sum(a - 1, b);
      assert Power4(a) * Power4(b) == 4 * (Power4(a - 1) * Power4(b));
    }
  }

  lemma Power4OfWord()
    ensures Power4(16) == WORD && Power4(15) == 0x4000_0000
  {
    assert Power4(4) == 256;
    Power4Sum(4, 4);
    Power4Sum(8, 8);
  }

  lemma PairOf(low: nat, p: nat, q: nat) returns (pair: nat, rest: nat)
    requires p > 0 && q > 0 && p * q == 0x4000_0000 && low < 4 * p
    ensures pair < 4 && rest < p && low == pair * p + rest
    ensures low * q == pair * 0x4000_0000 + rest * q && 0 <= rest * q < 0x4000_0000
  {
    pair, rest := low / p, low % p;
    MulBound(pair - 3, p);
    Difference(pair, 3, p);
    Difference(p, rest, q);
    MulBound(p - rest, q);
    MulMonotone(0, 0, rest, q);
    assert low * q == pair * (p * q) + rest * q by {
      assert (pair * p + rest) * q == pair * (p * q) + rest * q;
    }
  }

  ghost predicate FloorRoot(value: nat, root: nat) { root * root <= value < (root + 1) * (root + 1) }

  /** The state of the digits after i rounds: `high` has been consumed, and `value` holds the rest, moved to the top. */
  ghost predicate Digits(value0: nat, i: nat, high: nat, low: nat, value: nat)
    requires i <= 16
  {
    low < Power4(16 - i) && value0 == high * Power4(16 - i) + low && value == low * Power4(i)
  }

  lemma Regroup(a: int, b: int)
    ensures a * (4 * b) == 4 * (a * b) == (4 * a) * b
  {
  }

  lemma Distribute(a: int, b: int, c: int)
    ensures (a + b) * c == a * c + b * c
  {
  }

  /** The top two bits of `value` are the next pair of digits; shifting it by two drops them. */
  lemma TakePair(value0: nat, i: nat, high: nat, low: nat, value: nat) returns (pair: nat, rest: nat)
    requires i < 16 && Digits(value0, i, high, low, value)
    ensures pair < 4 && value < WORD && value / 0x4000_0000 == pair
    ensures Digits(value0, i + 1, 4 * high + pair, rest, Wrap(value * 4))
  {
    Power4Sum(15 - i, i);
    Power4OfWord();
    pair, rest := PairOf(low, Power4(15 - i), Power4(i));
    ModUnique(0x4000_0000, pair, rest * Power4(i), value);
    ModUnique(WORD, pair, 4 * (rest * Power4(i)), value * 4);
    Regroup(rest, Power4(i));
    Regroup(high, Power4(15 - i));
    Distribute(4 * high, pair, Power4(15 - i));
  }

  ghost predicate RootOf(high: nat, result: nat, remainder: nat) {
    high == result * result + remainder && remainder <= 2 * result
  }

  /** One round of the digit-by-digit method, with the next pair of digits. */
  lemma RootRound(high: nat, result: nat, remainder: nat, pair: nat)
    requires RootOf(high, result, remainder) && pair < 4
    ensures var r, m := 2 * result, 4 * remainder + pair;
            if 2 * r + 1 <= m then RootOf(4 * high + pair, r + 1, m - (2 * r + 1)) else RootOf(4 * high + pair, r, m)
    ensures remainder <= 2 * result
  {
    assert (2 * result) * (2 * result) == 4 * (result * result);
    assert (2 * result + 1) * (2 * result + 1) == 4 * (result * result) + 4 * result + 1;
  }

  lemma RootAtEnd(value0: nat, high: nat, low: nat, value: nat, result: nat, remainder: nat)
    requires Digits(value0, 16, high, low, value) && RootOf(high, result, remainder)
    ensures FloorRoot(value0, result)
  {
    assert (result + 1) * (result + 1) == result * result + 2 * result + 1;
  }

  function Power2(n: nat): (r: nat)
    ensures r > 0
  {
    if n == 0 then 1 else 2 * Power2(n - 1)
  }

  lemma {:induction false} Power2Grows(i: nat, j: nat)
    requires i <= j
    ensures Power2(i) <= Power2(j)
  {
    if i < j {
      Power2Grows(i, j - 1);
    }
  }

  lemma Power2Room(i: nat)
    requires i < 16
    ensures Power2(i) <= 0x8000 && Power2(i + 1) == 2 * Power2(i)
  {
    Power2Grows(i, 15);
    assert Power2(15) == 0x8000;
  }

  lemma RootAtStart(value0: nat)
    requires value0 < WORD
    ensures Digits(value0, 0, 0, value0, value0) && RootOf(0, 0, 0) && Power2(0) == 1
  {
    Power4OfWord();
  }

  /** nt_isqrt32: the root rounded down.  Every shift is taken modulo 2^32; the assertion
      says that neither `remainder` nor `result` loses a bit. */
  method Isqrt32(value0: nat) returns (result: nat)
    requires value0 < WORD
    ensures FloorRoot(value0, result)
  {
    hide Digits, RootOf, Power2, FloorRoot, Wrap;
    var value: nat, remainder: nat, i := value0, 0, 0;
    result := 0;
    ghost var low: nat, high: nat := value0, 0;
    RootAtStart(value0);
    while i < 16
      invariant i <= 16 && Digits(value0, i, high, low, value) && RootOf(high, result, remainder) && result < Power2(i)
    {
      ghost var pair, rest := TakePair(value0, i, high, low, value);
      RootRound(high, result, remainder, pair);
      Power2Room(i);
      assert result * 2 < 0x1_0000 && remainder * 4 + 3 < WORD;
      ghost var r0, m0 := result, remainder;
      result := Wrap(result * 2);
      remainder := Wrap(Wrap(remainder * 4) + value / 0x4000_0000);
      value := Wrap(value * 4);
      var p := Wrap(result * 2) + 1;
      assert result == 2 * r0 && remainder == 4 * m0 + pair && p == 2 * result + 1;
      if p <= remainder {
        remainder := remainder - p;
        result := result + 1;
      }
      high, low := 4 * high + pair, rest;
      i := i + 1;
    }
    RootAtEnd(value0, high, low, value, result, remainder);
  }
}
