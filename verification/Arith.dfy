/** Facts about products, quotients and remainders that the other modules call by name. */
module Arith {

  const TWO32: nat := 0x1_0000_0000
  const TWO64: nat := 0x1_0000_0000_0000_0000

  lemma Commute(a: int, b: int)
    ensures a * b == b * a
  {
  }

  lemma MulMono(a: int, b: int, n: nat)
    requires a <= b
    ensures a * n <= b * n
  {
  }

  lemma SmallMultiple(k: int, n: int)
    requires n > 0 && -n < k * n < n
    ensures k == 0
  {
    if k >= 1 {
      MulMono(1, k, n);
    } else if k <= -1 {
      MulMono(k, -1, n);
    }
  }

  /** Quotient and remainder are unique. */
  lemma ModUnique(x: int, n: nat, q: int, m: nat)
    requires m < n && x == q * n + m
    ensures x % n == m && x / n == q
  {
    var q', m' := x / n, x % n;
    assert x == q' * n + m';
    assert (q - q') * n == q * n - q' * n;
    SmallMultiple(q - q', n);
  }

  lemma SmallMod(x: nat, n: nat)
    requires x < n
    ensures x % n == x && x / n == 0
  {
    ModUnique(x, n, 0, x);
  }

  lemma OneSubtraction(x: nat, n: nat)
    requires n <= x < 2 * n
    ensures x % n == x - n
  {
    ModUnique(x, n, 1, x - n);
  }

  /** Adding a multiple of the modulus does not change a remainder. */
  lemma ModAddMultiple(x: int, k: int, n: nat)
    requires n > 0
    ensures (x + k * n) % n == x % n
  {
    var q, m := x / n, x % n;
    assert x + k * n == (q + k) * n + m;
    ModUnique(x + k * n, n, q + k, m);
  }

  lemma ModSum(a: int, b: int, n: nat)
    requires n > 0
    ensures (a % n + b) % n == (a + b) % n
  {
    var q := a / n;
    assert a == a % n + q * n;
    ModAddMultiple(a % n + b, q, n);
  }

  lemma ModDifference(a: int, b: int, n: nat)
    requires n > 0
    ensures (a - b % n) % n == (a - b) % n
  {
    var q := b / n;
    assert b == b % n + q * n;
    ModAddMultiple(a - b, q, n);
  }

  lemma ModProduct(a: int, b: int, n: nat)
    requires n > 0
    ensures ((a % n) * b) % n == (a * b) % n
  {
    var q, m := a / n, a % n;
    assert a == m + q * n;
    assert a * b == m * b + (q * b) * n;
    ModAddMultiple(m * b, q * b, n);
  }

  lemma ModBoth(a: int, b: int, n: nat)
    requires n > 0
    ensures ((a % n) * (b % n)) % n == (a * b) % n
  {
    ModProduct(a, b % n, n);
    ModProduct(b, a, n);
  }

  lemma ModMod(a: int, n: nat)
    requires n > 0
    ensures a % n % n == a % n
  {
    SmallMod(a % n, n);
  }

  lemma MulZero(a: int, n: nat)
    requires n > 0
    ensures (a * n) % n == 0
  {
    ModUnique(a * n, n, a, 0);
  }
}
