/** Residues modulo a prime: congruence, powers, Euclid's lemma and Fermat's little theorem. */
module PrimeField {
  import opened Arith

  /** a and b leave the same remainder. */
  ghost predicate Cong(a: int, b: int, p: nat)
    requires p > 0
  {
    a % p == b % p
  }

  lemma CongAdd(a: int, a': int, b: int, b': int, p: nat)
    requires p > 0 && Cong(a, a', p) && Cong(b, b', p)
    ensures Cong(a + b, a' + b', p)
  {
    ModSum(a, b, p);
    ModSum(b, a % p, p);
    ModSum(a', b', p);
    ModSum(b', a' % p, p);
  }

  lemma CongSub(a: int, a': int, b: int, b': int, p: nat)
    requires p > 0 && Cong(a, a', p) && Cong(b, b', p)
    ensures Cong(a - b, a' - b', p)
  {
    ModDifference(a, b, p);
    ModDifference(a', b', p);
    ModSum(a, -(b % p), p);
    ModSum(a', -(b' % p), p);
  }

  lemma CongMul(a: int, a': int, b: int, b': int, p: nat)
    requires p > 0 && Cong(a, a', p) && Cong(b, b', p)
    ensures Cong(a * b, a' * b', p)
  {
    ModBoth(a, b, p);
    ModBoth(a', b', p);
  }

  ghost predicate IsPrime(p: nat) {
    p > 1 && forall d :: 1 < d < p ==> p % d != 0
  }

  /** Euclid: a prime that divides a product but not the first factor divides the second. */
  lemma {:induction false} Euclid(a: nat, b: int, p: nat)
    requires IsPrime(p) && 0 < a < p
    requires (a * b) % p == 0
    ensures b % p == 0
    decreases a
  {
    if a > 1 {
      var q, r := p / a, p % a;
      assert r != 0;
      assert r * b == b * p - q * (a * b) by {
        assert p == q * a + r;
        assert p * b == q * a * b + r * b;
      }
      var k := a * b / p;
      assert a * b == k * p;
      assert r * b == (b - q * k) * p;
      MulZero(b - q * k, p);
      Euclid(r, b, p);
    }
  }

  /** A product vanishes only if a factor does. */
  lemma NoZeroDivisors(a: int, b: int, p: nat)
    requires IsPrime(p) && Cong(a * b, 0, p)
    ensures Cong(a, 0, p) || Cong(b, 0, p)
  {
    SmallMod(0, p);
    if a % p != 0 {
      ModProduct(a, b, p);
      Euclid(a % p, b, p);
    }
  }

  /** Non-zero factors cancel. */
  lemma Cancel(a: int, b: int, c: int, p: nat)
    requires IsPrime(p) && !Cong(c, 0, p)
    requires Cong(a * c, b * c, p)
    ensures Cong(a, b, p)
  {
    CongSub(a * c, b * c, b * c, b * c, p);
    assert a * c - b * c == (a - b) * c && b * c - b * c == 0;
    NoZeroDivisors(a - b, c, p);
    CongAdd(a - b, 0, b, b, p);
    assert a - b + b == a && 0 + b == b;
  }

  function Pow(b: int, e: nat): int {
    if e == 0 then 1 else b * Pow(b, e - 1)
  }

  lemma {:induction false} PowAdd(b: int, d: nat, e: nat)
    ensures Pow(b, d + e) == Pow(b, d) * Pow(b, e)
  {
    if d > 0 {
      PowAdd(b, d - 1, e);
      assert Pow(b, d + e) == b * Pow(b, d - 1 + e);
      assert b * (Pow(b, d - 1) * Pow(b, e)) == b * Pow(b, d - 1) * Pow(b, e);
    }
  }

  /** The product of a list of numbers. */
  function Product(s: seq<int>): int {
    if s == [] then 1 else s[0] * Product(s[1..])
  }

  lemma {:induction false} ProductConcat(s: seq<int>, t: seq<int>)
    ensures Product(s + t) == Product(s) * Product(t)
  {
    if s == [] {
      assert s + t == t;
    } else {
      assert (s + t)[1..] == s[1..] + t;
      ProductConcat(s[1..], t);
      assert s[0] * (Product(s[1..]) * Product(t)) == s[0] * Product(s[1..]) * Product(t);
    }
  }

  /** A product does not depend on the order of its factors. */
  lemma {:induction false} ProductPermutes(s: seq<int>, t: seq<int>)
    requires multiset(s) == multiset(t)
    ensures Product(s) == Product(t)
  {
    if s == [] {
      assert |multiset(t)| == |t| && |multiset(s)| == 0;
    } else {
      assert s[0] in multiset(t);
      var k :| 0 <= k < |t| && t[k] == s[0];
      var rest := t[..k] + t[k + 1..];
      assert t == t[..k] + [t[k]] + t[k + 1..];
      assert s == [s[0]] + s[1..];
      assert multiset(s[1..]) == multiset(s) - multiset{s[0]};
      assert multiset(rest) == multiset(t) - multiset{s[0]};
      ProductPermutes(s[1..], rest);
      ProductWithout(t, k);
    }
  }

  lemma ProductWithout(t: seq<int>, k: nat)
    requires k < |t|
    ensures Product(t) == t[k] * Product(t[..k] + t[k + 1..])
  {
    hide Product;
    assert t == t[..k] + t[k..];
    ProductConcat(t[..k], t[k..]);
    ProductConcat(t[..k], t[k + 1..]);
    ProductCons(t[k..]);
    assert t[k..][1..] == t[k + 1..];
    var a, b := Product(t[..k]), Product(t[k + 1..]);
    assert a * (t[k] * b) == t[k] * (a * b);
  }

  lemma ProductCons(t: seq<int>)
    requires t != []
    ensures Product(t) == t[0] * Product(t[1..])
  {
  }

  /** 1, 2, ..., n. */
  function UpTo(n: nat): (s: seq<int>)
    ensures |s| == n
    ensures forall i :: 0 <= i < n ==> s[i] == i + 1
  {
    seq(n, i => i + 1)
  }

  /** a, 2a, ..., na modulo p. */
  function Multiples(a: int, n: nat, p: nat): (s: seq<int>)
    requires p > 0
    ensures |s| == n
    ensures forall i :: 0 <= i < n ==> s[i] == ResidueMultiple(a, i + 1, p)
  {
    seq(n, i => ResidueMultiple(a, i + 1, p))
  }

  function ResidueMultiple(a: int, k: int, p: nat): nat
    requires p > 0
  {
    (a * k) % p
  }

  ghost function Range(s: seq<int>): set<int> {
    set x | x in s
  }

  lemma {:induction false} DistinctSize(s: seq<int>)
    requires forall i, j :: 0 <= i < j < |s| ==> s[i] != s[j]
    ensures |Range(s)| == |s|
    ensures forall x :: multiset(s)[x] == if x in Range(s) then 1 else 0
  {
    if s == [] {
    } else {
      var rest := s[1..];
      DistinctSize(rest);
      assert s == [s[0]] + rest;
      assert Range(s) == {s[0]} + Range(rest);
      assert s[0] !in Range(rest);
    }
  }

  /** Multiplication by a non-zero residue permutes the non-zero residues. */
  lemma MultiplesPermute(a: int, p: nat)
    requires IsPrime(p) && !Cong(a, 0, p)
    ensures multiset(Multiples(a, p - 1, p)) == multiset(UpTo(p - 1))
  {
    assert p > 1;
    hide IsPrime, Cong;
    MultiplesDistinct(a, p);
    MultiplesInRange(a, p);
    hide Multiples, UpTo;
    Rearranged(Multiples(a, p - 1, p), UpTo(p - 1));
  }

  lemma MultiplesDistinct(a: int, p: nat)
    requires p > 1 && IsPrime(p) && !Cong(a, 0, p)
    ensures var s := Multiples(a, p - 1, p); forall i, j :: 0 <= i < j < |s| ==> s[i] != s[j]
  {
    hide IsPrime, Cong, ResidueMultiple;
    var s := Multiples(a, p - 1, p);
    forall i, j | 0 <= i < j < |s|
      ensures s[i] != s[j]
    {
      MultiplesDiffer(a, i + 1, j + 1, p);
    }
  }

  lemma MultiplesInRange(a: int, p: nat)
    requires p > 1 && IsPrime(p) && !Cong(a, 0, p)
    ensures var s, t := Multiples(a, p - 1, p), UpTo(p - 1); forall i :: 0 <= i < |s| ==> s[i] in Range(t)
  {
    hide IsPrime, Cong, ResidueMultiple;
    var s, t := Multiples(a, p - 1, p), UpTo(p - 1);
    forall i | 0 <= i < |s|
      ensures s[i] in Range(t)
    {
      MultipleNonZero(a, i + 1, p);
      assert t[s[i] - 1] == s[i];
    }
  }

  /** As many different values, all from among those of t, are a rearrangement of t. */
  lemma Rearranged(s: seq<int>, t: seq<int>)
    requires (forall i, j :: 0 <= i < j < |s| ==> s[i] != s[j]) && (forall i, j :: 0 <= i < j < |t| ==> t[i] != t[j])
    requires |s| == |t| && forall i :: 0 <= i < |s| ==> s[i] in Range(t)
    ensures multiset(s) == multiset(t)
  {
    DistinctSize(s);
    DistinctSize(t);
    assert Range(s) <= Range(t);
    SubsetOfSameSize(Range(s), Range(t));
  }

  lemma SubsetOfSameSize(s: set<int>, t: set<int>)
    requires s <= t && |s| == |t|
    ensures s == t
  {
    assert t == s + (t - s);
    assert |t| == |s| + |t - s|;
  }

  lemma MultipleNonZero(a: int, i: nat, p: nat)
    requires IsPrime(p) && !Cong(a, 0, p) && 0 < i < p
    ensures 0 < ResidueMultiple(a, i, p) < p
  {
    SmallMod(0, p);
    SmallMod(i, p);
    if (a * i) % p == 0 {
      NoZeroDivisors(a, i, p);
    }
  }

  lemma MultiplesDiffer(a: int, i: nat, j: nat, p: nat)
    requires IsPrime(p) && !Cong(a, 0, p) && 0 < i < j < p
    ensures ResidueMultiple(a, i, p) != ResidueMultiple(a, j, p)
  {
    if (a * i) % p == (a * j) % p {
      Cancel(i, j, a, p);
      SmallMod(i, p);
      SmallMod(j, p);
    }
  }

  /** The product of the multiples is a^n times the product of the numbers. */
  lemma {:induction false} ProductOfMultiples(a: int, n: nat, p: nat)
    requires p > 0
    ensures Cong(Product(Multiples(a, n, p)), Pow(a, n) * Product(UpTo(n)), p)
  {
    if n > 0 {
      ProductOfMultiples(a, n - 1, p);
      var s, t := Multiples(a, n, p), UpTo(n);
      assert s == Multiples(a, n - 1, p) + [ResidueMultiple(a, n, p)];
      assert t == UpTo(n - 1) + [n];
      ProductConcat(Multiples(a, n - 1, p), [ResidueMultiple(a, n, p)]);
      ProductConcat(UpTo(n - 1), [n]);
      ProductSingle(ResidueMultiple(a, n, p));
      ProductSingle(n);
      ModMod(a * n, p);
      hide ResidueMultiple;
      CongMul(Product(Multiples(a, n - 1, p)), Pow(a, n - 1) * Product(UpTo(n - 1)), ResidueMultiple(a, n, p), a * n,
          p);
      Regroup(Pow(a, n - 1), Product(UpTo(n - 1)), a, n);
    }
  }

  lemma ProductSingle(x: int)
    ensures Product([x]) == x
  {
    assert [x][1..] == [];
  }

  lemma Regroup(w: int, q: int, a: int, n: int)
    ensures w * q * (a * n) == a * w * (q * n)
  {
  }

  /** No factor below p is divisible by p, so neither is the product. */
  lemma {:induction false} FactorialNonZero(n: nat, p: nat)
    requires IsPrime(p) && n < p
    ensures !Cong(Product(UpTo(n)), 0, p)
  {
    SmallMod(0, p);
    if n == 0 {
      SmallMod(1, p);
    } else {
      FactorialNonZero(n - 1, p);
      assert UpTo(n) == UpTo(n - 1) + [n];
      ProductConcat(UpTo(n - 1), [n]);
      ProductSingle(n);
      SmallMod(n, p);
      if Cong(Product(UpTo(n)), 0, p) {
        NoZeroDivisors(Product(UpTo(n - 1)), n, p);
      }
    }
  }

  /** Fermat's little theorem. */
  lemma Fermat(a: int, p: nat)
    requires IsPrime(p) && !Cong(a, 0, p)
    ensures Cong(Pow(a, p - 1), 1, p)
  {
    hide Product, Pow;
    MultiplesPermute(a, p);
    ProductPermutes(Multiples(a, p - 1, p), UpTo(p - 1));
    ProductOfMultiples(a, p - 1, p);
    FactorialNonZero(p - 1, p);
    Cancel(Pow(a, p - 1), 1, Product(UpTo(p - 1)), p);
  }

  /** The inverse the firmware computes. */
  ghost function Inv(a: int, p: nat): (r: nat)
    requires p > 1
    ensures r < p
  {
    Pow(a, p - 2) % p
  }

  lemma InverseLaw(a: int, p: nat)
    requires IsPrime(p) && !Cong(a, 0, p)
    ensures Cong(Inv(a, p) * a, 1, p)
  {
    Fermat(a, p);
    ModProduct(Pow(a, p - 2), a, p);
    assert Pow(a, p - 1) == a * Pow(a, p - 2);
  }

  lemma {:induction false} PowCong(a: int, b: int, e: nat, p: nat)
    requires p > 0 && Cong(a, b, p)
    ensures Cong(Pow(a, e), Pow(b, e), p)
  {
    if e > 0 {
      PowCong(a, b, e - 1, p);
      CongMul(a, b, Pow(a, e - 1), Pow(b, e - 1), p);
    }
  }
}
