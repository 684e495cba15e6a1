/** 11-bit fields packed into 32-bit words, as one number (statistics.c). */
module Packing {
  import opened Arith
  import opened Bytes
  import opened Bignum

  const WORD: nat := 0x1_0000_0000
  const FIELD: nat := 2048
  const BITS: nat := 11

  lemma Associate(a: nat, b: nat, c: nat)
    ensures a * b * c == a * (b * c)
  {
  }

  lemma Pow2Values()
    ensures Pow2(11) == FIELD && Pow2(32) == WORD
  {
    assert Pow2(8) == 256 && Pow2(3) == 8;
    hide Pow2;
    Pow2Add(8, 3);
    Pow2Add(8, 8);
    Pow2Add(16, 16);
  }

  /** The words as one number, least significant first. */
  function Num(words: seq<nat>): nat {
    if words == [] then 0 else words[0] + WORD * Num(words[1..])
  }

  ghost predicate Words(words: seq<nat>) {
    forall i :: 0 <= i < |words| ==> words[i] < WORD
  }

  lemma {:induction false} NumConcat(a: seq<nat>, b: seq<nat>)
    ensures Num(a + b) == Num(a) + Pow2(32 * |a|) * Num(b)
  {
    if a == [] {
      assert a + b == b;
    } else {
      NumConcat(a[1..], b);
      assert (a + b)[1..] == a[1..] + b;
      Pow2Add(32, 32 * (|a| - 1));
      Pow2Values();
      Distribute(WORD, Num(a[1..]), Pow2(32 * |a[1..]|), Num(b));
    }
  }

  lemma Distribute(w: nat, x: nat, p: nat, y: nat)
    ensures w * (x + p * y) == w * x + (w * p) * y
  {
  }

  lemma {:induction false} NumBound(words: seq<nat>)
    requires Words(words)
    ensures Num(words) < Pow2(32 * |words|)
  {
    if words != [] {
      NumBound(words[1..]);
      Pow2Add(32, 32 * (|words| - 1));
      Pow2Values();
      NextBound(words[0], Num(words[1..]), Pow2(32 * |words[1..]|));
    }
  }

  lemma NextBound(w: nat, x: nat, p: nat)
    requires w < WORD && x < p
    ensures w + WORD * x < WORD * p
  {
    MulMono(x + 1, p, WORD);
  }

  /** The field of 11 bits at a bit position. */
  function FieldAt(x: nat, bit: nat): (f: nat)
    ensures f < FIELD
  {
    (x / Pow2(bit)) % FIELD
  }

  /** x = low + 2^bit * (field + 2^11 * high), and nothing else has that form. */
  lemma FieldUnique(x: nat, bit: nat, low: nat, field: nat, high: nat)
    requires low < Pow2(bit) && field < FIELD && x == low + Pow2(bit) * (field + FIELD * high)
    ensures FieldAt(x, bit) == field && x / Pow2(bit) == field + FIELD * high && x % Pow2(bit) == low
  {
    var p, q := Pow2(bit), field + FIELD * high;
    Commute(p, q);
    ModUnique(x, p, q, low);
    Commute(FIELD, high);
    ModUnique(q, FIELD, high, field);
  }

  lemma FieldSplit(x: nat, bit: nat) returns (low: nat, high: nat)
    ensures low < Pow2(bit) && x == low + Pow2(bit) * (FieldAt(x, bit) + FIELD * high)
  {
    hide Pow2, FieldAt;
    var p := Pow2(bit);
    Euclid(x, p);
    low := x % p;
    var q := x / p;
    high := q / FIELD;
    Recombine(x, p, q, low, high);
    FieldIs(x, bit);
  }

  lemma FieldIs(x: nat, bit: nat)
    ensures FieldAt(x, bit) == (x / Pow2(bit)) % FIELD
  {
  }

  lemma Recombine(x: nat, p: nat, q: nat, low: nat, high: nat)
    requires x == q * p + low && high == q / FIELD
    ensures x == low + p * (q % FIELD + FIELD * high)
  {
    Euclid(q, FIELD);
    assert q == q % FIELD + FIELD * high;
    Commute(q, p);
  }

  lemma Euclid(x: nat, n: nat)
    requires n > 0
    ensures x == (x / n) * n + x % n && x % n < n && x / n >= 0
  {
  }

  /** A field can be replaced; the number changes by the difference times its weight. */
  ghost function WithField(x: nat, bit: nat, value: nat): int {
    x + (value - FieldAt(x, bit)) * Pow2(bit)
  }

  lemma WithFieldParts(x: nat, bit: nat, value: nat) returns (low: nat, high: nat)
    requires value < FIELD
    ensures low < Pow2(bit) && x == low + Pow2(bit) * (FieldAt(x, bit) + FIELD * high)
    ensures WithField(x, bit, value) == low + Pow2(bit) * (value + FIELD * high) && WithField(x, bit, value) >= 0
  {
    hide FieldAt, Pow2;
    low, high := FieldSplit(x, bit);
    Exchange(Pow2(bit), FieldAt(x, bit), value, FIELD * high);
    NonNegative(Pow2(bit), value + FIELD * high);
  }

  lemma NonNegative(a: nat, b: nat)
    ensures a * b >= 0
  {
  }

  lemma Exchange(p: nat, old0: nat, new0: nat, rest: nat)
    ensures p * (old0 + rest) + (new0 - old0) * p == p * (new0 + rest)
  {
    Spread(p, old0, rest);
    Spread(p, new0, rest);
    SpreadDifference(p, new0, old0);
  }

  lemma Spread(p: nat, a: nat, b: nat)
    ensures p * (a + b) == p * a + p * b
  {
  }

  lemma SpreadDifference(p: nat, a: nat, b: nat)
    ensures (a - b) * p == p * a - p * b
  {
  }

  /** Replacing a field gives that field its value and leaves every other field alone. */
  lemma OtherFields(x: nat, i: nat, value: nat, j: nat)
    requires value < FIELD
    ensures WithField(x, BITS * i, value) >= 0
    ensures FieldAt(WithField(x, BITS * i, value), BITS * j) == if i == j then value else FieldAt(x, BITS * j)
  {
    hide FieldAt, Pow2, WithField;
    var low, high := WithFieldParts(x, BITS * i, value);
    var y := WithField(x, BITS * i, value);
    if i == j {
      FieldUnique(y, BITS * i, low, value, high);
    } else if j > i {
      FieldAbove(low, FieldAt(x, BITS * i), high, i, j);
      FieldAbove(low, value, high, i, j);
    } else {
      FieldBelow(low, FieldAt(x, BITS * i) + FIELD * high, i, j);
      FieldBelow(low, value + FIELD * high, i, j);
    }
  }

  /** A field above field i depends on what is above field i. */
  lemma FieldAbove(low: nat, field: nat, high: nat, i: nat, j: nat)
    requires i < j && low < Pow2(BITS * i) && field < FIELD
    ensures FieldAt(low + Pow2(BITS * i) * (field + FIELD * high), BITS * j) == FieldAt(high, BITS * (j - i - 1))
  {
    hide FieldAt, Pow2;
    var a, h := FieldSplit(high, BITS * (j - i - 1));
    var p, q := Pow2(BITS * i), Pow2(BITS * (j - i - 1));
    Pow2Add(BITS * i, BITS);
    Pow2Add(BITS * i + BITS, BITS * (j - i - 1));
    Pow2Values();
    assert BITS * j == BITS * i + BITS + BITS * (j - i - 1);
    var f := FieldAt(high, BITS * (j - i - 1));
    var x, l := Reassemble(low, p, field, a, q, f + FIELD * h, high);
    FieldUnique(x, BITS * j, l, f, h);
  }

  lemma Reassemble(low: nat, p: nat, field: nat, a: nat, q: nat, rest: nat, high: nat) returns (x: nat, l: nat)
    requires low < p && field < FIELD && a < q && high == a + q * rest
    ensures x == low + p * (field + FIELD * high) && x == l + ((p * FIELD) * q) * rest && l < (p * FIELD) * q
  {
    NonNegative(p, field + FIELD * high);
    NonNegative(p, field + FIELD * a);
    x, l := low + p * (field + FIELD * high), low + p * (field + FIELD * a);
    assert p * (field + FIELD * (a + q * rest)) == p * (field + FIELD * a) + ((p * FIELD) * q) * rest by {
      assert FIELD * (a + q * rest) == FIELD * a + FIELD * (q * rest);
      Spread(p, field + FIELD * a, FIELD * (q * rest));
      Associate(p, FIELD, q * rest);
      Associate(p * FIELD, q, rest);
    }
    assert field + FIELD * a + 1 <= FIELD * q by {
      MulMono(a + 1, q, FIELD);
    }
    MulMono(field + FIELD * a + 1, FIELD * q, p);
    Spread(p, field + FIELD * a, 1);
    Associate(p, FIELD, q);
    Commute(p, field + FIELD * a + 1);
    Commute(p, FIELD * q);
  }

  /** A field below field i depends on what is below field i. */
  lemma FieldBelow(low: nat, upper: nat, i: nat, j: nat)
    requires j < i && low < Pow2(BITS * i)
    ensures FieldAt(low + Pow2(BITS * i) * upper, BITS * j) == FieldAt(low, BITS * j)
  {
    hide FieldAt, Pow2;
    var a, h := FieldSplit(low, BITS * j);
    var f := FieldAt(low, BITS * j);
    var p, q := Pow2(BITS * j), Pow2(BITS * (i - j - 1));
    Pow2Add(BITS * j, BITS);
    Pow2Add(BITS * j + BITS, BITS * (i - j - 1));
    Pow2Values();
    assert BITS * i == BITS * j + BITS + BITS * (i - j - 1);
    Lift(p, q, upper, f, h);
    FieldUnique(low + Pow2(BITS * i) * upper, BITS * j, a, f, h + q * upper);
  }

  lemma Lift(p: nat, q: nat, upper: nat, f: nat, h: nat)
    ensures p * (f + FIELD * h) + ((p * FIELD) * q) * upper == p * (f + FIELD * (h + q * upper))
  {
    assert FIELD * (h + q * upper) == FIELD * h + FIELD * (q * upper);
    Spread(p, f + FIELD * h, FIELD * (q * upper));
    Associate(p, FIELD, q * upper);
    Associate(p * FIELD, q, upper);
  }

  // ----- masks -----

  lemma {:induction false} AndLow(x: nat, k: nat)
    ensures BitAnd(x, Pow2(k) - 1) == x % Pow2(k)
  {
    if k > 0 {
      AndLow(x / 2, k - 1);
      var p := Pow2(k - 1);
      LowHalf(x, p);
      if x > 0 {
        assert (2 * p - 1) / 2 == p - 1 && (2 * p - 1) % 2 == 1;
      }
    }
  }

  lemma LowHalf(x: nat, p: nat)
    requires p > 0
    ensures x % (2 * p) == x % 2 + 2 * (x / 2 % p)
  {
    var q, r := x / 2, x % 2;
    Euclid(q, p);
    Commute(q / p, p);
    assert x == (q / p) * (2 * p) + (r + 2 * (q % p));
    ModUnique(x, 2 * p, q / p, r + 2 * (q % p));
  }

  lemma {:induction false} AndHigh(x: nat, n: nat, k: nat)
    requires k <= n && x < Pow2(n)
    ensures Pow2(k) <= Pow2(n) && BitAnd(x, Pow2(n) - Pow2(k)) == x - x % Pow2(k)
    decreases k
  {
    hide BitAnd, Pow2;
    Pow2Mono(k, n);
    if k == 0 {
      SmallPowers();
      AndLow(x, n);
      SmallMod(x, Pow2(n));
      ModOne(x);
    } else {
      NextPow2(n - 1);
      NextPow2(k - 1);
      Pow2Mono(k - 1, n - 1);
      AndHigh(x / 2, n - 1, k - 1);
      AndEven(x, Pow2(n - 1) - Pow2(k - 1));
      LowHalf(x, Pow2(k - 1));
      Euclid(x, 2);
    }
  }

  lemma AndStep(x: nat, y: nat)
    ensures BitAnd(x, y) == (if x % 2 == 1 && y % 2 == 1 then 1 else 0) + 2 * BitAnd(x / 2, y / 2)
  {
  }

  lemma AndEven(x: nat, y: nat)
    ensures BitAnd(x, 2 * y) == 2 * BitAnd(x / 2, y)
  {
    hide BitAnd;
    AndStep(x, 2 * y);
    Halves(0, y);
  }

  lemma Halves(low: nat, u: nat)
    ensures (low + 2 * u) / 2 == low / 2 + u && (low + 2 * u) % 2 == low % 2
  {
  }

  lemma ModOne(x: nat)
    ensures x % 1 == 0
  {
  }

  /** t shifted left by b bits. */
  function Up(t: nat, b: nat): (u: nat)
    ensures u == Pow2(b) * t
  {
    NonNegative(Pow2(b), t);
    Pow2(b) * t
  }

  lemma UpStep(t: nat, b: nat)
    ensures Up(t, 0) == t && Up(t, b + 1) == 2 * Up(t, b)
  {
    Associate(2, Pow2(b), t);
  }

  /** Clearing the 11 bits at b. */
  lemma {:induction false} AndField(x: nat, low: nat, b: nat, f: nat, u: nat, h: nat, n: nat)
    requires low < Pow2(b) && f < FIELD && u == FIELD * h && b + BITS <= n && x == low + Up(f + u, b) && x < Pow2(n)
    ensures Up(2047, b) < Pow2(n) && BitAnd(x, Pow2(n) - 1 - Up(2047, b)) == low + Up(u, b)
    decreases b
  {
    hide BitAnd, Pow2, Up;
    if b == 0 {
      UpStep(f + u, 0);
      UpStep(u, 0);
      UpStep(2047, 0);
      SmallPowers();
      AndFieldZero(x, f, h, n);
    } else {
      NextPow2(b - 1);
      NextPow2(n - 1);
      UpStep(f + u, b - 1);
      UpStep(u, b - 1);
      UpStep(2047, b - 1);
      AndField(x / 2, low / 2, b - 1, f, u, h, n - 1);
      AndOdd(x, Pow2(n - 1), Up(2047, b));
    }
  }

  lemma NextPow2(k: nat)
    ensures Pow2(k + 1) == 2 * Pow2(k)
  {
  }

  lemma AndFieldZero(x: nat, f: nat, h: nat, n: nat)
    requires f < FIELD && BITS <= n && x == f + FIELD * h && x < Pow2(n)
    ensures 2047 < Pow2(n) && BitAnd(x, Pow2(n) - 1 - 2047) == FIELD * h
  {
    hide BitAnd, Pow2;
    Pow2Values();
    Pow2Mono(BITS, n);
    AndHigh(x, n, BITS);
    Commute(FIELD, h);
    ModUnique(x, FIELD, h, f);
  }

  lemma AndOdd(x: nat, p: nat, mask: nat)
    requires mask % 2 == 0 && mask / 2 < p
    ensures mask < 2 * p && BitAnd(x, 2 * p - 1 - mask) == x % 2 + 2 * BitAnd(x / 2, p - 1 - mask / 2)
  {
    assert (2 * p - 1 - mask) / 2 == p - 1 - mask / 2 && (2 * p - 1 - mask) % 2 == 1;
  }

  lemma {:induction false} OrDisjoint(m: nat, a: nat, s: nat)
    requires a < Pow2(s)
    ensures BitOrNat(Up(m, s), a) == Up(m, s) + a
    decreases s
  {
    hide Pow2, Up, BitOrNat;
    if s > 0 {
      NextPow2(s - 1);
      UpStep(m, s - 1);
      Halves(0, Up(m, s - 1));
      OrDisjoint(m, a / 2, s - 1);
      OrStep(Up(m, s), a);
    } else {
      SmallPowers();
      OrNothing(Up(m, s));
    }
  }

  lemma {:induction false} OrCommutes(a: nat, b: nat)
    ensures BitOrNat(a, b) == BitOrNat(b, a)
    decreases a + b
  {
    if a > 0 && b > 0 {
      OrCommutes(a / 2, b / 2);
    }
  }

  /** Filling in the 11 bits at b once they are clear. */
  lemma {:induction false} OrField(low: nat, b: nat, v: nat, u: nat, h: nat)
    requires low < Pow2(b) && v < FIELD && u == FIELD * h
    ensures BitOrNat(low + Up(u, b), Up(v, b)) == low + Up(v + u, b)
    decreases b
  {
    hide Pow2, Up, BitOrNat;
    if b == 0 {
      OrFieldZero(low, v, u, h);
    } else {
      NextPow2(b - 1);
      UpStep(u, b - 1);
      UpStep(v, b - 1);
      UpStep(v + u, b - 1);
      Euclid(low, 2);
      OrField(low / 2, b - 1, v, u, h);
      OrDoubled(low / 2 + Up(u, b - 1), low % 2, Up(v, b - 1));
    }
  }

  lemma OrDoubled(x: nat, e: nat, y: nat)
    requires e <= 1
    ensures BitOrNat(2 * x + e, 2 * y) == e + 2 * BitOrNat(x, y)
  {
    hide BitOrNat;
    OrStep(2 * x + e, 2 * y);
    Halves(e, x);
    Halves(0, y);
  }

  lemma OrFieldZero(low: nat, v: nat, u: nat, h: nat)
    requires low < Pow2(0) && v < FIELD && u == FIELD * h
    ensures BitOrNat(low + Up(u, 0), Up(v, 0)) == low + Up(v + u, 0)
  {
    hide Pow2, Up, BitOrNat;
    Pow2Values();
    SmallPowers();
    UpStep(u, 0);
    UpStep(v, 0);
    UpStep(v + u, 0);
    OrDisjoint(h, v, BITS);
    UpIs(h, BITS);
  }

  lemma OrNothing(x: nat)
    ensures BitOrNat(x, 0) == x
  {
  }

  lemma OrStep(x: nat, y: nat)
    ensures BitOrNat(x, y) == (if x % 2 + y % 2 > 0 then 1 else 0) + 2 * BitOrNat(x / 2, y / 2)
  {
  }

  lemma UpIs(t: nat, b: nat)
    ensures Up(t, b) == Pow2(b) * t
  {
  }

  // ----- a field in one word or two -----

  /** Operators on uint32_t. */
  function ShiftLeft(x: nat, k: nat): nat {
    Up(x, k) % WORD
  }

  function ShiftRight(x: nat, k: nat): nat {
    Euclid(x, Pow2(k));
    x / Pow2(k)
  }

  function Complement(x: nat): nat
    requires x < WORD
  {
    WORD - 1 - x
  }

  /** 2^32 = 2^b * 2^s * ... split at a bit. */
  lemma WordSplit(b: nat)
    requires b <= 32
    ensures WORD == Pow2(b) * Pow2(32 - b)
  {
    hide Pow2;
    Pow2Values();
    Pow2Add(b, 32 - b);
  }

  /** Multiples of a word are above a field that lies within one. */
  lemma WithinWord(w: nat, rest: nat, b: nat) returns (low: nat, h: nat)
    requires b + BITS <= 32 && w < WORD
    ensures low < Pow2(b) && w == low + Pow2(b) * (FieldAt(w, b) + FIELD * h)
    ensures w + WORD * rest == low + Pow2(b) * (FieldAt(w, b) + FIELD * (h + Pow2(21 - b) * rest))
    ensures FieldAt(w + WORD * rest, b) == FieldAt(w, b)
  {
    hide Pow2, FieldAt;
    low, h := FieldSplit(w, b);
    WordSplit(b);
    Pow2Add(BITS, 21 - b);
    Pow2Values();
    Associate(Pow2(b), FIELD, Pow2(21 - b));
    Lift(Pow2(b), Pow2(21 - b), rest, FieldAt(w, b), h);
    FieldUnique(w + WORD * rest, b, low, FieldAt(w, b), h + Pow2(21 - b) * rest);
  }

  lemma GetWithin(w: nat, rest: nat, b: nat)
    requires b + BITS <= 32 && w < WORD
    ensures BitAnd(ShiftRight(w, b), 2047) == FieldAt(w + WORD * rest, b)
  {
    hide BitAnd, Pow2, FieldAt;
    var _, _ := WithinWord(w, rest, b);
    Pow2Values();
    AndLow(w / Pow2(b), BITS);
    FieldIs(w, b);
  }

  /** What putHistogram() makes of a word when the field lies within it. */
  function PutWord(w: nat, b: nat, value: nat): nat {
    BitOrNat(BitAnd(w, Complement(ShiftLeft(2047, b))), ShiftLeft(value, b))
  }

  lemma SmallShift(v: nat, b: nat)
    requires v < FIELD && b + BITS <= 32
    ensures ShiftLeft(v, b) == Up(v, b) < WORD
  {
    hide Pow2;
    Pow2Values();
    WordSplit(b);
    Pow2Mono(BITS, 32 - b);
    MulMono(v + 1, Pow2(32 - b), Pow2(b));
    Commute(v + 1, Pow2(b));
    Commute(Pow2(32 - b), Pow2(b));
    Spread(Pow2(b), v, 1);
    SmallMod(Up(v, b), WORD);
  }

  lemma PutWithin(w: nat, rest: nat, b: nat, value: nat)
    requires b + BITS <= 32 && w < WORD && value < FIELD
    ensures PutWord(w, b, value) == WithField(w, b, value) < WORD
    ensures WithField(w, b, value) + WORD * rest == WithField(w + WORD * rest, b, value)
  {
    hide BitAnd, BitOrNat, Pow2, FieldAt, ShiftLeft, Up;
    var low, h := WithinWord(w, rest, b);
    var f, u := FieldAt(w, b), FIELD * h;
    SmallShift(2047, b);
    SmallShift(value, b);
    UpIs(f + u, b);
    Pow2Values();
    AndField(w, low, b, f, u, h, 32);
    OrField(low, b, value, u, h);
    UpIs(value + u, b);
    Exchange(Pow2(b), f, value, u);
    FieldInWord(low, b, value, h, w, f);
  }

  lemma FieldInWord(low: nat, b: nat, value: nat, h: nat, w: nat, f: nat)
    requires b + BITS <= 32 && low < Pow2(b) && value < FIELD && w == low + Pow2(b) * (f + FIELD * h) && w < WORD
    ensures low + Pow2(b) * (value + FIELD * h) < WORD
  {
    hide Pow2;
    var p, q := Pow2(b), Pow2(21 - b);
    WordSplit(b);
    Pow2Add(BITS, 21 - b);
    Pow2Values();
    if h >= q {
      MulMono(q, h, FIELD);
      MulMono(FIELD * q, f + FIELD * h, p);
      Commute(p, FIELD * q);
      Commute(p, f + FIELD * h);
    } else {
      MulMono(h + 1, q, FIELD);
      MulMono(value + FIELD * h + 1, FIELD * q, p);
      Commute(p, value + FIELD * h + 1);
      Commute(p, FIELD * q);
      Spread(p, value + FIELD * h, 1);
    }
  }

  /** A field across two words: its low s bits end the first word, its other bits begin the second. */
  lemma AcrossWords(w: nat, w2: nat, rest: nat, b: nat) returns (low: nat, u: nat, v: nat, g: nat)
    requires 21 < b < 32 && w < WORD && w2 < WORD
    ensures low < Pow2(b) && u < Pow2(32 - b) && v < Pow2(b - 21)
    ensures low == w % Pow2(b) && u == w / Pow2(b) && v == w2 % Pow2(b - 21)
    ensures w == low + Pow2(b) * u && w2 == v + Pow2(b - 21) * g
    ensures u + Up(v, 32 - b) < FIELD
    ensures w + WORD * (w2 + WORD * rest) == low + Pow2(b) * (u + Up(v, 32 - b) + FIELD * (g + Pow2(53 - b) * rest))
    ensures FieldAt(w + WORD * (w2 + WORD * rest), b) == u + Up(v, 32 - b)
  {
    hide Pow2, FieldAt;
    var p, s, t := Pow2(b), Pow2(32 - b), Pow2(b - 21);
    low, u, v, g := w % p, w / p, w2 % t, w2 / t;
    Euclid(w, p);
    Euclid(w2, t);
    Commute(u, p);
    Commute(g, t);
    WordSplit(b);
    Pow2Add(32 - b, b - 21);
    Pow2Add(b - 21, 53 - b);
    Pow2Values();
    if u >= s {
      MulMono(s, u, p);
    }
    FieldOfTwo(u, v, s, t);
    UpIs(v, 32 - b);
    Commute(v, s);
    TwoWords(low, p, u, s, v, t, g, Pow2(53 - b), rest);
    FieldUnique(w + WORD * (w2 + WORD * rest), b, low, u + Up(v, 32 - b), g + Pow2(53 - b) * rest);
  }

  lemma FieldOfTwo(u: nat, v: nat, s: nat, t: nat)
    requires u < s && v < t && s * t == FIELD
    ensures u + s * v < FIELD
  {
    MulMono(v + 1, t, s);
    Commute(v + 1, s);
    Commute(t, s);
    Spread(s, v, 1);
  }

  lemma TwoWords(low: nat, p: nat, u: nat, s: nat, v: nat, t: nat, g: nat, q: nat, rest: nat)
    requires p * s == WORD && s * t == FIELD && t * q == WORD
    ensures (low + p * u) + WORD * ((v + t * g) + WORD * rest) == low + p * (u + s * v + FIELD * (g + q * rest))
  {
    var y := v + t * g + WORD * rest;
    Associate(p, s, y);
    Spread(p, u, s * y);
    assert s * y == s * v + FIELD * (g + q * rest) by {
      Spread(s, v, t * g + WORD * rest);
      Spread(s, t * g, WORD * rest);
      Associate(s, t, g);
      Associate(t, q, rest);
      Associate(s, t, q * rest);
      Spread(FIELD, g, q * rest);
    }
  }

  lemma GetAcross(w: nat, w2: nat, rest: nat, b: nat)
    requires 21 < b < 32 && w < WORD && w2 < WORD
    ensures BitAnd(BitOrNat(BitAnd(ShiftRight(w, b), 2047), ShiftLeft(w2, 32 - b)), 2047)
         == FieldAt(w + WORD * (w2 + WORD * rest), b)
  {
    hide BitAnd, BitOrNat, Pow2, FieldAt, Up;
    var low, u, v, g := AcrossWords(w, w2, rest, b);
    var s := 32 - b;
    Pow2Values();
    Pow2Mono(s, BITS);
    AndLow(u, BITS);
    SmallMod(u, FIELD);
    var k := ShiftedMultiple(w2, s);
    OrDisjoint(k, u, s);
    OrCommutes(Up(k, s), u);
    AndLow(Up(k, s) + u, BITS);
    Truncated(w2, s, k, u, v, g, b);
  }

  /** Shifting left and truncating leaves a multiple of 2^s. */
  lemma ShiftedMultiple(x: nat, s: nat) returns (k: nat)
    requires s <= 32
    ensures ShiftLeft(x, s) == Up(k, s) && k == x % Pow2(32 - s)
  {
    hide Pow2, Up;
    var p, q := Pow2(s), Pow2(32 - s);
    WordSplit(s);
    Euclid(x, q);
    k := x % q;
    UpIs(x, s);
    UpIs(k, s);
    var m := x / q;
    Commute(m, q);
    Spread(p, q * m, k);
    Associate(p, q, m);
    Commute(WORD, m);
    MulMono(k + 1, q, p);
    Commute(k + 1, p);
    Commute(q, p);
    Spread(p, k, 1);
    ModUnique(Up(x, s), WORD, m, Up(k, s));
  }

  /** The truncated shift differs from the wanted bits by a multiple of 2^11. */
  lemma Truncated(w2: nat, s: nat, k: nat, u: nat, v: nat, g: nat, b: nat)
    requires 21 < b < 32 && s == 32 - b && k == w2 % Pow2(32 - s) && w2 == v + Pow2(b - 21) * g
    requires u + Up(v, s) < FIELD && v < Pow2(b - 21)
    ensures (Up(k, s) + u) % FIELD == u + Up(v, s)
  {
    hide Pow2, Up;
    var t := Pow2(b - 21);
    Pow2Add(s, b - 21);
    Pow2Add(b - 21, BITS + 10);
    Pow2Values();
    assert 32 - s == b - 21 + (BITS + 10);
    var m := ResidueSplit(w2, v, t, g, Pow2(BITS + 10), k);
    UpIs(k, s);
    UpIs(v, s);
    Spread(Pow2(s), v, t * m);
    Associate(Pow2(s), t, m);
    Commute(FIELD, m);
    ModUnique(Up(k, s) + u, FIELD, m, u + Up(v, s));
  }

  lemma ResidueSplit(x: nat, v: nat, t: nat, g: nat, q: nat, k: nat) returns (m: nat)
    requires t > 0 && q > 0 && v < t && x == v + t * g && k == x % (t * q)
    ensures k == v + t * m
  {
    Euclid(g, q);
    m := g % q;
    var c := g / q;
    Commute(c, q);
    Spread(t, q * c, m);
    Associate(t, q, c);
    Commute(t * q, c);
    MulMono(m + 1, q, t);
    Commute(m + 1, t);
    Commute(q, t);
    Spread(t, m, 1);
    ModUnique(x, t * q, c, v + t * m);
  }

  /** What putHistogram() makes of the second word when the field goes on into it. */
  function PutNextWord(w2: nat, b: nat, value: nat): nat
    requires 21 < b < 32
  {
    Pow2Mono(b - 21, 32);
    Pow2Values();
    BitOrNat(BitAnd(w2, Complement(Pow2(b - 21) - 1)), ShiftRight(value, 32 - b))
  }

  lemma FirstWord(w: nat, b: nat, value: nat)
    requires 21 < b < 32 && w < WORD && value < FIELD
    ensures PutWord(w, b, value) == w % Pow2(b) + Pow2(b) * (value % Pow2(32 - b)) < WORD
  {
    hide BitAnd, BitOrNat, Pow2, Up, ShiftLeft;
    var p, s := Pow2(b), Pow2(32 - b);
    Pow2Values();
    WordSplit(b);
    var m := ShiftedMultiple(2047, b);
    TopMask(b);
    AndLow(w, b);
    var k := ShiftedMultiple(value, b);
    Euclid(w, p);
    Euclid(value, s);
    OrDisjoint(k, w % p, b);
    OrCommutes(Up(k, b), w % p);
    UpIs(k, b);
    UpIs(m, b);
    MulMono(k + 1, s, p);
    Commute(k + 1, p);
    Commute(s, p);
    Spread(p, k, 1);
    Spread(p, m, 1);
  }

  /** 2047 fills all the bits that are left of a word. */
  lemma TopMask(b: nat)
    requires 21 < b < 32
    ensures 2047 % Pow2(32 - b) == Pow2(32 - b) - 1
  {
    hide Pow2;
    var s, t := Pow2(32 - b), Pow2(b - 21);
    Pow2Add(32 - b, b - 21);
    Pow2Values();
    Commute(s, t);
    Spread(s, t - 1, 1);
    Commute(s, t - 1);
    ModUnique(2047, s, t - 1, s - 1);
  }

  lemma SecondWord(w2: nat, g: nat, b: nat, value: nat)
    requires 21 < b < 32 && w2 < WORD && value < FIELD && w2 == w2 % Pow2(b - 21) + Pow2(b - 21) * g
    ensures PutNextWord(w2, b, value) == value / Pow2(32 - b) + Pow2(b - 21) * g < WORD
  {
    hide BitAnd, BitOrNat, Pow2, Up;
    var s, t := Pow2(32 - b), Pow2(b - 21);
    Pow2Values();
    Pow2Add(32 - b, b - 21);
    AndHigh(w2, 32, b - 21);
    Euclid(value, s);
    Below(value / s, value, s, t);
    UpIs(g, b - 21);
    OrDisjoint(g, value / s, b - 21);
    Pow2Add(b - 21, 53 - b);
    GapBound(w2, w2 % t, t, g, Pow2(53 - b), value / s);
  }

  lemma Below(q: nat, value: nat, s: nat, t: nat)
    requires s > 0 && s * t == FIELD && value < FIELD && q == value / s
    ensures q < t
  {
    Euclid(value, s);
    if q >= t {
      MulMono(t, q, s);
      Commute(t, s);
    }
  }

  lemma GapBound(w2: nat, v: nat, t: nat, g: nat, q: nat, x: nat)
    requires w2 == v + t * g && w2 < t * q && x < t
    ensures x + t * g < t * q
  {
    if g >= q {
      MulMono(q, g, t);
      Commute(q, t);
      Commute(g, t);
    } else {
      MulMono(g + 1, q, t);
      Commute(g + 1, t);
      Commute(q, t);
      Spread(t, g, 1);
    }
  }

  lemma PutAcross(w: nat, w2: nat, rest: nat, b: nat, value: nat)
    requires 21 < b < 32 && w < WORD && w2 < WORD && value < FIELD
    ensures PutWord(w, b, value) < WORD && PutNextWord(w2, b, value) < WORD
    ensures PutWord(w, b, value) + WORD * (PutNextWord(w2, b, value) + WORD * rest)
         == WithField(w + WORD * (w2 + WORD * rest), b, value)
  {
    hide BitAnd, BitOrNat, Pow2, FieldAt, Up, PutWord, PutNextWord;
    var low, u, v, g := AcrossWords(w, w2, rest, b);
    var p, s, t := Pow2(b), Pow2(32 - b), Pow2(b - 21);
    FirstWord(w, b, value);
    SecondWord(w2, g, b, value);
    WordSplit(b);
    Pow2Add(32 - b, b - 21);
    Pow2Add(b - 21, 53 - b);
    Pow2Values();
    TwoWords(low, p, value % s, s, value / s, t, g, Pow2(53 - b), rest);
    Euclid(value, s);
    Commute(value / s, s);
    Exchange(p, u + Up(v, 32 - b), value, FIELD * (g + Pow2(53 - b) * rest));
  }

  // ----- anywhere in the buffer -----

  /** Whole words below a field shift it by their width. */
  lemma FieldShift(below: nat, a: nat, y: nat, b: nat, value: nat)
    requires below < Pow2(a) && value < FIELD
    ensures FieldAt(below + Pow2(a) * y, a + b) == FieldAt(y, b)
    ensures WithField(below + Pow2(a) * y, a + b, value) == below + Pow2(a) * WithField(y, b, value)
  {
    hide Pow2, FieldAt;
    var low, h := FieldSplit(y, b);
    var f := FieldAt(y, b);
    var p, q := Pow2(a), Pow2(b);
    Pow2Add(a, b);
    var x, l := ShiftUp(below, p, low, q, f + FIELD * h, y);
    FieldUnique(x, a + b, l, f, h);
    Difference(p, q, value - f, y);
  }

  lemma ShiftUp(below: nat, p: nat, low: nat, q: nat, t: nat, y: nat) returns (x: nat, l: nat)
    requires below < p && low < q && y == low + q * t
    ensures x == below + p * y && x == l + (p * q) * t && l < p * q
  {
    NonNegative(p, y);
    NonNegative(p, low);
    x, l := below + p * y, below + p * low;
    Spread(p, low, q * t);
    Associate(p, q, t);
    MulMono(low + 1, q, p);
    Commute(low + 1, p);
    Commute(q, p);
    Spread(p, low, 1);
  }

  lemma Difference(p: nat, q: nat, d: int, y: nat)
    ensures p * y + d * (p * q) == p * (y + d * q)
  {
    assert p * (y + d * q) == p * y + p * (d * q);
    assert p * (d * q) == d * (p * q);
  }
}
