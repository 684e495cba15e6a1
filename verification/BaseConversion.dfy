/** Decimal amounts and Base58Check addresses by repeated multi-precision division (baseconv.c). */
module BaseConversion {
  import opened Arith
  import opened Bytes
  import opened Bignum

  const BASE58_SHIFT_LIST: seq<Byte> :=
    [0x00, 0x1d, 0x80, 0x0e, 0x40, 0x07, 0xa0, 0x03, 0xd0, 0x01, 0xe8, 0x00, 0x74, 0x00, 0x3a, 0x00]

  const BASE10_SHIFT_LIST: seq<Byte> :=
    [0x00, 0x05, 0x80, 0x02, 0x40, 0x01, 0xa0, 0x00, 0x50, 0x00, 0x28, 0x00, 0x14, 0x00, 0x0a, 0x00]

  /** Entry j of the list is the divisor shifted left by 7 - j bits. */
  ghost predicate ShiftListOf(list: seq<Byte>, n: nat) {
    && |list| == 16 && 1 <= n < 256
    && forall j :: 0 <= j < 8 ==> Entry(list, j) == n * Pow2(7 - j)
  }

  function Entry(list: seq<Byte>, j: nat): nat
    requires |list| == 16 && j < 8
  {
    list[j * 2] + (list[j * 2 + 1] as int) * 256
  }

  lemma ShiftLists()
    ensures ShiftListOf(BASE58_SHIFT_LIST, 58) && ShiftListOf(BASE10_SHIFT_LIST, 10)
  {
    forall j | 0 <= j < 8
      ensures Entry(BASE58_SHIFT_LIST, j) == 58 * Pow2(7 - j) && Entry(BASE10_SHIFT_LIST, j) == 10 * Pow2(7 - j)
    {
      Weights();
      assert j == 0 || j == 1 || j == 2 || j == 3 || j == 4 || j == 5 || j == 6 || j == 7;
    }
  }

  lemma Weights()
    ensures Pow2(0) == 1 && Pow2(1) == 2 && Pow2(2) == 4 && Pow2(3) == 8
    ensures Pow2(4) == 16 && Pow2(5) == 32 && Pow2(6) == 64 && Pow2(7) == 128
  {
  }

  // ----- one bit of the quotient -----

  /**
   While byte i of the quotient is found: `start` is what the byte began with, x what is left of it, q the bits found,
   unit = divisor * 256^i; the next bit is worth w.
   */
  ghost predicate Dividing(start: nat, x: nat, q: nat, w: nat, unit: nat) {
    start == x + q * unit && x < 2 * w * unit
  }

  lemma DivideBit(start: nat, x: nat, q: nat, w: nat, unit: nat, trial: nat)
    requires Dividing(start, x, q, w, unit) && trial == w * unit
    ensures trial <= x ==> start == (x - trial) + (q + w) * unit && x - trial < w * unit
    ensures trial > x ==> start == x + q * unit && x < w * unit
  {
    assert (q + w) * unit == q * unit + w * unit;
  }

  /** The bits found so far, m of them as a number, are above the next one, so that setting it is adding it. */
  lemma SetBit(q: Byte, m: nat, k: nat)
    requires k < 8 && q == 2 * Pow2(k) * m
    ensures 1 <= Pow2(k) <= 128 && BitOr(q, Pow2(k)) == q + Pow2(k) && q + Pow2(k) < 256
  {
    hide BitOrNat, Pow2;
    Weights();
    Disjoint(q, Pow2(k), m, k);
    var w := Pow2(k);
    assert k == 0 || k == 1 || k == 2 || k == 3 || k == 4 || k == 5 || k == 6 || k == 7;
    Room(q, w, m, 128 / w);
  }

  lemma Room(q: nat, w: nat, m: nat, all: nat)
    requires q == 2 * w * m && q < 256 && 2 * w * all == 256 && w > 0
    ensures q + 2 * w <= 256
  {
    if m >= all {
      MulMono(all, m, 2 * w);
    } else {
      MulMono(m + 1, all, 2 * w);
      assert (m + 1) * (2 * w) == 2 * w * m + 2 * w;
    }
  }

  lemma {:induction false} Disjoint(a: nat, b: nat, m: nat, k: nat)
    requires b == Pow2(k) && a == 2 * b * m
    ensures BitOrNat(a, b) == a + b
    decreases k
  {
    if k > 0 {
      var c := Pow2(k - 1);
      Halved(c, m);
      Disjoint(2 * c * m, c, m, k - 1);
    }
  }

  lemma Halved(c: nat, m: nat)
    ensures 2 * (2 * c) * m == 2 * (2 * c * m)
  {
  }

  // ----- a byte of the quotient -----

  /** The divisor shifted to bytes i and i + 1 of an otherwise empty number. */
  lemma TrialValue(temp: seq<Byte>, i: nat, entry: nat)
    requires i + 1 < |temp| && entry == temp[i] + (temp[i + 1] as int) * 256
    requires forall k :: 0 <= k < |temp| && k != i && k != i + 1 ==> temp[k] == 0
    ensures Val(temp) == entry * Pow256(i)
  {
    hide Val, Pow256;
    ValSplit(temp, i);
    ValSplit(temp[i..], 2);
    ValZero(temp[..i]);
    ValZero(temp[i..][2..]);
    TwoBytes(temp[i], temp[i + 1]);
    assert temp[i..][..2] == [temp[i], temp[i + 1]];
    MulZeroValue(Pow256(2));
    Commute(Pow256(i), entry);
  }

  lemma TwoBytes(a: Byte, b: Byte)
    ensures Val([a, b]) == a + (b as int) * 256
  {
    assert Val([b]) == b by {
      assert [b][1..] == [];
    }
    assert [a, b][1..] == [b];
  }

  lemma MulZeroValue(p: nat)
    ensures p * 0 == 0
  {
  }

  /** One trial subtraction of a shifted divisor. */
  method TryBit(r: array<Byte>, op1: array<Byte>, temp: array<Byte>, size: Byte, low: Byte, high: Byte, oneBit: Byte,
      i: nat)
    requires 1 <= size < 255 && r.Length >= size && op1.Length > size && temp.Length > size && i < size
    requires r != op1 && r != temp && op1 != temp
    requires forall a :: 0 <= a <= size && a != i && a != i + 1 ==> temp[a] == 0
    modifies r, op1, temp
    ensures var x, trial := old(Val(op1[..size + 1])), (low + (high as int) * 256) * Pow256(i);
            if trial <= x then Val(op1[..size + 1]) == x - trial && r[i] == BitOr(old(r[i]), oneBit)
            else Val(op1[..size + 1]) == x && r[i] == old(r[i])
    ensures forall a :: 0 <= a <= size && a != i && a != i + 1 ==> temp[a] == 0
    ensures forall a :: 0 <= a < r.Length && a != i ==> r[a] == old(r[a])
  {
    hide Val, Pow256, BitOr;
    temp[i], temp[i + 1] := low, high;
    TrialValue(temp[..size + 1], i, low + (high as int) * 256);
    var c := BigCompareVariableSize(temp, op1, size + 1);
    if c != BIGCMP_GREATER {
      var borrow := BigSubtractVariableSizeNoModulo(op1, op1, temp, size + 1);
      MulZeroValue(Pow256(size + 1));
      r[i] := BitOr(r[i], oneBit);
    }
  }

  /** A bit has been tried: the same relation with half the weight, or the byte is done. */
  lemma NextBit(start: nat, x: nat, q: nat, m: nat, k: nat, unit: nat)
    requires k < 8 && start == x + q * unit && x < Pow2(k) * unit && q == Pow2(k) * m
    ensures k > 0 ==> Pow2(k) / 2 == Pow2(k - 1) && q == 2 * Pow2(k - 1) * m && Dividing(start, x, q, Pow2(k - 1), unit)
    ensures k == 0 ==> x < unit
  {
  }

  lemma OddBit(q: nat, w: nat, m: nat)
    requires q == 2 * w * m
    ensures q + w == w * (2 * m + 1) && q == w * (2 * m)
  {
    assert w * (2 * m + 1) == w * (2 * m) + w;
  }

  lemma TrialIs(entry: nat, n: nat, w: nat, p: nat)
    requires entry == n * w
    ensures entry * p == w * (n * p)
  {
  }

  /** Bits above bit k are settled: m is their number. With k = -1 the byte is done. */
  ghost predicate BitState(start: nat, x: nat, q: nat, m: nat, k: int, unit: nat) {
    if k >= 0 then q == 2 * Pow2(k) * m && Dividing(start, x, q, Pow2(k), unit)
    else start == x + q * unit && x < unit
  }

  lemma BitStateStep(start: nat, x: nat, q: Byte, m: nat, k: nat, n: nat, p: nat, entry: nat) returns (m': nat)
    requires k < 8 && BitState(start, x, q, m, k, n * p) && entry == n * Pow2(k)
    ensures Pow2(k) <= 128
    ensures if entry * p <= x then BitState(start, x - entry * p, BitOr(q, Pow2(k)), m', k - 1, n * p)
            else BitState(start, x, q, m', k - 1, n * p)
    ensures k > 0 ==> Pow2(k) / 2 == Pow2(k - 1)
  {
    var w := Pow2(k);
    SetBit(q, m, k);
    TrialIs(entry, n, w, p);
    DivideBit(start, x, q, w, n * p, entry * p);
    OddBit(q, w, m);
    hide BitOr, Dividing;
    if entry * p <= x {
      m' := 2 * m + 1;
      NextBit(start, x - entry * p, q + w, m', k, n * p);
    } else {
      m' := 2 * m;
      NextBit(start, x, q, m', k, n * p);
    }
  }

  /** Byte i of the quotient, from the top bit down. */
  method DivideByte(r: array<Byte>, op1: array<Byte>, temp: array<Byte>, size: Byte, shiftList: seq<Byte>, i: nat,
      ghost n: nat)
    requires 1 <= size < 255 && r.Length >= size && op1.Length > size && temp.Length > size && i < size
    requires r != op1 && r != temp && op1 != temp && ShiftListOf(shiftList, n) && r[i] == 0
    requires forall a :: 0 <= a <= size && a != i && a != i + 1 ==> temp[a] == 0
    requires Val(op1[..size + 1]) < n * (256 * Pow256(i))
    modifies r, op1, temp
    ensures BitState(old(Val(op1[..size + 1])), Val(op1[..size + 1]), r[i], 0, -1, n * Pow256(i))
    ensures forall a :: 0 <= a <= size && a != i ==> temp[a] == 0
    ensures forall a :: 0 <= a < r.Length && a != i ==> r[a] == old(r[a])
  {
    var oneBit: Byte := 0x80;
    ghost var start, unit := Val(op1[..size + 1]), n * Pow256(i);
    ghost var m: nat := 0;
    FirstBit(start, n, Pow256(i));
    hide Val, Pow256, Pow2, BitState, Entry, BitOr;
    for j := 0 to 8
      invariant forall a :: 0 <= a <= size && a != i && a != i + 1 ==> temp[a] == 0
      invariant forall a :: 0 <= a < r.Length && a != i ==> r[a] == old(r[a])
      invariant j < 8 ==> oneBit == Pow2(7 - j)
      invariant BitState(start, Val(op1[..size + 1]), r[i], m, 7 - j, unit)
    {
      ghost var next := BitStateStep(start, Val(op1[..size + 1]), r[i], m, 7 - j, n, Pow256(i), Entry(shiftList, j));
      EntryIs(shiftList, j);
      TryBit(r, op1, temp, size, shiftList[j * 2], shiftList[j * 2 + 1], oneBit, i);
      m := next;
      oneBit := oneBit / 2;
    }
    ByteDone(start, Val(op1[..size + 1]), r[i], m, unit);
    temp[i + 1] := 0;
  }

  lemma ByteDone(start: nat, x: nat, q: nat, m: nat, unit: nat)
    requires BitState(start, x, q, m, -1, unit)
    ensures BitState(start, x, q, 0, -1, unit)
  {
  }

  lemma EntryIs(list: seq<Byte>, j: nat)
    requires |list| == 16 && j < 8
    ensures Entry(list, j) == list[j * 2] + (list[j * 2 + 1] as int) * 256
  {
  }

  lemma FirstBit(start: nat, n: nat, p: nat)
    requires start < n * (256 * p)
    ensures BitState(start, start, 0, 0, 7, n * p) && Pow2(7) == 128
  {
    Weights();
    assert n * (256 * p) == 2 * 128 * (n * p);
  }

  // ----- division -----

  /** Bytes i and up of the quotient have been found; x is what is left of the dividend. */
  ghost predicate DividedDownTo(dividend: nat, r: seq<Byte>, x: nat, i: nat, n: nat) {
    && i <= |r| && dividend == x + n * Val(r) && x < n * Pow256(i)
    && forall a :: 0 <= a < i ==> r[a] == 0
  }

  lemma DividedStart(dividend: nat, r: seq<Byte>, n: nat)
    requires n >= 1 && dividend < Pow256(|r|) && (forall a :: 0 <= a < |r| ==> r[a] == 0)
    ensures DividedDownTo(dividend, r, dividend, |r|, n)
  {
    hide Val, Pow256;
    ValZero(r);
    MulMono(1, n, Pow256(|r|));
    MulZeroValue(n);
  }

  lemma DividedStep(dividend: nat, r: seq<Byte>, x: nat, i: nat, n: nat, s: seq<Byte>, y: nat)
    requires DividedDownTo(dividend, r, x, i + 1, n) && i < |r| == |s|
    requires (forall a :: 0 <= a < |r| && a != i ==> s[a] == r[a]) && BitState(x, y, s[i], 0, -1, n * Pow256(i))
    ensures DividedDownTo(dividend, s, y, i, n)
  {
    hide Val, Pow256;
    assert s == r[i := s[i]];
    ValUpdate(r, i, s[i]);
    Distribute(n, Val(r), s[i], Pow256(i));
  }

  lemma Distribute(n: nat, v: nat, q: nat, p: nat)
    ensures n * (v + Scaled(q, p)) == n * v + q * (n * p)
  {
    assert n * (v + q * p) == n * v + n * (q * p);
    assert n * (q * p) == q * (n * p);
  }

  lemma DividedEnd(dividend: nat, r: seq<Byte>, x: nat, n: nat)
    requires DividedDownTo(dividend, r, x, 0, n) && n >= 1
    ensures Val(r) == dividend / n && x == dividend % n
  {
    Commute(n, Val(r));
    ModUnique(dividend, n, Val(r), x);
  }

  lemma DividedBound(dividend: nat, r: seq<Byte>, x: nat, i: nat, n: nat)
    requires DividedDownTo(dividend, r, x, i + 1, n) && i < |r|
    ensures x < n * (256 * Pow256(i)) && r[i] == 0
  {
  }

  /** Shift-and-subtract division: the quotient in r, the remainder in op1. */
  method BigDivide(r: array<Byte>, op1: array<Byte>, temp: array<Byte>, size: Byte, shiftList: seq<Byte>, ghost n: nat)
    requires 1 <= size < 255 && r.Length >= size && op1.Length > size && temp.Length > size
    requires r != op1 && r != temp && op1 != temp && ShiftListOf(shiftList, n)
    modifies r, op1, temp
    ensures Val(r[..size]) == old(Val(op1[..size])) / n
    ensures op1[0] == old(Val(op1[..size])) % n
    ensures forall a :: size <= a < r.Length ==> r[a] == old(r[a])
  {
    hide Val, Pow256, DividedDownTo, BitState, ShiftListOf;
    ShiftListBounds(shiftList, n);
    Clear(temp, size + 1);
    Clear(r, size);
    ghost var dividend := Val(op1[..size]);
    op1[size] := 0;
    TopByteZero(op1[..size + 1]);
    assert op1[..size] == op1[..size + 1][..size] == old(op1[..size]);
    ValBound(op1[..size]);
    DividedStart(dividend, r[..size], n);
    var i: int := size - 1;
    while i >= 0
      invariant -1 <= i < size
      invariant forall a :: 0 <= a <= size && a != i + 1 ==> temp[a] == 0
      invariant forall a :: size <= a < r.Length ==> r[a] == old(r[a])
      invariant DividedDownTo(dividend, r[..size], Val(op1[..size + 1]), i + 1, n)
    {
      ghost var before, x := r[..size], Val(op1[..size + 1]);
      DividedBound(dividend, before, x, i, n);
      DivideByte(r, op1, temp, size, shiftList, i, n);
      DividedStep(dividend, before, x, i, n, r[..size], Val(op1[..size + 1]));
      i := i - 1;
    }
    DividedEnd(dividend, r[..size], Val(op1[..size + 1]), n);
    LowByte(op1[..size + 1]);
  }

  lemma ShiftListBounds(list: seq<Byte>, n: nat)
    requires ShiftListOf(list, n)
    ensures 1 <= n < 256
  {
  }

  lemma TopByteZero(s: seq<Byte>)
    requires |s| >= 1 && s[|s| - 1] == 0
    ensures Val(s) == Val(s[..|s| - 1])
  {
    hide Val, Pow256;
    assert s[..|s| - 1 + 1] == s;
    ValPrefix(s, |s| - 1);
    MulZeroValue(Pow256(|s| - 1));
    Commute(0, Pow256(|s| - 1));
  }

  lemma LowByte(s: seq<Byte>)
    requires |s| >= 1 && Val(s) < 256
    ensures s[0] == Val(s)
  {
  }

  method Clear(a: array<Byte>, count: nat)
    requires count <= a.Length
    modifies a
    ensures forall k :: 0 <= k < count ==> a[k] == 0
    ensures forall k :: count <= k < a.Length ==> a[k] == old(a[k])
  {
    for i := 0 to count
      invariant forall k :: 0 <= k < i ==> a[k] == 0
      invariant forall k :: i <= k < a.Length ==> a[k] == old(a[k])
    {
      a[i] := 0;
    }
  }

  // ----- digits -----

  function Power(base: nat, k: nat): nat {
    if k == 0 then 1 else base * Power(base, k - 1)
  }

  /** x divided by the base k times. */
  function Quotient(x: nat, base: nat, k: nat): nat
    requires base > 0
  {
    if k == 0 then x else Quotient(x, base, k - 1) / base
  }

  /** The k lowest digits of x, most significant first. */
  function LowDigits(x: nat, base: nat, k: nat): (d: seq<nat>)
    requires base > 0
    ensures |d| == k && forall i :: 0 <= i < k ==> d[i] < base
  {
    if k == 0 then [] else [Quotient(x, base, k - 1) % base] + LowDigits(x, base, k - 1)
  }

  function Value(d: seq<nat>, base: nat): nat {
    if d == [] then 0 else d[0] * Power(base, |d| - 1) + Value(d[1..], base)
  }

  lemma {:induction false} DigitsValue(x: nat, base: nat, k: nat)
    requires base > 0
    ensures x == Quotient(x, base, k) * Power(base, k) + Value(LowDigits(x, base, k), base)
  {
    if k > 0 {
      DigitsValue(x, base, k - 1);
      var q, p := Quotient(x, base, k - 1), Power(base, k - 1);
      assert LowDigits(x, base, k)[1..] == LowDigits(x, base, k - 1);
      DigitBack(q, base, p);
    }
  }

  lemma DigitBack(q: nat, base: nat, p: nat)
    requires base > 0
    ensures q * p == (q / base) * (base * p) + (q % base) * p
  {
    var a, b := q / base, q % base;
    assert q == a * base + b;
    assert (a * base + b) * p == a * (base * p) + b * p;
  }

  /** A number below base^k has k digits. */
  lemma AllDigits(x: nat, base: nat, k: nat)
    requires base > 0 && x < Power(base, k)
    ensures Quotient(x, base, k) == 0 && Value(LowDigits(x, base, k), base) == x
  {
    DigitsValue(x, base, k);
    var q, p := Quotient(x, base, k), Power(base, k);
    if q >= 1 {
      MulMono(1, q, p);
    }
    MulZeroValue(p);
  }

  lemma {:induction false} ValueOfConcat(a: seq<nat>, b: seq<nat>, base: nat)
    ensures Value(a + b, base) == Value(a, base) * Power(base, |b|) + Value(b, base)
  {
    hide Power;
    if a == [] {
      assert a + b == b;
      Commute(0, Power(base, |b|));
    } else {
      ValueOfConcat(a[1..], b, base);
      assert (a + b)[1..] == a[1..] + b;
      PowerAdd(base, |a| - 1, |b|);
      Factor(a[0], Power(base, |a| - 1), Power(base, |b|), Value(a[1..], base));
    }
  }

  lemma Factor(d: nat, p: nat, q: nat, v: nat)
    ensures (d * p + v) * q == d * (p * q) + v * q
  {
  }

  lemma {:induction false} PowerAdd(base: nat, a: nat, b: nat)
    ensures Power(base, a + b) == Power(base, a) * Power(base, b)
  {
    if a > 0 {
      PowerAdd(base, a - 1, b);
      assert base * (Power(base, a - 1) * Power(base, b)) == base * Power(base, a - 1) * Power(base, b);
    }
  }

  /** Leading zero digits do not count. */
  lemma LeadingZero(d: seq<nat>, base: nat)
    requires d != [] && d[0] == 0
    ensures Value(d[1..], base) == Value(d, base)
  {
    Commute(0, Power(base, |d| - 1));
  }

  /** A trailing zero digit counts as a factor. */
  lemma TrailingZero(d: seq<nat>, base: nat)
    requires d != [] && d[|d| - 1] == 0
    ensures Value(d, base) == Value(d[..|d| - 1], base) * base
  {
    assert d == d[..|d| - 1] + [0];
    ValueOfConcat(d[..|d| - 1], [0], base);
    assert Value([0], base) == 0 by {
      assert [0][1..] == [];
    }
    assert Power(base, 1) == base;
  }
}
