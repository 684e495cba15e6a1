/** Multi-precision arithmetic on little-endian byte arrays, in place (bignum256.c). */
module Bignum {
  import opened Bytes

  const BIGCMP_EQUAL: Byte := 0
  const BIGCMP_GREATER: Byte := 1
  const BIGCMP_LESS: Byte := 2

  /** The verdict a comparison of two numbers should give. */
  function Order(a: nat, b: nat): (r: Byte)
    ensures r <= 2
  {
    if a > b then BIGCMP_GREATER else if a < b then BIGCMP_LESS else BIGCMP_EQUAL
  }

  /** One masked selection: keeps a non-zero verdict r, otherwise takes `cmp`. */
  function Select(r: Byte, cmp: Byte): Byte {
    U8(BitXor(BitAnd(U16(-(r as int)) / 256, BitXor(r, cmp)), cmp))
  }

  /** The branch-free body of the comparison loop for one pair of bytes. */
  function CompareByte(r: Byte, a: Byte, b: Byte): Byte {
    var r1 := Select(r, U8(BitAnd(U16(b - a) / 256, BIGCMP_GREATER)));
    Select(r1, U8(BitAnd(U16(a - b) / 256, BIGCMP_LESS)))
  }

  /** 0 for 0 and 0xff for every other byte: ((uint16_t)(-(int)x)) >> 8. */
  function NonZeroMask(x: Byte): (m: Byte)
    ensures m == if x == 0 then 0 else 255
  {
    U8(U16(-(x as int)) / 256)
  }

  lemma XorTwice(r: Byte, cmp: Byte)
    requires r <= 2 && cmp <= 2
    ensures BitXor(r, cmp) <= 3 && BitXor(BitXor(r, cmp), cmp) == r
  {
    assert BitXor(0, 0) == 0 && BitXor(0, 1) == 1 && BitXor(0, 2) == 2;
    assert BitXor(1, 0) == 1 && BitXor(1, 1) == 0 && BitXor(1, 2) == 3;
    assert BitXor(2, 0) == 2 && BitXor(2, 1) == 3 && BitXor(2, 2) == 0;
    assert BitXor(3, 1) == 2 && BitXor(3, 2) == 1;
  }

  lemma AndMask(v: nat)
    requires v <= 3
    ensures BitAnd(255, v) == v
  {
    assert BitAnd(255, 0) == 0 && BitAnd(255, 1) == 1 && BitAnd(255, 2) == 2 && BitAnd(255, 3) == 3;
  }

  lemma SelectKeeps(r: Byte, cmp: Byte)
    requires r <= 2 && cmp <= 2
    ensures Select(r, cmp) == if r == 0 then cmp else r
  {
    hide BitAnd, BitXor;
    XorTwice(r, cmp);
    AndMask(BitXor(r, cmp));
    if r == 0 {
      ZeroMasks(BitXor(r, cmp), cmp);
      assert U16(-(r as int)) / 256 == 0;
    } else {
      assert U16(-(r as int)) / 256 == 255;
    }
  }

  lemma ZeroMasks(v: nat, cmp: Byte)
    ensures BitAnd(0, v) == 0 && BitXor(0, cmp) == cmp
  {
  }

  lemma MaskFacts()
    ensures BitAnd(0, 1) == 0 && BitAnd(0, 2) == 0 && BitAnd(255, 1) == 1 && BitAnd(255, 2) == 2
  {
  }

  /** The upper byte of a 16-bit difference is 0xff when it went negative and 0 otherwise. */
  lemma SignMask(a: Byte, b: Byte)
    ensures U16(a - b) / 256 == if a < b then 255 else 0
  {
  }

  lemma CompareByteIsOrder(r: Byte, a: Byte, b: Byte)
    requires r <= 2
    ensures CompareByte(r, a, b) == if r == 0 then Order(a, b) else r
  {
    hide BitAnd, U16, Select;
    MaskFacts();
    SignMask(a, b);
    SignMask(b, a);
    var g := U8(BitAnd(U16(b - a) / 256, BIGCMP_GREATER));
    var l := U8(BitAnd(U16(a - b) / 256, BIGCMP_LESS));
    SelectKeeps(r, g);
    SelectKeeps(Select(r, g), l);
  }

  /** The more significant byte decides unless it is equal in both numbers. */
  lemma OrderCons(a: seq<Byte>, b: seq<Byte>)
    requires |a| == |b| > 0
    ensures var hi := Order(Val(a[1..]), Val(b[1..]));
            Order(Val(a), Val(b)) == if hi == BIGCMP_EQUAL then Order(a[0], b[0]) else hi
  {
  }

  lemma NothingCompared(a: seq<Byte>, b: seq<Byte>)
    requires a == [] && b == []
    ensures Order(Val(a), Val(b)) == BIGCMP_EQUAL
  {
  }

  method BigCompareVariableSize(op1: array<Byte>, op2: array<Byte>, size: Byte) returns (r: Byte)
    requires size <= op1.Length && size <= op2.Length
    ensures r == Order(Val(op1[..size]), Val(op2[..size]))
  {
    hide CompareByte, Val, Order;
    r := BIGCMP_EQUAL;
    NothingCompared(op1[size..size], op2[size..size]);
    var i := U8(size - 1);
    ghost var done: int := size;  // bytes done.. have been examined
    while i < size
      invariant 0 <= done <= size && i == U8(done - 1)
      invariant r == Order(Val(op1[done..size]), Val(op2[done..size]))
      decreases done
    {
      assert i == done - 1;
      CompareByteIsOrder(r, op1[i], op2[i]);
      OrderCons(op1[i..size], op2[i..size]);
      assert op1[i..size][1..] == op1[done..size] && op2[i..size][1..] == op2[done..size];
      r := CompareByte(r, op1[i], op2[i]);
      done := i;
      i := U8(i - 1);
    }
    assert done == 0;
    assert op1[0..size] == op1[..size] && op2[0..size] == op2[..size];
  }

  method BigIsZeroVariableSize(op1: array<Byte>, size: Byte) returns (z: Byte)
    requires size <= op1.Length
    ensures z == if Val(op1[..size]) == 0 then 1 else 0
  {
    var r: Byte := 0;
    for i := 0 to size
      invariant r == 0 <==> forall k :: 0 <= k < i ==> op1[k] == 0
    {
      BitOrZero(r, op1[i]);
      r := BitOr(r, op1[i]);
    }
    ValZero(op1[..size]);
    z := U8(U16(-(r as int)) / 256 + 1);
  }

  function BitOr(a: Byte, b: Byte): Byte {
    BitOrBound(a, b, 8);
    BitOrNat(a, b)
  }

  function BitOrNat(a: nat, b: nat): nat
    decreases a + b
  {
    if a == 0 then b
    else if b == 0 then a
    else (if a % 2 + b % 2 > 0 then 1 else 0) + 2 * BitOrNat(a / 2, b / 2)
  }

  function Pow2(k: nat): (r: nat)
    ensures r > 0
  {
    if k == 0 then 1 else 2 * Pow2(k - 1)
  }

  lemma SmallPowers()
    ensures Pow2(0) == 1 && Pow2(7) == 128 && Pow2(8) == 256
  {
  }

  lemma {:induction false} Pow2Add(a: nat, b: nat)
    ensures Pow2(a + b) == Pow2(a) * Pow2(b)
  {
    if a > 0 {
      Pow2Add(a - 1, b);
      assert 2 * (Pow2(a - 1) * Pow2(b)) == 2 * Pow2(a - 1) * Pow2(b);
    }
  }

  lemma {:induction false} Pow2Mono(a: nat, b: nat)
    requires a <= b
    ensures Pow2(a) <= Pow2(b)
    decreases b
  {
    if a < b {
      Pow2Mono(a, b - 1);
    }
  }

  lemma {:induction false} BitOrBound(a: nat, b: nat, k: nat)
    requires a < Pow2(k) && b < Pow2(k)
    ensures BitOrNat(a, b) < Pow2(k)
    decreases k
  {
    if k > 0 {
      BitOrBound(a / 2, b / 2, k - 1);
    }
  }

  lemma {:induction false} BitOrZero(a: nat, b: nat)
    ensures BitOrNat(a, b) == 0 <==> a == 0 && b == 0
    decreases a + b
  {
    if a != 0 && b != 0 {
      BitOrZero(a / 2, b / 2);
    }
  }

  /** Swaps the two ends of a 32-byte number towards the middle. */
  method SwapEndian256(buffer: array<Byte>, offset: nat)
    requires offset + 32 <= buffer.Length
    modifies buffer
    ensures buffer[offset..offset + 32] == Reversed(old(buffer[offset..offset + 32]))
    ensures forall k :: 0 <= k < buffer.Length && !(offset <= k < offset + 32) ==> buffer[k] == old(buffer[k])
  {
    ghost var top := 2 * offset + 31;
    ghost var was := buffer[..];
    for i := 0 to 16
      invariant forall k :: offset <= k < offset + i ==> buffer[k] == was[top - k]
      invariant forall k :: offset + 31 - i < k < offset + 32 ==> buffer[k] == was[top - k]
      invariant forall k ::
                  0 <= k < offset || offset + i <= k <= offset + 31 - i || offset + 32 <= k < buffer.Length ==>
                  buffer[k] == was[k]
    {
      var temp := buffer[offset + i];
      buffer[offset + i] := buffer[offset + 31 - i];
      buffer[offset + 31 - i] := temp;
    }
    ghost var piece := was[offset..offset + 32];
    assert piece == old(buffer[offset..offset + 32]);
    forall k | 0 <= k < 32 ensures buffer[offset..offset + 32][k] == Reversed(piece)[k] {
      assert buffer[offset + k] == was[top - (offset + k)] == piece[31 - k];
    }
  }

  /** The running sum: i bytes added, `carry` still to go into byte i. */
  ghost predicate SumUpTo(a: seq<Byte>, b: seq<Byte>, r: seq<Byte>, i: nat, carry: nat)
    requires i <= |a| && i <= |b| && i <= |r|
  {
    Val(r[..i]) + carry * Pow256(i) == Val(a[..i]) + Val(b[..i])
  }

  lemma CarryDigit(p: nat, x: Byte, y: Byte, carry: nat)
    ensures var partial := x + y + carry;
            (partial % 256) * p + (partial / 256) * (256 * p) == x * p + y * p + carry * p
  {
    var partial := x + y + carry;
    assert partial == partial % 256 + 256 * (partial / 256);
    assert (partial % 256) * p + (partial / 256) * (256 * p) == (partial % 256 + 256 * (partial / 256)) * p;
  }

  lemma SumStep(a: seq<Byte>, b: seq<Byte>, r: seq<Byte>, s: seq<Byte>, i: nat, carry: nat)
    requires i < |a| && i < |b| && i < |r| == |s|
    requires SumUpTo(a, b, r, i, carry)
    requires s[..i] == r[..i] && s[i] == (a[i] + b[i] + carry) % 256
    ensures SumUpTo(a, b, s, i + 1, (a[i] + b[i] + carry) / 256)
  {
    ValPrefix(a, i);
    ValPrefix(b, i);
    ValPrefix(s, i);
    CarryDigit(Pow256(i), a[i], b[i], carry);
  }

  lemma CarryByte(x: Byte, y: Byte, carry: nat)
    requires carry <= 1
    ensures var sum := x + y + carry; U8(U16(sum)) == sum % 256 && U8(U16(sum) / 256) == sum / 256 <= 1
  {
  }

  lemma SumStart(a: seq<Byte>, b: seq<Byte>, r: seq<Byte>)
    ensures SumUpTo(a, b, r, 0, 0)
  {
  }

  lemma SumEnd(a: seq<Byte>, b: seq<Byte>, r: seq<Byte>, size: nat, carry: nat)
    requires size <= |a| && size <= |b| && size <= |r| && SumUpTo(a, b, r, size, carry)
    ensures Val(r[..size]) + carry * Pow256(size) == Val(a[..size]) + Val(b[..size])
  {
  }

  method BigAddVariableSizeNoModulo(r: array<Byte>, op1: array<Byte>, op2: array<Byte>, size: Byte)
    returns (carry: Byte)
    requires size <= r.Length && size <= op1.Length && size <= op2.Length
    modifies r
    ensures carry <= 1
    ensures Val(r[..size]) + carry * Pow256(size) == old(Val(op1[..size])) + old(Val(op2[..size]))
    ensures forall k :: size <= k < r.Length ==> r[k] == old(r[k])
  {
    hide Val, Pow256, SumUpTo, U8, U16;
    carry := 0;
    ghost var a, b := op1[..], op2[..];
    SumStart(a, b, r[..]);
    for i := 0 to size
      invariant carry <= 1
      invariant forall k :: i <= k < size ==> op1[k] == a[k] && op2[k] == b[k]
      invariant forall k :: size <= k < r.Length ==> r[k] == old(r[k])
      invariant SumUpTo(a, b, r[..], i, carry)
    {
      ghost var before := r[..];
      var partial := U16(op1[i] + op2[i] + carry);
      CarryByte(op1[i], op2[i], carry);
      r[i] := U8(partial);
      assert r[..][..i] == before[..i];
      SumStep(a, b, before, r[..], i, carry);
      carry := U8(partial / 256);
    }
    SumEnd(a, b, r[..], size, carry);
    assert r[..][..size] == r[..size] && a[..size] == old(op1[..size]) && b[..size] == old(op2[..size]);
  }

  /** The running difference: i bytes subtracted, `borrow` owed by byte i. */
  ghost predicate DifferenceUpTo(a: seq<Byte>, b: seq<Byte>, r: seq<Byte>, i: nat, borrow: nat)
    requires i <= |a| && i <= |b| && i <= |r|
  {
    Val(a[..i]) - Val(b[..i]) == Val(r[..i]) - borrow * Pow256(i)
  }

  lemma BorrowDigit(p: nat, x: Byte, y: Byte, borrow: nat)
    requires borrow <= 1
    ensures var partial := U16(x - y - borrow);
            x * p - y * p - borrow * p == U8(partial) * p - (U8(partial / 256) % 2) * (256 * p)
  {
    var d := x - y - borrow;
    if d >= 0 {
      assert U8(U16(d)) == d;
      assert d * p == x * p - y * p - borrow * p;
    } else {
      assert U8(U16(d)) == d + 256;
      assert (d + 256) * p == x * p - y * p - borrow * p + 256 * p;
    }
  }

  lemma DifferenceStep(a: seq<Byte>, b: seq<Byte>, r: seq<Byte>, s: seq<Byte>, i: nat, borrow: nat)
    requires i < |a| && i < |b| && i < |r| == |s|
    requires borrow <= 1 && DifferenceUpTo(a, b, r, i, borrow)
    requires s[..i] == r[..i] && s[i] == U8(U16(a[i] - b[i] - borrow))
    ensures DifferenceUpTo(a, b, s, i + 1, U8(U16(a[i] - b[i] - borrow) / 256) % 2)
  {
    ValPrefix(a, i);
    ValPrefix(b, i);
    ValPrefix(s, i);
    BorrowDigit(Pow256(i), a[i], b[i], borrow);
  }

  method BigSubtractVariableSizeNoModulo(r: array<Byte>, op1: array<Byte>, op2: array<Byte>, size: Byte)
    returns (borrow: Byte)
    requires size <= r.Length && size <= op1.Length && size <= op2.Length
    modifies r
    ensures borrow == if old(Val(op1[..size])) < old(Val(op2[..size])) then 1 else 0
    ensures Val(r[..size]) == old(Val(op1[..size])) - old(Val(op2[..size])) + borrow * Pow256(size)
    ensures forall k :: size <= k < r.Length ==> r[k] == old(r[k])
  {
    borrow := 0;
    ghost var a, b := op1[..], op2[..];
    for i := 0 to size
      invariant borrow <= 1
      invariant forall k :: i <= k < size ==> op1[k] == a[k] && op2[k] == b[k]
      invariant forall k :: size <= k < r.Length ==> r[k] == old(r[k])
      invariant DifferenceUpTo(a, b, r[..], i, borrow)
    {
      ghost var before := r[..];
      var partial := U16(op1[i] - op2[i] - borrow);
      r[i] := U8(partial);
      DifferenceStep(a, b, before, r[..], i, borrow);
      borrow := U8(partial / 256) % 2;
    }
    assert r[..][..size] == r[..size] && a[..size] == old(op1[..size]) && b[..size] == old(op2[..size]);
    ValBound(r[..size]);
  }

  /** Halving from the most significant byte down: bytes done.. are halved, oldCarry is what they leave over. */
  ghost predicate HalvedFrom(a: seq<Byte>, r: seq<Byte>, done: nat, oldCarry: nat)
    requires |a| == 32 <= |r| && done <= 32
  {
    r[..done] == a[..done] && 2 * Val(r[done..32]) + oldCarry == Val(a[done..])
  }

  lemma HalveStep(a: seq<Byte>, r: seq<Byte>, s: seq<Byte>, i: nat, oldCarry: nat)
    requires |a| == 32 <= |r| == |s| && i < 32
    requires oldCarry <= 1 && HalvedFrom(a, r, i + 1, oldCarry)
    requires s[i] == r[i] / 2 + oldCarry * 128
    requires forall k :: 0 <= k < |r| && k != i ==> s[k] == r[k]
    ensures HalvedFrom(a, s, i, r[i] % 2)
  {
    assert r[i] == r[..i + 1][i] && a[i] == a[..i + 1][i];
    assert s[i..32][1..] == r[i + 1..32];
    assert a[i..][1..] == a[i + 1..];
    assert s[..i] == r[..i + 1][..i] && a[..i] == a[..i + 1][..i];
  }

  /** Divides a 32-byte number by two, truncating. */
  method BigShiftRightNoModulo(r: array<Byte>, op1: array<Byte>)
    requires r.Length >= 32 && op1.Length >= 32
    modifies r
    ensures Val(r[..32]) == old(Val(op1[..32])) / 2
    ensures forall k :: 32 <= k < r.Length ==> r[k] == old(r[k])
  {
    ghost var a := op1[..32];
    forall k | 0 <= k < 32 {
      r[k] := op1[k];
    }
    assert r[..32] == a;
    var oldCarry: Byte := 0;
    var i: Byte := 31;
    ghost var done: int := 32;
    while i < 32
      invariant 0 <= done <= 32 && i == U8(done - 1)
      invariant oldCarry <= 1 && HalvedFrom(a, r[..], done, oldCarry)
      invariant forall k :: 32 <= k < r.Length ==> r[k] == old(r[k])
      decreases done
    {
      assert i == done - 1;
      ghost var before := r[..];
      var carry := r[i] % 2;
      r[i] := r[i] / 2 + oldCarry * 128;
      HalveStep(a, before, r[..], i, oldCarry);
      oldCarry := carry;
      done := i;
      i := U8(i - 1);
    }
    assert done == 0;
    assert r[..][0..32] == r[..32] && a[0..] == a;
  }

  /** Changing one byte changes the value by that byte's weight. */
  lemma ValUpdate(s: seq<Byte>, k: nat, b: Byte)
    requires k < |s|
    ensures Val(s[k := b]) == Val(s) + Scaled(b - s[k], Pow256(k))
  {
    hide Val, Pow256;
    var t: seq<Byte> := s[k := b];
    ValSplit(s, k + 1);
    ValSplit(t, k + 1);
    assert t[k + 1..] == s[k + 1..];
    ValPrefix(s, k);
    ValPrefix(t, k);
    assert t[..k] == s[..k];
    var p := Pow256(k);
    assert b * p - s[k] * p == (b - s[k]) * p;
  }

  /** One inner step of long multiplication, on the two bytes it touches. */
  function MultiplyStep(s: seq<Byte>, at: nat, product: nat, high: nat): (seq<Byte>, nat)
    requires at + 1 < |s|
  {
    var low := U16(s[at] + U8(U16(product)));
    var upper := U16(s[at + 1] + U8(U16(product) / 256) + U8(low / 256) + high);
    var s1: seq<Byte> := s[at := U8(low)];
    (s1[at + 1 := U8(upper)], U8(upper / 256))
  }

  /** Two digit changes and a carry out, against a product and a carry in. */
  lemma DigitBalance(p: int, d0: int, d1: int, out: int, x: int, high: int)
    requires d0 + 256 * d1 + 65536 * out == x + 256 * high
    ensures Scaled(d0, p) + Scaled(d1, 256 * p) + Scaled(out, 65536 * p) == Scaled(x, p) + Scaled(high, 256 * p)
  {
    assert (d0 + 256 * d1 + 65536 * out) * p == (x + 256 * high) * p;
  }

  lemma MultiplyDigits(s0: Byte, s1: Byte, product: nat, high: Byte)
    requires product <= 65025
    ensures var low := U16(s0 + U8(U16(product)));
            var upper := U16(s1 + U8(U16(product) / 256) + U8(low / 256) + high);
            (U8(low) - s0) + 256 * (U8(upper) - s1) + 65536 * U8(upper / 256) == product + 256 * high
  {
    hide U8, U16;
    TwoDigits(product);
    var low := s0 + U8(U16(product));
    TwoDigits(low);
    var upper := s1 + U8(U16(product) / 256) + U8(low / 256) + high;
    TwoDigits(upper);
  }

  lemma TwoDigits(x: nat)
    requires x < 65536
    ensures U16(x) == x && x == U8(x) + 256 * (U8(x / 256) as int)
  {
  }

  /** The weight a digit has at a position. */
  function Scaled(d: int, p: int): int {
    d * p
  }

  lemma NextWeights(k: nat)
    ensures Pow256(k + 1) == 256 * Pow256(k) && Pow256(k + 2) == 65536 * Pow256(k)
  {
  }

  lemma MultiplyStepValue(s: seq<Byte>, at: nat, product: nat, high: Byte)
    requires at + 1 < |s|
    requires product <= 65025
    ensures var step := MultiplyStep(s, at, product, high);
            Val(step.0) + Scaled(step.1, Pow256(at + 2))
            == Val(s) + Scaled(high, Pow256(at + 1)) + Scaled(product, Pow256(at))
  {
    hide Val, Pow256, Scaled, U8, U16;
    var p := Pow256(at);
    NextWeights(at);
    var low := U16(s[at] + U8(U16(product)));
    var upper := U16(s[at + 1] + U8(U16(product) / 256) + U8(low / 256) + high);
    MultiplyDigits(s[at], s[at + 1], product, high);
    var s1: seq<Byte> := s[at := U8(low)];
    ValUpdate(s, at, U8(low));
    ValUpdate(s1, at + 1, U8(upper));
    DigitBalance(p, U8(low) - s[at], U8(upper) - s[at + 1], U8(upper / 256), product, high);
  }

  lemma ValProductBound(a: seq<Byte>, b: seq<Byte>)
    ensures Val(a) * Val(b) < Pow256(|a| + |b|)
  {
    hide *;
    ValBound(a);
    ValBound(b);
    Pow256Add(|a|, |b|);
    StrictProduct(Val(a), Val(b), Pow256(|a|), Pow256(|b|));
  }

  lemma StrictProduct(a: nat, b: nat, p: nat, q: nat)
    requires a < p && b < q
    ensures a * b < p * q
  {
    assert a * b <= a * q;
    assert a * q + q <= p * q by {
      assert (a + 1) * q <= p * q;
    }
  }

  /** The product of two bytes, which always fits 16 bits. */
  function Times(x: Byte, y: Byte): (z: nat)
    ensures z <= 65025
  {
    assert x * y <= 255 * y;
    x * y
  }

  /** Row i with j digits done: start + digit * 256^i * op2[..j], `high` still to go into byte i + j + 1. */
  ghost predicate RowUpTo(start: nat, s: seq<Byte>, digit: Byte, i: nat, y: seq<Byte>, j: nat, high: nat)
    requires j <= |y|
  {
    Val(s) + Scaled(high, Pow256(i + j + 1)) == start + Scaled(Scaled(digit, Pow256(i)), Val(y[..j]))
  }

  lemma RowDigit(x: Byte, y: Byte, p: nat, q: nat, v: nat)
    ensures Scaled(Scaled(x, p), v + y * q) == Scaled(Scaled(x, p), v) + Scaled(Times(x, y), p * q)
  {
    assert x * p * (v + y * q) == x * p * v + x * p * (y * q);
    assert x * p * (y * q) == (x * y) * (p * q);
  }

  lemma RowStep(start: nat, s: seq<Byte>, digit: Byte, i: nat, y: seq<Byte>, j: nat, high: Byte)
    requires j < |y| && i + j + 1 < |s|
    requires RowUpTo(start, s, digit, i, y, j, high)
    ensures var step := MultiplyStep(s, i + j, Times(digit, y[j]), high);
            RowUpTo(start, step.0, digit, i, y, j + 1, step.1)
  {
    hide Times, Scaled, Val, Pow256, MultiplyStep;
    MultiplyStepValue(s, i + j, Times(digit, y[j]), high);
    ValPrefix(y, j);
    Pow256Add(i, j);
    RowDigit(digit, y[j], Pow256(i), Pow256(j), Val(y[..j]));
    assert i + j + 2 == i + (j + 1) + 1;
  }

  /** A finished row leaves no carry: the product of i + 1 and |b| bytes has i + 1 + |b| bytes. */
  lemma RowHasNoCarry(start: nat, a: seq<Byte>, i: nat, b: seq<Byte>, s: seq<Byte>, carry: nat)
    requires i < |a| && start == Val(a[..i]) * Val(b)
    requires RowUpTo(start, s, a[i], i, b, |b|, carry)
    ensures carry == 0
    ensures Val(s) == Val(a[..i + 1]) * Val(b)
  {
    assert b[..|b|] == b;
    hide Val, Pow256, Scaled;
    ValPrefix(a, i);
    ValProductBound(a[..i + 1], b);
    assert i + 1 + |b| == i + |b| + 1;
    NoCarry(carry, Pow256(i + |b| + 1), Val(s), start, Val(a[..i]), a[i], Pow256(i), Val(b), Val(a[..i + 1]));
  }

  lemma NoCarry(carry: nat, p: nat, v: nat, start: nat, done: nat, digit: nat, w: nat, b: nat, all: nat)
    requires v + Scaled(carry, p) == start + Scaled(Scaled(digit, w), b)
    requires start == done * b && all == done + digit * w && all * b < p
    ensures carry == 0
    ensures v == all * b
  {
    assert all * b == done * b + digit * w * b;
    assert carry < 1 by {
      assert carry * p < p;
    }
  }

  /** One row of the multiplication: adds digit * 256^i * op2 into r and returns the carry beyond it. */
  method MultiplyRow(r: array<Byte>, i: nat, digit: Byte, op2: array<Byte>, at: nat, size2: Byte, ghost total: nat)
    returns (highCarry: Byte)
    requires at + size2 <= op2.Length && i + size2 < total <= r.Length && r != op2
    modifies r
    ensures RowUpTo(old(Val(r[..total])), r[..total], digit, i, op2[at..at + size2], size2, highCarry)
    ensures forall k :: total <= k < r.Length ==> r[k] == old(r[k])
  {
    highCarry := 0;
    ghost var y, start := op2[at..at + size2], Val(r[..total]);
    for j := 0 to size2
      invariant RowUpTo(start, r[..total], digit, i, y, j, highCarry)
      invariant forall k :: total <= k < r.Length ==> r[k] == old(r[k])
    {
      hide RowUpTo, Val, Pow256, Times, U8, U16;
      ghost var before: seq<Byte> := r[..total];
      RowStep(start, before, digit, i, y, j, highCarry);
      ghost var expected := MultiplyStep(before, i + j, Times(digit, y[j]), highCarry);
      var product := U16(Times(digit, op2[at + j]));
      var partial := U16(r[i + j] + U8(product));
      r[i + j] := U8(partial);
      var lowCarry := U8(partial / 256);
      partial := U16(r[i + j + 1] + U8(product / 256) + lowCarry + highCarry);
      r[i + j + 1] := U8(partial);
      highCarry := U8(partial / 256);
      assert r[..total] == expected.0;
    }
  }

  /** Schoolbook multiplication; op2 is read from index `at` on. */
  method BigMultiplyVariableSizeNoModulo(r: array<Byte>, op1: array<Byte>, size1: Byte,
                                         op2: array<Byte>, at: nat, size2: Byte)
    requires size1 <= op1.Length && at + size2 <= op2.Length && size1 + size2 <= r.Length
    requires r != op1 && r != op2
    modifies r
    ensures Val(r[..size1 + size2]) == Val(op1[..size1]) * Val(op2[at..at + size2])
    ensures forall k :: size1 + size2 <= k < r.Length ==> r[k] == old(r[k])
  {
    ghost var total: nat := size1 + size2;
    ghost var a, b := op1[..size1], op2[at..at + size2];
    forall k | 0 <= k < size1 + size2 {
      r[k] := 0;
    }
    ValZero(r[..total]);
    assert Val(a[..0]) == 0;
    hide Val, Pow256, RowUpTo;
    for i := 0 to size1
      invariant Val(r[..total]) == Val(a[..i]) * Val(b)
      invariant forall k :: total <= k < r.Length ==> r[k] == old(r[k])
    {
      ghost var start := Val(r[..total]);
      var highCarry := MultiplyRow(r, i, op1[i], op2, at, size2, total);
      assert op2[at..at + size2] == b;
      RowHasNoCarry(start, a, i, b, r[..total], highCarry);
      assert highCarry == 0;
    }
    assert a[..size1] == a == op1[..size1] && b == op2[at..at + size2];
  }
}
