/**
 Point arithmetic and signing (ecdsa.c) and modular inversion (bignum256.c), over exact field products:
 a number is its value, and a product in the field is the true residue (see Reduction for bigMultiply itself).
 */
module Ecdsa {
  import opened Arith
  import opened Bytes
  import opened Bignum
  import opened PrimeField
  import opened Curve

  /** A BigNum256 variable: results are written through it, and it may alias an operand. */
  class Num {
    var v: nat

    constructor (v0: nat)
      ensures v == v0
    {
      v := v0;
    }
  }

  class PointAffine {
    var x: nat
    var y: nat
    var isPointAtInfinity: Byte

    constructor (x0: nat, y0: nat, infinity: Byte)
      ensures x == x0 && y == y0 && isPointAtInfinity == infinity
    {
      x, y, isPointAtInfinity := x0, y0, infinity;
    }

    ghost function Value(): Point
      reads this
    {
      if isPointAtInfinity != 0 then Infinity else Affine(x, y)
    }
  }

  class PointJacobian {
    var x: nat
    var y: nat
    var z: nat
    var isPointAtInfinity: Byte

    constructor (infinity: Byte)
      ensures x == 0 && y == 0 && z == 0 && isPointAtInfinity == infinity
    {
      x, y, z, isPointAtInfinity := 0, 0, 0, infinity;
    }

    ghost predicate Reduced(p: nat)
      reads this
    {
      x < p && y < p && z < p
    }

    /** Reduced coordinates, and a non-zero z whenever the point is finite. */
    ghost predicate Valid(p: nat)
      reads this
    {
      Reduced(p) && (isPointAtInfinity == 0 ==> z != 0)
    }

    /** Division by z^2 gives 0. */
    ghost predicate Vanishes()
      reads this
    {
      x == 0 || z == 0
    }

    ghost function Value(p: nat): Point
      requires p > 1
      reads this
    {
      if isPointAtInfinity != 0 then Infinity else ToAffine(x, y, z, p)
    }
  }

  // ----- field operations -----

  function FMul(a: nat, b: nat, m: nat): (r: nat)
    requires m > 0
    ensures r < m
  {
    (a * b) % m
  }

  function FAdd(a: nat, b: nat, m: nat): (r: nat)
    requires a < m && b < m
    ensures r < m
  {
    (a + b) % m
  }

  function FSub(a: nat, b: nat, m: nat): (r: nat)
    requires a < m && b < m
    ensures r < m
  {
    (a - b) % m
  }

  lemma MulC(a: nat, a': int, b: nat, b': int, p: nat)
    requires p > 0 && Cong(a, a', p) && Cong(b, b', p)
    ensures Cong(FMul(a, b, p), a' * b', p)
  {
    ModMod(a * b, p);
    CongMul(a, a', b, b', p);
  }

  lemma AddC(a: nat, a': int, b: nat, b': int, p: nat)
    requires a < p && b < p && Cong(a, a', p) && Cong(b, b', p)
    ensures Cong(FAdd(a, b, p), a' + b', p)
  {
    ModMod(a + b, p);
    CongAdd(a, a', b, b', p);
  }

  lemma SubC(a: nat, a': int, b: nat, b': int, p: nat)
    requires a < p && b < p && Cong(a, a', p) && Cong(b, b', p)
    ensures Cong(FSub(a, b, p), a' - b', p)
  {
    ModMod(a - b, p);
    CongSub(a, a', b, b', p);
  }

  // ----- reading a scalar from its most significant bit -----

  /** A byte after j left shifts, as a uint8_t. */
  function Shifted(b: Byte, j: nat): Byte {
    if j == 0 then b else U8(Shifted(b, j - 1) * 2)
  }

  /** The number read so far: all bits above byte b, then the top j bits of b. */
  function Scan(high: nat, b: Byte, j: nat): nat {
    if j == 0 then high else 2 * Scan(high, b, j - 1) + Shifted(b, j - 1) / 128
  }

  lemma ScanTwo(high: nat, b: Byte)
    ensures Scan(high, b, 2) == 4 * high + b / 64
    ensures Shifted(b, 2) == b % 64 * 4
  {
    assert Shifted(b, 1) == b % 128 * 2;
    assert Scan(high, b, 1) == 2 * high + b / 128;
  }

  lemma ScanMore(high: nat, b: Byte, i: nat, j: nat)
    ensures Scan(high, b, i + j) == Scan(Scan(high, b, i), Shifted(b, i), j)
    ensures Shifted(b, i + j) == Shifted(Shifted(b, i), j)
  {
    if j > 0 {
      ScanMore(high, b, i, j - 1);
    }
  }

  /** Eight shifts read the whole byte. */
  lemma ScanByte(high: nat, b: Byte)
    ensures Scan(high, b, 8) == 256 * high + b
  {
    hide Scan, Shifted;
    ScanTwo(high, b);
    ScanMore(high, b, 2, 2);
    ScanTwo(Scan(high, b, 2), Shifted(b, 2));
    assert Scan(high, b, 4) == 16 * high + b / 16 && Shifted(b, 4) == b % 16 * 16;
    ScanMore(high, b, 4, 2);
    ScanTwo(Scan(high, b, 4), Shifted(b, 4));
    assert Scan(high, b, 6) == 64 * high + b / 4 && Shifted(b, 6) == b % 4 * 64;
    ScanMore(high, b, 6, 2);
    ScanTwo(Scan(high, b, 6), Shifted(b, 6));
  }

  lemma ScanEnds(s: seq<Byte>, i: nat)
    requires i < |s|
    ensures Scan(Val(s[i + 1..]), s[i], 8) == Val(s[i..])
  {
    ScanByte(Val(s[i + 1..]), s[i]);
    assert s[i..][1..] == s[i + 1..];
  }

  // ----- inversion -----

  /** The Montgomery ladder after consuming the bits of e: r = a^e and temp = a^(e+1). */
  ghost predicate Ladder(a: int, e: nat, r: nat, temp: nat, m: nat)
    requires m > 0
  {
    r < m && Cong(r, Pow(a, e), m) && Cong(temp, Pow(a, e + 1), m)
  }

  lemma LadderStep(a: int, e: nat, r: nat, temp: nat, bit: nat, m: nat)
    requires m > 0 && bit <= 1 && Ladder(a, e, r, temp, m)
    ensures bit == 1 ==> Ladder(a, 2 * e + 1, FMul(r, temp, m), FMul(temp, temp, m), m)
    ensures bit == 0 ==> Ladder(a, 2 * e, FMul(r, r, m), FMul(r, temp, m), m)
  {
    hide Pow;
    MulC(r, Pow(a, e), temp, Pow(a, e + 1), m);
    PowAdd(a, e, e + 1);
    if bit == 1 {
      MulC(temp, Pow(a, e + 1), temp, Pow(a, e + 1), m);
      PowAdd(a, e + 1, e + 1);
    } else {
      MulC(r, Pow(a, e), r, Pow(a, e), m);
      PowAdd(a, e, e);
    }
  }

  // ----- the doubling and addition formulas as computed, step by step -----

  ghost predicate DoubledX(X: nat, Y: nat, S: nat, M: nat, X3: nat, p: nat)
    requires p > 0
  {
    && Cong(S, 4 * (Y * Y * X), p) && Cong(M, 3 * (X * X), p)
    && Cong(X3, 3 * (X * X) * (3 * (X * X)) - 4 * (Y * Y * X) - 4 * (Y * Y * X), p)
  }

  lemma DoublingX(X: nat, Y: nat, p: nat)
    requires p > 0
    ensures var y1 := FMul(Y, Y, p);
            var t1 := FMul(y1, X, p); var t2 := FAdd(t1, t1, p); var t3 := FAdd(t2, t2, p);
            var x1 := FMul(X, X, p); var u1 := FAdd(x1, x1, p); var u2 := FAdd(u1, x1, p);
            var x2 := FMul(u2, u2, p); var x3 := FSub(x2, t3, p); var x4 := FSub(x3, t3, p);
            DoubledX(X, Y, t3, u2, x4, p)
  {
    hide FMul, FAdd, FSub;
    var y1 := FMul(Y, Y, p);
    var t1 := FMul(y1, X, p); var t2 := FAdd(t1, t1, p); var t3 := FAdd(t2, t2, p);
    var x1 := FMul(X, X, p); var u1 := FAdd(x1, x1, p); var u2 := FAdd(u1, x1, p);
    var x2 := FMul(u2, u2, p); var x3 := FSub(x2, t3, p); var x4 := FSub(x3, t3, p);
    var S0 := Y * Y * X;
    MulC(Y, Y, Y, Y, p);
    MulC(y1, Y * Y, X, X, p);
    AddC(t1, S0, t1, S0, p);
    AddC(t2, S0 + S0, t2, S0 + S0, p);
    MulC(X, X, X, X, p);
    AddC(x1, X * X, x1, X * X, p);
    AddC(u1, X * X + X * X, x1, X * X, p);
    MulC(u2, 3 * (X * X), u2, 3 * (X * X), p);
    SubC(x2, 3 * (X * X) * (3 * (X * X)), t3, 4 * S0, p);
    SubC(x3, 3 * (X * X) * (3 * (X * X)) - 4 * S0, t3, 4 * S0, p);
  }

  lemma DoublingY(X: nat, Y: nat, t3: nat, u2: nat, x4: nat, p: nat)
    requires t3 < p && x4 < p && DoubledX(X, Y, t3, u2, x4, p)
    ensures var y1 := FMul(Y, Y, p);
            var t4 := FSub(t3, x4, p); var t5 := FMul(t4, u2, p);
            var y2 := FMul(y1, y1, p); var y3 := FAdd(y2, y2, p); var y4 := FAdd(y3, y3, p); var y5 := FAdd(y4, y4, p);
            Cong(FSub(t5, y5, p), (4 * (Y * Y * X) - x4) * (3 * (X * X)) - 8 * (Y * Y * (Y * Y)), p)
  {
    hide FMul, FAdd, FSub;
    var y1 := FMul(Y, Y, p);
    var t4 := FSub(t3, x4, p); var t5 := FMul(t4, u2, p);
    var y2 := FMul(y1, y1, p); var y3 := FAdd(y2, y2, p); var y4 := FAdd(y3, y3, p); var y5 := FAdd(y4, y4, p);
    var S, M, Q := 4 * (Y * Y * X), 3 * (X * X), Y * Y * (Y * Y);
    MulC(Y, Y, Y, Y, p);
    SubC(t3, S, x4, x4, p);
    MulC(t4, S - x4, u2, M, p);
    MulC(y1, Y * Y, y1, Y * Y, p);
    AddC(y2, Q, y2, Q, p);
    AddC(y3, Q + Q, y3, Q + Q, p);
    AddC(y4, 4 * Q, y4, 4 * Q, p);
    SubC(t5, (S - x4) * M, y5, 8 * Q, p);
  }

  lemma DoublingZ(Y: nat, Z: nat, p: nat)
    requires p > 0
    ensures var z1 := FMul(Z, Y, p); Cong(FAdd(z1, z1, p), Z * Y + Z * Y, p)
  {
    MulC(Z, Z, Y, Y, p);
    var z1 := FMul(Z, Y, p);
    AddC(z1, Z * Y, z1, Z * Y, p);
  }

  /** The three coordinates pointDouble computes, in the order it computes them. */
  function Doubled(X: nat, Y: nat, Z: nat, p: nat): (nat, nat, nat)
    requires p > 0
  {
    var z1 := FMul(Z, Y, p);
    var z2 := FAdd(z1, z1, p);
    var y1 := FMul(Y, Y, p);
    var t1 := FMul(y1, X, p);
    var t2 := FAdd(t1, t1, p);
    var t3 := FAdd(t2, t2, p);
    var x1 := FMul(X, X, p);
    var u1 := FAdd(x1, x1, p);
    var u2 := FAdd(u1, x1, p);
    var x2 := FMul(u2, u2, p);
    var x3 := FSub(x2, t3, p);
    var x4 := FSub(x3, t3, p);
    var t4 := FSub(t3, x4, p);
    var t5 := FMul(t4, u2, p);
    var y2 := FMul(y1, y1, p);
    var y3 := FAdd(y2, y2, p);
    var y4 := FAdd(y3, y3, p);
    var y5 := FAdd(y4, y4, p);
    (x4, FSub(t5, y5, p), z2)
  }

  /** pointDouble's arithmetic is the tangent law on the point the triple stands for. */
  lemma DoubledIsDouble(X: nat, Y: nat, Z: nat, p: nat)
    requires IsPrime(p) && p > 2 && X < p && 0 < Y < p && 0 < Z < p
    ensures var (x, y, z) := Doubled(X, Y, Z, p);
            0 < z < p && ToAffine(x, y, z, p) == Double(ToAffine(X, Y, Z, p), p)
  {
    var (x, y, z) := Doubled(X, Y, Z, p);
    DoublingX(X, Y, p);
    var t3 := FAdd(FAdd(FMul(FMul(Y, Y, p), X, p), FMul(FMul(Y, Y, p), X, p), p),
        FAdd(FMul(FMul(Y, Y, p), X, p), FMul(FMul(Y, Y, p), X, p), p), p);
    var u2 := FAdd(FAdd(FMul(X, X, p), FMul(X, X, p), p), FMul(X, X, p), p);
    DoublingY(X, Y, t3, u2, x, p);
    DoublingZ(Y, Z, p);
    NonZeroResidue(Z, p);
    ToAffineRep(X, Y, Z, p);
    var q := ToAffine(X, Y, Z, p);
    FiniteDouble(X, Y, Z, q.x, q.y, x, y, z, p);
  }

  lemma FiniteDouble(X: nat, Y: nat, Z: nat, qx: nat, qy: nat, x: nat, y: nat, z: nat, p: nat)
    requires IsPrime(p) && p > 2 && 0 < Y < p && qx < p && qy < p && z < p
    requires !Cong(Z, 0, p) && Rep(X, Y, Z, qx, qy, p)
    requires var M, S, E := 3 * (X * X), 4 * (Y * Y * X), 8 * (Y * Y * (Y * Y));
             Cong(x, M * M - S - S, p) && Cong(y, (S - x) * M - E, p) && Cong(z, Z * Y + Z * Y, p)
    ensures 0 < z && ToAffine(x, y, z, p) == Double(Affine(qx, qy), p)
  {
    if qy == 0 {
      assert Cong(Y, 0, p);
      NonZeroResidue(Y, p);
      assert false;
    }
    DoubleLaw(X, Y, Z, qx, qy, x, y, z, p);
  }

  lemma AddedS(X: nat, Z: nat, x2: nat, p: nat)
    requires X < p
    ensures var s2 := FMul(FMul(Z, Z, p), x2, p);
            Cong(s2, x2 * (Z * Z), p) && Cong(FSub(s2, X, p), x2 * (Z * Z) - X, p)
  {
    hide FMul, FSub;
    MulC(Z, Z, Z, Z, p);
    MulC(FMul(Z, Z, p), Z * Z, x2, x2, p);
    SubC(FMul(FMul(Z, Z, p), x2, p), x2 * (Z * Z), X, X, p);
  }

  lemma AddedT(Y: nat, Z: nat, y2: nat, p: nat)
    requires Y < p
    ensures var t2 := FMul(FMul(FMul(Z, Z, p), Z, p), y2, p);
            Cong(t2, y2 * (Z * Z * Z), p) && Cong(FSub(t2, Y, p), y2 * (Z * Z * Z) - Y, p)
  {
    hide FMul, FSub;
    MulC(Z, Z, Z, Z, p);
    var t1 := FMul(FMul(Z, Z, p), Z, p);
    MulC(FMul(Z, Z, p), Z * Z, Z, Z, p);
    MulC(t1, Z * Z * Z, y2, y2, p);
    SubC(FMul(t1, y2, p), y2 * (Z * Z * Z), Y, Y, p);
  }

  /** The three coordinates pointAdd computes once s and t hold the two differences. */
  function Added(X: nat, Y: nat, Z: nat, s: nat, t: nat, p: nat): (nat, nat, nat)
    requires p > 0
  {
    var z1 := FMul(Z, s, p);
    var v := FMul(s, s, p);
    var u := FMul(v, X, p);
    var x1 := FMul(t, t, p);
    var s1 := FMul(s, v, p);
    var x2 := FSub(x1, s1, p);
    var x3 := FSub(x2, u, p);
    var x4 := FSub(x3, u, p);
    var u1 := FSub(u, x4, p);
    var u2 := FMul(u1, t, p);
    var s2 := FMul(s1, Y, p);
    (x4, FSub(u2, s2, p), z1)
  }

  lemma AddedFormulas(X: nat, Y: nat, Z: nat, s: nat, t: nat, p: nat)
    requires p > 0
    ensures var (x, y, z) := Added(X, Y, Z, s, t, p);
            var u, w := s * s * X, s * (s * s);
            Cong(x, t * t - u - (w + u), p) && Cong(y, (u - x) * t - w * Y, p) && Cong(z, Z * s, p)
  {
    hide FMul, FSub;
    var v := FMul(s, s, p);
    var u := FMul(v, X, p);
    var x1 := FMul(t, t, p);
    var s1 := FMul(s, v, p);
    var x2 := FSub(x1, s1, p);
    var x3 := FSub(x2, u, p);
    var x4 := FSub(x3, u, p);
    var u1 := FSub(u, x4, p);
    var U, W := s * s * X, s * (s * s);
    MulC(Z, Z, s, s, p);
    MulC(s, s, s, s, p);
    MulC(v, s * s, X, X, p);
    MulC(t, t, t, t, p);
    MulC(s, s, v, s * s, p);
    SubC(x1, t * t, s1, W, p);
    SubC(x2, t * t - W, u, U, p);
    SubC(x3, t * t - W - U, u, U, p);
    SubC(u, U, x4, x4, p);
    MulC(u1, U - x4, t, t, p);
    MulC(s1, W, Y, Y, p);
    SubC(FMul(u1, t, p), (U - x4) * t, FMul(s1, Y, p), W * Y, p);
  }

  /** The comparisons pointAdd makes in scaled coordinates are comparisons of the affine points. */
  lemma ScaledComparisons(X: nat, Y: nat, Z: nat, x2: nat, y2: nat, p: nat)
    requires IsPrime(p) && X < p && Y < p && 0 < Z < p && x2 < p && y2 < p
    ensures var q := ToAffine(X, Y, Z, p);
            && (X == FMul(FMul(Z, Z, p), x2, p) <==> q.x == x2)
            && (Y == FMul(FMul(FMul(Z, Z, p), Z, p), y2, p) <==> q.y == y2)
  {
    hide FMul, ToAffine;
    var q := ToAffine(X, Y, Z, p);
    NonZeroResidue(Z, p);
    ToAffineRep(X, Y, Z, p);
    AddedS(X, Z, x2, p);
    AddedT(Y, Z, y2, p);
    NonZeroProduct(Z, Z, p);
    NonZeroProduct(Z * Z, Z, p);
    EqualWhenCong(X, FMul(FMul(Z, Z, p), x2, p), Z * Z, q.x, x2, p);
    EqualWhenCong(Y, FMul(FMul(FMul(Z, Z, p), Z, p), y2, p), Z * Z * Z, q.y, y2, p);
  }

  lemma EqualWhenCong(X: nat, s: nat, D: int, x1: nat, x2: nat, p: nat)
    requires IsPrime(p) && X < p && s < p && x1 < p && x2 < p && !Cong(D, 0, p)
    requires Cong(X, x1 * D, p) && Cong(s, x2 * D, p)
    ensures X == s <==> x1 == x2
  {
    SameScaled(X, D, x1, x2, p);
    if Cong(X, s, p) {
      ResiduesEqual(X, s, p);
    }
  }

  /** pointAdd's arithmetic is the chord law when the abscissas differ. */
  lemma AddedIsAdd(X: nat, Y: nat, Z: nat, x2: nat, y2: nat, p: nat)
    requires IsPrime(p) && p > 2 && X < p && Y < p && 0 < Z < p && x2 < p && y2 < p
    requires ToAffine(X, Y, Z, p).x != x2
    ensures var s := FSub(FMul(FMul(Z, Z, p), x2, p), X, p);
            var t := FSub(FMul(FMul(FMul(Z, Z, p), Z, p), y2, p), Y, p);
            var (x, y, z) := Added(X, Y, Z, s, t, p);
            0 < z < p && ToAffine(x, y, z, p) == Add(ToAffine(X, Y, Z, p), Affine(x2, y2), p)
  {
    hide FMul, FSub, ToAffine, Curve.Add;
    var q := ToAffine(X, Y, Z, p);
    NonZeroResidue(Z, p);
    ToAffineRep(X, Y, Z, p);
    AddedS(X, Z, x2, p);
    AddedT(Y, Z, y2, p);
    var s := FSub(FMul(FMul(Z, Z, p), x2, p), X, p);
    var t := FSub(FMul(FMul(FMul(Z, Z, p), Z, p), y2, p), Y, p);
    AddedFormulas(X, Y, Z, s, t, p);
    var (x, y, z) := Added(X, Y, Z, s, t, p);
    AddLaw(X, Y, Z, q.x, q.y, x2, y2, s, t, x, y, z, p);
  }

  /** A point whose y coordinate vanishes doubles to infinity. */
  lemma VerticalTangent(X: nat, Z: nat, p: nat)
    requires p > 1
    ensures Double(ToAffine(X, 0, Z, p), p) == Infinity
  {
    SmallMod(0, p);
  }

  /** With z = 1 a triple stands for its own first two coordinates. */
  lemma UnitTriple(x: nat, y: nat, p: nat)
    requires IsPrime(p) && x < p && y < p
    ensures ToAffine(x, y, 1, p) == Affine(x, y)
  {
    NonZeroResidue(1, p);
    RepUnique(x, y, 1, x, y, p);
  }

  /** The firmware's point arithmetic, with the modulus that bigSetField put in force. */
  class Signer {
    const pBytes: seq<Byte>
    const nBytes: seq<Byte>
    const gx: nat
    const gy: nat
    var n: seq<Byte>

    constructor (p0: seq<Byte>, n0: seq<Byte>, gx0: nat, gy0: nat)
      ensures pBytes == p0 && nBytes == n0 && gx == gx0 && gy == gy0 && n == p0
    {
      pBytes, nBytes, gx, gy, n := p0, n0, gx0, gy0, p0;
    }

    /** A usable modulus: an odd prime above 2^255 whose low byte can be decremented twice. */
    static ghost predicate Modulus(m: seq<Byte>) {
      |m| == 32 && m[0] >= 2 && IsPrime(Val(m)) && 2 * Val(m) > TWO256
    }

    ghost predicate Parameters() {
      Modulus(pBytes) && Modulus(nBytes) && OnCurve(Affine(gx, gy), Val(pBytes))
    }

    method SetFieldToP()
      modifies this
      ensures n == pBytes
    {
      n := pBytes;
    }

    method SetFieldToN()
      modifies this
      ensures n == nBytes
    {
      n := nBytes;
    }

    /** An exact field product, written through r, which may alias an operand. */
    method BigMultiply(r: Num, op1: Num, op2: Num)
      requires Modulus(n)
      modifies r
      ensures r.v == FMul(old(op1.v), old(op2.v), Val(n))
    {
      r.v := FMul(op1.v, op2.v, Val(n));
    }

    /** The eight ladder steps for one byte of the exponent. */
    method LadderByte(r: Num, temp: Num, exponentByte: Byte, ghost a: nat, ghost high: nat)
      requires Modulus(n) && r != temp && Ladder(a, high, r.v, temp.v, Val(n))
      modifies r, temp
      ensures Ladder(a, Scan(high, exponentByte, 8), r.v, temp.v, Val(n))
    {
      hide Ladder, Val, U8, FMul, IsPrime;
      var lookup := [r, temp];
      var byte := exponentByte;
      for j := 0 to 8
        invariant byte == Shifted(exponentByte, j)
        invariant Ladder(a, Scan(high, exponentByte, j), r.v, temp.v, Val(n))
      {
        var bit := byte / 128;
        byte := U8((byte as int) * 2);
        LadderStep(a, Scan(high, exponentByte, j), r.v, temp.v, bit, Val(n));
        BigMultiply(lookup[1 - bit], r, temp);
        BigMultiply(lookup[bit], lookup[bit], lookup[bit]);
      }
    }

    /** The ladder over all 256 bits of n - 2. */
    method LadderAll(r: Num, temp: Num, ghost a: nat)
      requires Modulus(n) && r != temp && Ladder(a, 0, r.v, temp.v, Val(n))
      modifies r, temp
      ensures Val(n) >= 2 && Ladder(a, Val(n) - 2, r.v, temp.v, Val(n))
    {
      hide Ladder, Val, IsPrime, Scan, U8;
      ghost var e: seq<Byte> := n[0 := n[0] - 2];
      LadderEnd(n, e);
      var i: Byte := 31;
      ghost var done: nat := 32;
      while i < 32
        invariant 0 <= done <= 32 && i == if done == 0 then 255 else done - 1
        invariant Ladder(a, Val(e[done..]), r.v, temp.v, Val(n))
        decreases done
      {
        var byte := n[i];
        if i == 0 {
          byte := Minus(byte, 2);
        }
        LadderByte(r, temp, byte, a, Val(e[done..]));
        ScanEnds(e, i);
        done := i;
        i := Minus(i, 1);
      }
      assert e[0..] == e;
    }

    /** Fermat inversion by a Montgomery ladder over the bits of n - 2; r may alias op1. */
    method BigInvert(r: Num, op1: Num)
      requires Modulus(n)
      modifies r
      ensures r.v == Inv(old(op1.v), Val(n))
    {
      hide Ladder, Val, Pow;
      ghost var a := op1.v;
      var temp := new Num(op1.v);
      r.v := 1;
      LadderStart(a, Val(n));
      LadderAll(r, temp, a);
      LadderResult(a, Val(n) - 2, r.v, temp.v, Val(n));
    }

    method AffineToJacobian(out: PointJacobian, source: PointAffine)
      modifies out
      ensures out.isPointAtInfinity == source.isPointAtInfinity
      ensures out.x == source.x && out.y == source.y && out.z == 1
    {
      out.isPointAtInfinity := source.isPointAtInfinity;
      out.x := source.x;
      out.y := source.y;
      out.z := 1;
    }

    /** Doubling in place: the tangent law on the point the triple stands for. */
    method PointDouble(q: PointJacobian)
      requires Modulus(n) && q.Valid(Val(n))
      modifies q
      ensures q.Valid(Val(n))
      ensures q.Value(Val(n)) == Double(old(q.Value(Val(n))), Val(n))
      ensures old(q.isPointAtInfinity) == 0 && q.isPointAtInfinity != 0 ==> q.z == 0
    {
      hide Val, IsPrime, FMul, FAdd, FSub, ToAffine, Curve.Double;
      var m := Val(n);
      ghost var X, Y, Z, inf := q.x, q.y, q.z, q.isPointAtInfinity;
      ZeroProducts(0, Z, m);
      FlagOr(q.isPointAtInfinity, if q.y == 0 then 1 else 0);
      q.isPointAtInfinity := BitOr(q.isPointAtInfinity, if q.y == 0 then 1 else 0);
      q.z := FMul(q.z, q.y, m);
      q.z := FAdd(q.z, q.z, m);
      q.y := FMul(q.y, q.y, m);
      var t := FMul(q.y, q.x, m);
      t := FAdd(t, t, m);
      t := FAdd(t, t, m);
      q.x := FMul(q.x, q.x, m);
      var u := q.x;
      u := FAdd(u, u, m);
      u := FAdd(u, q.x, m);
      q.x := FMul(u, u, m);
      q.x := FSub(q.x, t, m);
      q.x := FSub(q.x, t, m);
      t := FSub(t, q.x, m);
      t := FMul(t, u, m);
      q.y := FMul(q.y, q.y, m);
      q.y := FAdd(q.y, q.y, m);
      q.y := FAdd(q.y, q.y, m);
      q.y := FAdd(q.y, q.y, m);
      q.y := FSub(t, q.y, m);
      assert (q.x, q.y, q.z) == Doubled(X, Y, Z, m);
      DoubleOutcome(X, Y, Z, inf, m);
    }

    /** Addition of p2 into p1, every write that must not count redirected to junk. */
    method PointAdd(p1: PointJacobian, junk: PointJacobian, p2: PointAffine)
      requires Modulus(n) && p1 != junk && p1.Valid(Val(n)) && junk.Reduced(Val(n))
      requires p2.x < Val(n) && p2.y < Val(n)
      modifies p1, junk
      ensures p1.Valid(Val(n)) && junk.Reduced(Val(n))
      ensures p1.Value(Val(n)) == Add(old(p1.Value(Val(n))), p2.Value(), Val(n))
      ensures p1.isPointAtInfinity != 0 && (p2.isPointAtInfinity != 0 ==> p2.x == 0) ==> p1.Vanishes()
    {
      hide Val, IsPrime, ToAffine, NonZeroFlag;
      var lookup := [p1, junk];
      var isO := NonZeroFlag(p1.isPointAtInfinity);
      AffineToJacobian(lookup[1 - isO], p2);
      UnitTriple(p2.x, p2.y, Val(n));
      var target := lookup[isO];
      lookup := lookup[0 := target];
      var isO2 := NonZeroFlag(p2.isPointAtInfinity);
      target := lookup[isO2];
      AddInto(target, p2, isO, isO2);
    }

    /** The arithmetic of pointAdd on the chosen target; a dummy run only keeps the coordinates reduced. */
    method AddInto(q: PointJacobian, p2: PointAffine, isO: Byte, isO2: Byte)
      requires Modulus(n) && q.Reduced(Val(n)) && p2.x < Val(n) && p2.y < Val(n)
      requires isO == 0 && isO2 == 0 ==> q.Valid(Val(n)) && q.isPointAtInfinity == 0 && p2.isPointAtInfinity == 0
      modifies q
      ensures q.Reduced(Val(n))
      ensures isO == 0 && isO2 == 0 ==>
                && q.Valid(Val(n)) && q.Value(Val(n)) == Add(old(q.Value(Val(n))), p2.Value(), Val(n))
                && (q.isPointAtInfinity != 0 ==> q.z == 0)
    {
      hide Val, IsPrime, ToAffine, FMul, FSub, DiffersMask, OppositeFlag, Curve.Add, AllZero;
      var m := Val(n);
      ghost var X, Y, Z := q.x, q.y, q.z;
      var s := FMul(q.z, q.z, m);
      var t := FMul(s, q.z, m);
      t := FMul(t, p2.y, m);
      s := FMul(s, p2.x, m);
      var cmpXs := DiffersMask(q.x, s);
      var cmpYt := DiffersMask(q.y, t);
      AddOutcome(X, Y, Z, p2.x, p2.y, isO, isO2, m);
      ZeroProducts(X, Z, m);
      if AllZero(cmpXs, cmpYt, isO, isO2) {
        PointDouble(q);
        return;
      }
      FlagOr(q.isPointAtInfinity, OppositeFlag(cmpXs, cmpYt));
      q.isPointAtInfinity := BitOr(q.isPointAtInfinity, OppositeFlag(cmpXs, cmpYt));
      s := FSub(s, q.x, m);
      t := FSub(t, q.y, m);
      ghost var s0, t0 := s, t;
      q.z := FMul(q.z, s, m);
      var v := FMul(s, s, m);
      var u := FMul(v, q.x, m);
      q.x := FMul(t, t, m);
      s := FMul(s, v, m);
      q.x := FSub(q.x, s, m);
      q.x := FSub(q.x, u, m);
      q.x := FSub(q.x, u, m);
      u := FSub(u, q.x, m);
      u := FMul(u, t, m);
      s := FMul(s, q.y, m);
      q.y := FSub(u, s, m);
      assert (q.x, q.y, q.z) == Added(X, Y, Z, s0, t0, m);
    }

    /** Division by z^2 and z^3; for the point at infinity the coordinates are dummies. */
    method JacobianToAffine(out: PointAffine, source: PointJacobian)
      requires Modulus(n) && source.Valid(Val(n))
      modifies out
      ensures out.isPointAtInfinity == source.isPointAtInfinity
      ensures out.x < Val(n) && out.y < Val(n)
      ensures out.Value() == source.Value(Val(n))
      ensures source.Vanishes() ==> out.x == 0
    {
      hide Val, IsPrime, Inv;
      ZeroProducts(source.x, 0, Val(n));
      ZeroInverse(source.x, Val(n));
      out.isPointAtInfinity := source.isPointAtInfinity;
      var z := new Num(source.z);
      var s := new Num(0);
      var t := new Num(0);
      BigMultiply(s, z, z);
      BigMultiply(t, s, z);
      BigInvert(s, s);
      BigInvert(t, t);
      out.x := FMul(source.x, s.v, Val(n));
      out.y := FMul(source.y, t.v, Val(n));
      InverseOfResidue(source.z, Val(n));
    }

    /** Double-and-add over all 256 bits of k, the additions for zero bits being additions of infinity. */
    method PointMultiply(q: PointAffine, k: seq<Byte>)
      requires Parameters() && |k| == 32
      requires q.x < Val(pBytes) && q.y < Val(pBytes)
      modifies this, q
      ensures n == pBytes
      ensures q.x < Val(pBytes) && q.y < Val(pBytes)
      ensures q.Value() == Multiple(Val(k), old(q.Value()), Val(pBytes))
      ensures q.Value().Infinity? && (old(q.Value()).Infinity? ==> old(q.x) == 0) ==> q.x == 0
      ensures OnCurve(old(q.Value()), Val(pBytes)) ==> OnCurve(q.Value(), Val(pBytes))
    {
      hide IsPrime, Curve.Add, Curve.Double, ToAffine, OnCurve;
      SetFieldToP();
      var accumulator := new PointJacobian(1);
      var junk := new PointJacobian(0);
      var alwaysInfinity := new PointAffine(0, 0, 1);
      ghost var point := q.Value();
      assert Val(k[32..]) == 0;
      hide Val, Modulus;
      var i: Byte := 31;
      ghost var done: int := 32;
      while i < 32
        modifies accumulator, junk
        invariant 0 <= done <= 32 && i == U8(done - 1)
        invariant accumulator.Valid(Val(n)) && junk.Reduced(Val(n)) && n == pBytes
        invariant accumulator.Value(Val(n)) == Multiple(Val(k[done..]), point, Val(n))
        invariant accumulator.isPointAtInfinity != 0 && (point.Infinity? ==> q.x == 0) ==> accumulator.Vanishes()
        decreases done
      {
        assert i == done - 1;
        MultiplyByte(accumulator, junk, alwaysInfinity, q, k[i], Val(k[done..]));
        ScanEnds(k, i);
        done := i;
        i := U8(i - 1);
      }
      assert k[0..] == k;
      JacobianToAffine(q, accumulator);
      if OnCurve(point, Val(n)) {
        MultipleOnCurve(Val(k), point, Val(n));
      }
    }

    /** The eight double-and-add steps for one byte of the scalar. */
    method MultiplyByte(accumulator: PointJacobian, junk: PointJacobian, alwaysInfinity: PointAffine, q: PointAffine,
                        scalarByte: Byte, ghost high: nat)
      requires Modulus(n) && accumulator != junk && accumulator.Valid(Val(n)) && junk.Reduced(Val(n))
      requires q.x < Val(n) && q.y < Val(n)
      requires alwaysInfinity.isPointAtInfinity == 1 && alwaysInfinity.x == 0 && alwaysInfinity.y == 0
      requires accumulator.Value(Val(n)) == Multiple(high, q.Value(), Val(n))
      modifies accumulator, junk
      ensures accumulator.Valid(Val(n)) && junk.Reduced(Val(n))
      ensures accumulator.Value(Val(n)) == Multiple(Scan(high, scalarByte, 8), q.Value(), Val(n))
      ensures accumulator.isPointAtInfinity != 0 && (q.Value().Infinity? ==> q.x == 0) ==> accumulator.Vanishes()
    {
      hide IsPrime, Curve.Add, Curve.Double, ToAffine, Val;
      var lookup := [alwaysInfinity, q];
      var oneByte := scalarByte;
      for j := 0 to 8
        invariant oneByte == Shifted(scalarByte, j)
        invariant accumulator.Valid(Val(n)) && junk.Reduced(Val(n))
        invariant accumulator.Value(Val(n)) == Multiple(Scan(high, scalarByte, j), q.Value(), Val(n))
        invariant j > 0 && accumulator.isPointAtInfinity != 0 && (q.Value().Infinity? ==> q.x == 0) ==>
                    accumulator.Vanishes()
      {
        PointDouble(accumulator);
        var oneBit := oneByte / 128;
        MultipleStep(Scan(high, scalarByte, j), oneBit, q.Value(), Val(n));
        PointAdd(accumulator, junk, lookup[oneBit]);
        oneByte := U8((oneByte as int) * 2);
      }
    }

    ghost function Generator(): Point {
      Affine(gx, gy)
    }

    /** k times the base point. */
    ghost function Ephemeral(k: nat): Point
      requires Parameters()
    {
      Multiple(k, Generator(), Val(pBytes))
    }

    /**
     A signature for the ephemeral key k (section 4.1.3 of SEC 1), with s in the lower half. That kG is finite does not
     depend on the order of the base point: were it not, the coordinate computed would be 0 and the nonce unusable.
     */
    ghost predicate Signature(k: nat, r: nat, s: nat, hash: nat, key: nat)
      requires Parameters()
    {
      var order := Val(nBytes);
      && 1 <= k < order && 1 <= r < order && 1 <= s <= order / 2
      && Ephemeral(k).Affine? && r == Ephemeral(k).x % order
      && (Cong(k * s, hash + r * key, order) || Cong(k * s, -(hash + r * key), order))
    }

    /** A generator output for which the signing loop starts over. */
    ghost predicate Unusable(nonce: seq<Byte>, hash: nat, key: nat)
      requires Parameters()
    {
      var k, order, q := ValBE(nonce), Val(nBytes), Ephemeral(ValBE(nonce));
      k == 0 || k >= order || q.Infinity? || q.x % order == 0
      || Cong((hash + q.x % order * key) * Inv(k, order), 0, order)
    }

    /** r from the ephemeral key; 0 if kG is infinite. The field is that of n afterwards. */
    method EphemeralX(r: Num, kBytes: seq<Byte>)
      requires Parameters() && |kBytes| == 32
      modifies this, r
      ensures n == nBytes && r.v < Val(nBytes)
      ensures var q := Ephemeral(Val(kBytes));
              if r.v != 0 then q.Affine? && r.v == q.x % Val(nBytes) else q.Infinity? || q.x % Val(nBytes) == 0
    {
      hide IsPrime, Val, Multiple;
      var bigR := new PointAffine(gx, gy, 0);
      PointMultiply(bigR, kBytes);
      SetFieldToN();
      r.v := bigR.x % Val(n);
      SmallMod(0, Val(n));
    }

    /** One turn of the signing loop for the nonce k, which is in range. */
    method TrySign(r: Num, s: Num, hash: nat, key: nat, kBytes: seq<Byte>) returns (ok: bool)
      requires Parameters() && |kBytes| == 32 && 0 < Val(kBytes) < Val(nBytes) && r != s
      modifies this, r, s
      ensures ok ==> Signature(Val(kBytes), r.v, s.v, hash, key)
      ensures !ok ==> Unusable(Reversed(kBytes), hash, key)
    {
      hide IsPrime, Val, Multiple, Inv, FMul, FAdd, Cong;
      DoubleReverse(kBytes);
      EphemeralX(r, kBytes);
      if r.v == 0 {
        return false;
      }
      s.v := FMul(r.v, key, Val(n));
      var reduced := hash % Val(n);
      s.v := FAdd(s.v, reduced, Val(n));
      var k := new Num(Val(kBytes));
      var inverse := new Num(0);
      BigInvert(inverse, k);
      s.v := FMul(s.v, inverse.v, Val(n));
      SigningEquation(Val(kBytes), r.v, key, hash, Val(n));
      if s.v == 0 {
        return false;
      }
      var half := Val(n) / 2;
      NegatedEquation(Val(kBytes), s.v, hash + r.v * key, Val(n));
      if s.v > half {
        s.v := Val(n) - s.v;
      }
      return true;
    }

    /**
     Signs with the first usable output of the deterministic generator; `nonces` are its outputs in order,
     big-endian, and ok is false only if none of them is usable.
     */
    method EcdsaSign(r: Num, s: Num, hash: nat, key: nat, nonces: seq<seq<Byte>>) returns (ok: bool, ghost used: nat)
      requires Parameters() && r != s
      requires forall i :: 0 <= i < |nonces| ==> |nonces[i]| == 32
      modifies this, r, s
      ensures used <= |nonces| && (ok <==> used < |nonces|)
      ensures forall i :: 0 <= i < used ==> Unusable(nonces[i], hash, key)
      ensures ok ==> Signature(ValBE(nonces[used]), r.v, s.v, hash, key)
    {
      hide Signature, Val;
      used := 0;
      var turn := 0;
      while turn < |nonces|
        invariant 0 <= used == turn <= |nonces|
        invariant forall i :: 0 <= i < used ==> Unusable(nonces[i], hash, key)
      {
        var k := Reversed(nonces[turn]);
        DoubleReverse(nonces[turn]);
        if Val(k) != 0 && Order(Val(k), Val(nBytes)) == BIGCMP_LESS {
          ok := TrySign(r, s, hash, key, k);
          if ok {
            return;
          }
        }
        turn := turn + 1;
        used := used + 1;
      }
      ok := false;
    }
  }

  /** What makes the coordinates of an infinite point vanish: products with 0. */
  lemma ZeroProducts(x: nat, z: nat, m: nat)
    requires m > 0 && x < m
    ensures FMul(z, 0, m) == 0 && FMul(0, z, m) == 0 && FMul(z, FSub(x, x, m), m) == 0
    ensures FAdd(FMul(z, 0, m), FMul(z, 0, m), m) == 0
  {
    SmallMod(0, m);
  }

  lemma ZeroInverse(x: nat, m: nat)
    requires m > 2
    ensures Inv(0, m) == 0 && FMul(x, Inv(0, m), m) == 0
  {
    SmallMod(0, m);
  }

  lemma DoubleReverse(s: seq<Byte>)
    ensures Reversed(Reversed(s)) == s
  {
  }

  /** Dividing by k in the field: k times the computed s is the hash plus r times the key. */
  lemma SigningEquation(k: nat, r: nat, key: nat, hash: nat, n: nat)
    requires IsPrime(n) && 0 < k < n
    ensures var e := FAdd(FMul(r, key, n), hash % n, n);
            var s := FMul(e, Inv(k, n), n);
            && Cong(k * s, hash + r * key, n)
            && (s == 0 ==> Cong((hash + r * key) * Inv(k, n), 0, n))
  {
    var e := FAdd(FMul(r, key, n), hash % n, n);
    var i := Inv(k, n);
    assert n > 1;
    hide IsPrime, FAdd, FMul, Inv;
    var target := hash + r * key;
    SigningSum(r, key, hash, n);
    MulC(e, target, i, i, n);
    NonZeroResidue(k, n);
    InverseLaw(k, n);
    Divided(k, i, target, FMul(e, i, n), n);
  }

  lemma SigningSum(r: nat, key: nat, hash: nat, n: nat)
    requires n > 0
    ensures Cong(FAdd(FMul(r, key, n), hash % n, n), hash + r * key, n)
  {
    hide FAdd, FMul;
    MulC(r, r, key, key, n);
    ResidueCong(hash, n);
    AddC(FMul(r, key, n), r * key, hash % n, hash, n);
  }

  lemma Divided(k: int, i: int, target: int, s: int, n: nat)
    requires n > 0 && Cong(s, target * i, n) && Cong(i * k, 1, n)
    ensures Cong(k * s, target, n) && (s == 0 ==> Cong(target * i, 0, n))
  {
    CongMul(k, k, s, target * i, n);
    CongMul(target, target, i * k, 1, n);
    Reassociate(k, target, i);
  }

  lemma Reassociate(k: int, target: int, i: int)
    ensures k * (target * i) == target * (i * k) && target * 1 == target
  {
  }

  /** Replacing s by n - s negates the equation. */
  lemma NegatedEquation(k: nat, s: nat, target: int, n: nat)
    requires n > 0 && Cong(k * s, target, n)
    ensures Cong(k * (n - s), -target, n)
  {
    assert k * (n - s) == -(k * s) + k * n;
    ModAddMultiple(-(k * s), k, n);
    CongSub(0, 0, k * s, target, n);
  }

  /** One bit more of the scalar: double, then add the point or infinity. */
  lemma MultipleStep(m: nat, bit: nat, q: Point, p: nat)
    requires p > 1 && Coordinates(q, p) && bit <= 1
    ensures Multiple(2 * m + bit, q, p)
            == Add(Double(Multiple(m, q, p), p), if bit == 1 then q else Infinity, p)
  {
    if 2 * m + bit == 0 {
    } else {
      assert (2 * m + bit) / 2 == m && (2 * m + bit) % 2 == bit;
    }
  }

  lemma InverseOfResidue(z: nat, p: nat)
    requires p > 1
    ensures Inv(FMul(z, z, p), p) == Inv(z * z, p)
    ensures Inv(FMul(FMul(z, z, p), z, p), p) == Inv(z * z * z, p)
  {
    MulC(z, z, z, z, p);
    PowCong(FMul(z, z, p), z * z, p - 2, p);
    MulC(FMul(z, z, p), z * z, z, z, p);
    PowCong(FMul(FMul(z, z, p), z, p), z * z * z, p - 2, p);
  }

  /** 1 for a set flag, 0 for a clear one, whatever non-zero value "set" has. */
  function NonZeroFlag(x: Byte): (f: Byte)
    ensures f == if x == 0 then 0 else 1
  {
    U8(U16(-(x as int)) / 256) % 2
  }

  /** 0 when two numbers are equal, 0xff when they differ. */
  function DiffersMask(a: nat, b: nat): (m: Byte)
    ensures m == if a == b then 0 else 255
  {
    assert BitXor(0, 0) == 0 && BitXor(1, 0) == 1 && BitXor(2, 0) == 2;
    NonZeroMask(U8(BitXor(Order(a, b), BIGCMP_EQUAL)))
  }

  /** 1 exactly when the abscissas agree and the ordinates do not. */
  function OppositeFlag(cmpXs: Byte, cmpYt: Byte): (f: Byte)
    requires (cmpXs == 0 || cmpXs == 255) && (cmpYt == 0 || cmpYt == 255)
    ensures f == if cmpXs == 0 && cmpYt == 255 then 1 else 0
  {
    OppositeTable(cmpXs, cmpYt);
    U8(BitAnd(BitAnd(255 - cmpXs, cmpYt), 1))
  }

  lemma OppositeTable(cmpXs: Byte, cmpYt: Byte)
    requires (cmpXs == 0 || cmpXs == 255) && (cmpYt == 0 || cmpYt == 255)
    ensures BitAnd(BitAnd(255 - cmpXs, cmpYt), 1) == if cmpXs == 0 && cmpYt == 255 then 1 else 0
  {
    hide BitAnd;
    AndFacts();
  }

  lemma AndFacts()
    ensures BitAnd(255, 255) == 255 && BitAnd(255, 0) == 0 && BitAnd(0, 255) == 0 && BitAnd(0, 0) == 0
    ensures BitAnd(255, 1) == 1 && BitAnd(0, 1) == 0
  {
    AndItself(255);
    MaskFacts();
  }

  lemma {:induction false} AndItself(a: nat)
    ensures BitAnd(a, a) == a
  {
    if a > 0 {
      AndItself(a / 2);
    }
  }

  predicate AllZero(a: Byte, b: Byte, c: Byte, d: Byte)
    ensures AllZero(a, b, c, d) <==> a == 0 && b == 0 && c == 0 && d == 0
  {
    BitOrZero(a, b);
    BitOrZero(BitOr(a, b), c);
    BitOrZero(BitOr(BitOr(a, b), c), d);
    BitOr(BitOr(BitOr(a, b), c), d) == 0
  }

  /** What each branch of pointAdd amounts to for two finite points. */
  lemma AddOutcome(X: nat, Y: nat, Z: nat, x2: nat, y2: nat, isO: Byte, isO2: Byte, p: nat)
    requires IsPrime(p) && 2 * p > TWO256 && X < p && Y < p && Z < p && x2 < p && y2 < p
    ensures isO == 0 && isO2 == 0 && Z != 0 ==>
              var s, t := FMul(FMul(Z, Z, p), x2, p), FMul(FMul(FMul(Z, Z, p), Z, p), y2, p);
              var q, r := ToAffine(X, Y, Z, p), Affine(x2, y2);
              && (X == s && Y == t ==> Add(q, r, p) == Double(q, p))
              && (X == s && Y != t ==> Add(q, r, p) == Infinity)
              && (X != s ==>
                    var (x, y, z) := Added(X, Y, Z, FSub(s, X, p), FSub(t, Y, p), p);
                    0 < z && ToAffine(x, y, z, p) == Add(q, r, p))
  {
    if isO == 0 && isO2 == 0 && Z != 0 {
      ScaledComparisons(X, Y, Z, x2, y2, p);
      if X != FMul(FMul(Z, Z, p), x2, p) {
        AddedIsAdd(X, Y, Z, x2, y2, p);
      }
    }
  }

  /** The flag pointDouble leaves: set when it was set or when y is zero. */
  lemma FlagOr(inf: Byte, zero: Byte)
    ensures BitOr(inf, zero) == 0 <==> inf == 0 && zero == 0
  {
    BitOrZero(inf, zero);
  }

  lemma DoubleOutcome(X: nat, Y: nat, Z: nat, inf: Byte, p: nat)
    requires IsPrime(p) && 2 * p > TWO256 && X < p && Y < p && Z < p && (inf == 0 ==> Z != 0)
    ensures inf == 0 && Y != 0 ==>
              var (x, y, z) := Doubled(X, Y, Z, p);
              0 < z && ToAffine(x, y, z, p) == Double(ToAffine(X, Y, Z, p), p)
    ensures inf == 0 && Y == 0 ==> Double(ToAffine(X, Y, Z, p), p) == Infinity
    ensures Double(Infinity, p) == Infinity
  {
    if inf == 0 && Y != 0 {
      DoubledIsDouble(X, Y, Z, p);
    } else if inf == 0 {
      VerticalTangent(X, Z, p);
    }
  }

  lemma LadderResult(a: nat, e: nat, r: nat, temp: nat, m: nat)
    requires m > 1 && Ladder(a, e, r, temp, m)
    ensures r == Pow(a, e) % m
  {
    SmallMod(r, m);
  }

  /** 8-bit subtraction of a small number. */
  function Minus(a: Byte, b: Byte): (r: Byte)
    ensures r == if a < b then a - b + 256 else a - b
  {
    U8(a - b)
  }

  lemma LadderEnd(n: seq<Byte>, e: seq<Byte>)
    requires |n| == 32 && n[0] >= 2 && e == n[0 := n[0] - 2]
    ensures Val(e) == Val(n) - 2
    ensures Val(e[32..]) == 0
  {
    assert e[1..] == n[1..];
  }

  lemma LadderStart(a: nat, m: nat)
    requires m > 1
    ensures Ladder(a, 0, 1, a, m)
  {
    assert Pow(a, 1) == a * Pow(a, 0);
  }
}
