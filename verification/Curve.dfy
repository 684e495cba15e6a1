/** The curve y^2 = x^3 + 7 over a prime field: the affine chord-and-tangent law and its Jacobian form. */
module Curve {
  import opened Arith
  import opened PrimeField

  datatype Point = Infinity | Affine(x: nat, y: nat)

  ghost predicate Coordinates(q: Point, p: nat) {
    q.Affine? ==> q.x < p && q.y < p
  }

  ghost predicate OnCurve(q: Point, p: nat)
    requires p > 0
  {
    Coordinates(q, p) && (q.Affine? ==> Cong(q.y * q.y, q.x * q.x * q.x + 7, p))
  }

  /** The third intersection of a line of slope `slope` through (x1, y1) and a point with abscissa x2, reflected. */
  ghost function Third(slope: int, x1: int, y1: int, x2: int, p: nat): (q: Point)
    requires p > 0
    ensures q.Affine? && q.x < p && q.y < p
  {
    var x3 := (slope * slope - x1 - x2) % p;
    Affine(x3, (slope * (x1 - x3) - y1) % p)
  }

  ghost function Double(q: Point, p: nat): (r: Point)
    requires p > 1
    ensures Coordinates(r, p)
  {
    if q.Infinity? || q.y == 0 then Infinity
    else Third(3 * q.x * q.x * Inv(2 * q.y, p), q.x, q.y, q.x, p)
  }

  ghost function Add(q: Point, r: Point, p: nat): (t: Point)
    requires p > 1
    requires Coordinates(q, p) && Coordinates(r, p)
    ensures Coordinates(t, p)
  {
    if q.Infinity? then r
    else if r.Infinity? then q
    else if q.x == r.x then (if q.y == r.y then Double(q, p) else Infinity)
    else Third((r.y - q.y) * Inv(r.x - q.x, p), q.x, q.y, r.x, p)
  }

  /** m times q, by the binary expansion of m: (2h)q = 2(hq), (2h + 1)q = 2(hq) + q. */
  ghost function Multiple(m: nat, q: Point, p: nat): (r: Point)
    requires p > 1 && Coordinates(q, p)
    ensures Coordinates(r, p)
  {
    if m == 0 then Infinity
    else
      var d := Double(Multiple(m / 2, q, p), p);
      if m % 2 == 1 then Add(d, q, p) else d
  }

  // ----- congruence helpers -----

  lemma ResidueCong(a: int, p: nat)
    requires p > 0
    ensures Cong(a % p, a, p) && 0 <= a % p < p
  {
    ModMod(a, p);
  }

  lemma ResiduesEqual(a: nat, b: nat, p: nat)
    requires a < p && b < p && Cong(a, b, p)
    ensures a == b
  {
    SmallMod(a, p);
    SmallMod(b, p);
  }

  lemma NonZeroResidue(a: nat, p: nat)
    requires 0 < a < p
    ensures !Cong(a, 0, p)
  {
    SmallMod(a, p);
    SmallMod(0, p);
  }

  lemma NonZeroProduct(a: int, b: int, p: nat)
    requires IsPrime(p) && !Cong(a, 0, p) && !Cong(b, 0, p)
    ensures !Cong(a * b, 0, p)
  {
    if Cong(a * b, 0, p) {
      NoZeroDivisors(a, b, p);
    }
  }

  /** slope * d = e, when the slope is e times the inverse of d. */
  lemma SlopeLaw(e: int, d: int, p: nat)
    requires IsPrime(p) && !Cong(d, 0, p)
    ensures Cong(e * Inv(d, p) * d, e, p)
  {
    InverseLaw(d, p);
    CongMul(e, e, Inv(d, p) * d, 1, p);
    assert e * (Inv(d, p) * d) == e * Inv(d, p) * d;
  }

  // ----- the Jacobian form -----

  /** (X, Y, Z) stands for (x, y): X = x Z^2, Y = y Z^3. */
  ghost predicate Rep(X: int, Y: int, Z: int, x: int, y: int, p: nat)
    requires p > 0
  {
    Cong(X, x * (Z * Z), p) && Cong(Y, y * (Z * Z * Z), p)
  }

  /** The affine point of a finite Jacobian triple, by the division jacobianToAffine performs. */
  ghost function ToAffine(X: int, Y: int, Z: int, p: nat): (q: Point)
    requires p > 1
    ensures q.Affine? && q.x < p && q.y < p
  {
    Affine((X * Inv(Z * Z, p)) % p, (Y * Inv(Z * Z * Z, p)) % p)
  }

  lemma ToAffineRep(X: int, Y: int, Z: int, p: nat)
    requires IsPrime(p) && !Cong(Z, 0, p)
    ensures var q := ToAffine(X, Y, Z, p); Coordinates(q, p) && Rep(X, Y, Z, q.x, q.y, p)
  {
    NonZeroProduct(Z, Z, p);
    NonZeroProduct(Z * Z, Z, p);
    DivideBack(X, Z * Z, p);
    DivideBack(Y, Z * Z * Z, p);
  }

  lemma DivideBack(a: int, d: int, p: nat)
    requires IsPrime(p) && !Cong(d, 0, p)
    ensures var q := (a * Inv(d, p)) % p; 0 <= q < p && Cong(a, q * d, p)
  {
    SlopeLaw(a, d, p);
    ModProduct(a * Inv(d, p), d, p);
  }

  /** A triple stands for one affine point only. */
  lemma RepUnique(X: int, Y: int, Z: int, x: nat, y: nat, p: nat)
    requires IsPrime(p) && !Cong(Z, 0, p) && x < p && y < p
    requires Rep(X, Y, Z, x, y, p)
    ensures ToAffine(X, Y, Z, p) == Affine(x, y)
  {
    ToAffineRep(X, Y, Z, p);
    var q := ToAffine(X, Y, Z, p);
    NonZeroProduct(Z, Z, p);
    NonZeroProduct(Z * Z, Z, p);
    Cancel(q.x, x, Z * Z, p);
    Cancel(q.y, y, Z * Z * Z, p);
    ResiduesEqual(q.x, x, p);
    ResiduesEqual(q.y, y, p);
  }

  /**
   A line through (x1, y1) in coordinates scaled by W: A = slope W, S = x1 W^2, T = x2 W^2, E = y1 W^3.
   Both the doubling and the addition formulas end here.
   */
  ghost predicate ScaledLine(A: int, S: int, T: int, E: int, W: int, slope: int, x1: int, y1: int, x2: int, p: nat)
    requires p > 0
  {
    && Cong(A, slope * W, p) && Cong(S, x1 * (W * W), p) && Cong(T, x2 * (W * W), p)
    && Cong(E, y1 * (W * W * W), p)
  }

  lemma ScaledThird(A: int, S: int, T: int, E: int, W: int, slope: int, x1: int, y1: int, x2: int,
                    X3: int, Y3: int, p: nat)
    requires p > 0 && ScaledLine(A, S, T, E, W, slope, x1, y1, x2, p)
    requires Cong(X3, A * A - S - T, p) && Cong(Y3, (S - X3) * A - E, p)
    ensures var q := Third(slope, x1, y1, x2, p); Rep(X3, Y3, W, q.x, q.y, p)
  {
    var q := Third(slope, x1, y1, x2, p);
    assert Cong(X3, q.x * (W * W), p) by {
      ThirdX(A, S, T, W, slope, x1, x2, p);
      ModProduct(slope * slope - x1 - x2, W * W, p);
    }
    assert Cong(Y3, q.y * (W * W * W), p) by {
      ThirdY(A, S, E, X3, W, slope, x1, y1, q.x, p);
      ModProduct(slope * (x1 - q.x) - y1, W * W * W, p);
    }
  }

  lemma ThirdX(A: int, S: int, T: int, W: int, slope: int, x1: int, x2: int, p: nat)
    requires p > 0
    requires Cong(A, slope * W, p) && Cong(S, x1 * (W * W), p) && Cong(T, x2 * (W * W), p)
    ensures Cong(A * A - S - T, (slope * slope - x1 - x2) * (W * W), p)
  {
    CongMul(A, slope * W, A, slope * W, p);
    CongSub(A * A, slope * W * (slope * W), S, x1 * (W * W), p);
    CongSub(A * A - S, slope * W * (slope * W) - x1 * (W * W), T, x2 * (W * W), p);
    Factor2(slope, W, x1, x2);
  }

  lemma Factor2(l: int, W: int, x1: int, x2: int)
    ensures l * W * (l * W) - x1 * (W * W) - x2 * (W * W) == (l * l - x1 - x2) * (W * W)
  {
    assert l * W * (l * W) == l * l * (W * W);
  }

  lemma ThirdY(A: int, S: int, E: int, X3: int, W: int, slope: int, x1: int, y1: int, x3: int, p: nat)
    requires p > 0
    requires Cong(A, slope * W, p) && Cong(S, x1 * (W * W), p) && Cong(E, y1 * (W * W * W), p)
    requires Cong(X3, x3 * (W * W), p)
    ensures Cong((S - X3) * A - E, (slope * (x1 - x3) - y1) * (W * W * W), p)
  {
    CongSub(S, x1 * (W * W), X3, x3 * (W * W), p);
    CongMul(S - X3, x1 * (W * W) - x3 * (W * W), A, slope * W, p);
    CongSub((S - X3) * A, (x1 * (W * W) - x3 * (W * W)) * (slope * W), E, y1 * (W * W * W), p);
    Factor3(slope, W, x1, x3, y1);
  }

  lemma Factor3(l: int, W: int, x1: int, x3: int, y1: int)
    ensures (x1 * (W * W) - x3 * (W * W)) * (l * W) - y1 * (W * W * W) == (l * (x1 - x3) - y1) * (W * W * W)
  {
    var V := W * W;
    assert (x1 * V - x3 * V) * (l * W) == (x1 - x3) * V * (l * W);
    assert (x1 - x3) * V * (l * W) == l * (x1 - x3) * (V * W);
  }

  lemma RepCong(X: int, Y: int, Z: int, W: int, x: int, y: int, p: nat)
    requires p > 0 && Rep(X, Y, W, x, y, p) && Cong(Z, W, p)
    ensures Rep(X, Y, Z, x, y, p)
  {
    CongMul(Z, W, Z, W, p);
    CongMul(Z * Z, W * W, Z, W, p);
    CongMul(x, x, Z * Z, W * W, p);
    CongMul(y, y, Z * Z * Z, W * W * W, p);
  }

  // ----- doubling -----

  lemma DoubleZ(Y: int, Z: int, y: int, p: nat)
    requires p > 0 && Cong(Y, y * (Z * Z * Z), p)
    ensures Cong(Z * Y + Z * Y, 2 * y * (Z * Z * (Z * Z)), p)
  {
    var C := y * (Z * Z * Z);
    CongMul(Z, Z, Y, C, p);
    CongAdd(Z * Y, Z * C, Z * Y, Z * C, p);
    DoubleZIdentity(y, Z);
  }

  lemma DoubleZIdentity(y: int, Z: int)
    ensures var G := Z * (y * (Z * Z * Z)); G + G == 2 * y * (Z * Z * (Z * Z))
  {
    assert Z * (y * (Z * Z * Z)) == y * (Z * (Z * Z * Z));
    assert Z * (Z * Z * Z) == Z * Z * (Z * Z);
  }

  lemma DoubleSlope(X: int, Z: int, x: int, y: int, slope: int, p: nat)
    requires p > 0 && Cong(X, x * (Z * Z), p) && Cong(slope * (2 * y), 3 * x * x, p)
    ensures Cong(3 * (X * X), slope * (2 * y * (Z * Z * (Z * Z))), p)
  {
    var V := Z * Z;
    CongMul(X, x * V, X, x * V, p);
    CongMul(3, 3, X * X, x * V * (x * V), p);
    assert 3 * (x * V * (x * V)) == 3 * x * x * (V * V);
    CongMul(slope * (2 * y), 3 * x * x, V * V, V * V, p);
    assert slope * (2 * y) * (V * V) == slope * (2 * y * (V * V));
  }

  lemma DoubleS(X: int, Y: int, Z: int, x: int, y: int, p: nat)
    requires p > 0 && Rep(X, Y, Z, x, y, p)
    ensures var W := 2 * y * (Z * Z * (Z * Z)); Cong(4 * (Y * Y * X), x * (W * W), p)
  {
    var C := y * (Z * Z * Z);
    CongMul(Y, C, Y, C, p);
    CongMul(Y * Y, C * C, X, x * (Z * Z), p);
    CongMul(4, 4, Y * Y * X, C * C * (x * (Z * Z)), p);
    DoubleSIdentity(x, y, Z);
  }

  lemma DoubleSIdentity(x: int, y: int, Z: int)
    ensures var C := y * (Z * Z * Z); var W := 2 * y * (Z * Z * (Z * Z));
            4 * (C * C * (x * (Z * Z))) == x * (W * W)
  {
    var C, D := y * (Z * Z * Z), Z * Z;
    var W := 2 * y * (D * D);
    assert W == 2 * (C * Z);
    assert W * W == 4 * (C * C * D) by {
      assert C * Z * (C * Z) == C * C * (Z * Z);
    }
  }

  lemma DoubleE(Y: int, Z: int, y: int, p: nat)
    requires p > 0 && Cong(Y, y * (Z * Z * Z), p)
    ensures var W := 2 * y * (Z * Z * (Z * Z)); Cong(8 * (Y * Y * (Y * Y)), y * (W * W * W), p)
  {
    var C := y * (Z * Z * Z);
    CongMul(Y, C, Y, C, p);
    CongMul(Y * Y, C * C, Y * Y, C * C, p);
    CongMul(8, 8, Y * Y * (Y * Y), C * C * (C * C), p);
    DoubleEIdentity(y, Z);
  }

  lemma DoubleEIdentity(y: int, Z: int)
    ensures var C := y * (Z * Z * Z); var W := 2 * y * (Z * Z * (Z * Z));
            8 * (C * C * (C * C)) == y * (W * W * W)
  {
    var C, D := y * (Z * Z * Z), Z * Z;
    var W := 2 * y * (D * D);
    var G := C * Z;
    assert W == 2 * G;
    assert W * W * W == 8 * (G * G * G);
    assert G * G * G == C * C * C * (Z * Z * Z);
    assert y * (C * C * C * (Z * Z * Z)) == C * C * C * C;
  }

  /** The doubling formulas compute the tangent law. */
  lemma DoubleLaw(X: int, Y: int, Z: int, x: nat, y: nat, X3: int, Y3: int, Z3: int, p: nat)
    requires IsPrime(p) && p > 2 && x < p && 0 < y < p
    requires !Cong(Z, 0, p) && Rep(X, Y, Z, x, y, p)
    requires var M, S, E := 3 * (X * X), 4 * (Y * Y * X), 8 * (Y * Y * (Y * Y));
             Cong(X3, M * M - S - S, p) && Cong(Y3, (S - X3) * M - E, p) && Cong(Z3, Z * Y + Z * Y, p)
    ensures !Cong(Z3, 0, p)
    ensures ToAffine(X3, Y3, Z3, p) == Double(Affine(x, y), p)
  {
    hide Third, ToAffine;
    var W := 2 * y * (Z * Z * (Z * Z));
    var M, S, E := 3 * (X * X), 4 * (Y * Y * X), 8 * (Y * Y * (Y * Y));
    TwiceNonZero(y, p);
    var slope := 3 * x * x * Inv(2 * y, p);
    SlopeLaw(3 * x * x, 2 * y, p);
    DoubleZ(Y, Z, y, p);
    DoubleSlope(X, Z, x, y, slope, p);
    DoubleS(X, Y, Z, x, y, p);
    DoubleE(Y, Z, y, p);
    assert ScaledLine(M, S, S, E, W, slope, x, y, x, p);
    FinishThird(M, S, S, E, W, slope, x, y, x, X3, Y3, Z3, p) by {
      NonZeroProduct(Z, Z, p);
      NonZeroProduct(Z * Z, Z * Z, p);
      NonZeroProduct(2 * y, Z * Z * (Z * Z), p);
    }
  }

  lemma TwiceNonZero(y: nat, p: nat)
    requires IsPrime(p) && p > 2 && 0 < y < p
    ensures !Cong(2 * y, 0, p)
  {
    NonZeroResidue(2, p);
    NonZeroResidue(y, p);
    NonZeroProduct(2, y, p);
  }

  /** From a scaled line to the affine third point. */
  lemma FinishThird(A: int, S: int, T: int, E: int, W: int, slope: int, x1: int, y1: int, x2: int,
                    X3: int, Y3: int, Z3: int, p: nat)
    requires IsPrime(p) && ScaledLine(A, S, T, E, W, slope, x1, y1, x2, p) && !Cong(W, 0, p)
    requires Cong(X3, A * A - S - T, p) && Cong(Y3, (S - X3) * A - E, p) && Cong(Z3, W, p)
    ensures !Cong(Z3, 0, p)
    ensures ToAffine(X3, Y3, Z3, p) == Third(slope, x1, y1, x2, p)
  {
    hide Third, ToAffine, ScaledLine;
    ScaledThird(A, S, T, E, W, slope, x1, y1, x2, X3, Y3, p);
    var q := Third(slope, x1, y1, x2, p);
    RepCong(X3, Y3, Z3, W, q.x, q.y, p);
    RepUnique(X3, Y3, Z3, q.x, q.y, p);
  }

  // ----- addition -----

  lemma AddS(X: int, V: int, x1: int, x2: int, p: nat)
    requires p > 0 && Cong(X, x1 * V, p)
    ensures Cong(x2 * V - X, (x2 - x1) * V, p)
  {
    CongSub(x2 * V, x2 * V, X, x1 * V, p);
    assert x2 * V - x1 * V == (x2 - x1) * V;
  }

  lemma AddT(Y: int, C: int, d: int, y1: int, y2: int, slope: int, p: nat)
    requires p > 0 && Cong(Y, y1 * C, p) && Cong(slope * d, y2 - y1, p)
    ensures Cong(y2 * C - Y, slope * (d * C), p)
  {
    CongSub(y2 * C, y2 * C, Y, y1 * C, p);
    CongMul(slope * d, y2 - y1, C, C, p);
    AddTIdentity(y1, y2, C, slope, d);
  }

  lemma AddTIdentity(y1: int, y2: int, C: int, slope: int, d: int)
    ensures y2 * C - y1 * C == (y2 - y1) * C && slope * d * C == slope * (d * C)
  {
  }

  lemma AddU(s: int, X: int, Z: int, d: int, x1: int, p: nat)
    requires p > 0 && Cong(X, x1 * (Z * Z), p) && Cong(s, d * (Z * Z), p)
    ensures var W := d * (Z * Z * Z); Cong(s * s * X, x1 * (W * W), p)
  {
    var V := Z * Z;
    CongMul(s, d * V, s, d * V, p);
    CongMul(s * s, d * V * (d * V), X, x1 * V, p);
    AddUIdentity(d, Z, x1);
  }

  lemma AddUIdentity(d: int, Z: int, x1: int)
    ensures var V := Z * Z; var W := d * (Z * Z * Z); d * V * (d * V) * (x1 * V) == x1 * (W * W)
  {
    var V := Z * Z;
    var G := d * V;
    assert d * (Z * Z * Z) == G * Z;
    assert G * Z * (G * Z) == G * G * V;
    assert G * G * (x1 * V) == x1 * (G * G * V);
  }

  lemma AddCube(s: int, Z: int, d: int, p: nat)
    requires p > 0 && Cong(s, d * (Z * Z), p)
    ensures var W := d * (Z * Z * Z); Cong(s * (s * s), d * (W * W), p)
  {
    var G := d * (Z * Z);
    CongMul(s, G, s, G, p);
    CongMul(s, G, s * s, G * G, p);
    AddCubeIdentity(Z, d);
  }

  lemma AddCubeIdentity(Z: int, d: int)
    ensures var G := d * (Z * Z); var W := d * (Z * Z * Z); G * (G * G) == d * (W * W)
  {
    var V := Z * Z;
    var G := d * V;
    assert d * (Z * Z * Z) == G * Z;
    assert G * Z * (G * Z) == G * G * V;
    CubeStep(G, d, V);
  }

  lemma CubeStep(G: int, d: int, V: int)
    requires G == d * V
    ensures G * (G * G) == d * (G * G * V)
  {
  }

  lemma AddE(s: int, Y: int, Z: int, d: int, y1: int, p: nat)
    requires p > 0 && Cong(Y, y1 * (Z * Z * Z), p) && Cong(s, d * (Z * Z), p)
    ensures var W := d * (Z * Z * Z); Cong(s * (s * s) * Y, y1 * (W * W * W), p)
  {
    var W := d * (Z * Z * Z);
    AddCube(s, Z, d, p);
    CongMul(s * (s * s), d * (W * W), Y, y1 * (Z * Z * Z), p);
    AddEIdentity(W, y1, d, Z * Z * Z);
  }

  lemma AddEIdentity(W: int, y1: int, d: int, C: int)
    requires W == d * C
    ensures d * (W * W) * (y1 * C) == y1 * (W * W * W)
  {
    assert d * (W * W) * (y1 * C) == y1 * (W * W * (d * C));
  }

  lemma AddZ(s: int, Z: int, d: int, p: nat)
    requires p > 0 && Cong(s, d * (Z * Z), p)
    ensures Cong(Z * s, d * (Z * Z * Z), p)
  {
    CongMul(Z, Z, s, d * (Z * Z), p);
    assert Z * (d * (Z * Z)) == d * (Z * Z * Z);
  }

  /** The mixed addition formulas compute the chord law. */
  lemma AddLaw(X: int, Y: int, Z: int, x1: nat, y1: nat, x2: nat, y2: nat,
               s: int, t: int, X3: int, Y3: int, Z3: int, p: nat)
    requires IsPrime(p) && x1 < p && y1 < p && x2 < p && y2 < p && x1 != x2
    requires !Cong(Z, 0, p) && Rep(X, Y, Z, x1, y1, p)
    requires Cong(s, x2 * (Z * Z) - X, p) && Cong(t, y2 * (Z * Z * Z) - Y, p)
    requires var u, w := s * s * X, s * (s * s);
             Cong(X3, t * t - u - (w + u), p) && Cong(Y3, (u - X3) * t - w * Y, p) && Cong(Z3, Z * s, p)
    ensures !Cong(Z3, 0, p)
    ensures ToAffine(X3, Y3, Z3, p) == Add(Affine(x1, y1), Affine(x2, y2), p)
  {
    hide Third, ToAffine;
    var d := x2 - x1;
    var W := d * (Z * Z * Z);
    var u, w := s * s * X, s * (s * s);
    DifferenceNonZero(x1, x2, p);
    var slope := (y2 - y1) * Inv(d, p);
    SlopeLaw(y2 - y1, d, p);
    AddS(X, Z * Z, x1, x2, p);
    AddT(Y, Z * Z * Z, d, y1, y2, slope, p);
    AddU(s, X, Z, d, x1, p);
    AddCube(s, Z, d, p);
    AddE(s, Y, Z, d, y1, p);
    AddZ(s, Z, d, p);
    assert Cong(w + u, x2 * (W * W), p) by {
      CongAdd(w, d * (W * W), u, x1 * (W * W), p);
      assert d * (W * W) + x1 * (W * W) == x2 * (W * W);
    }
    assert ScaledLine(t, u, w + u, w * Y, W, slope, x1, y1, x2, p);
    FinishThird(t, u, w + u, w * Y, W, slope, x1, y1, x2, X3, Y3, Z3, p) by {
      NonZeroProduct(Z, Z, p);
      NonZeroProduct(Z * Z, Z, p);
      NonZeroProduct(d, Z * Z * Z, p);
    }
  }

  lemma DifferenceNonZero(x1: nat, x2: nat, p: nat)
    requires x1 < p && x2 < p && x1 != x2
    ensures !Cong(x2 - x1, 0, p)
  {
    if Cong(x2 - x1, 0, p) {
      CongAdd(x2 - x1, 0, x1, x1, p);
      ResiduesEqual(x1, x2, p);
    }
  }

  /** The code's test for equal abscissas, in scaled coordinates. */
  lemma SameScaled(X: int, D: int, x1: nat, x2: nat, p: nat)
    requires IsPrime(p) && x1 < p && x2 < p && !Cong(D, 0, p) && Cong(X, x1 * D, p)
    ensures Cong(X, x2 * D, p) <==> x1 == x2
  {
    if Cong(X, x2 * D, p) {
      Cancel(x1, x2, D, p);
      ResiduesEqual(x1, x2, p);
    }
  }

  // ----- closure of the curve -----

  lemma LineSquared(l: int, t: int, x1: int, y1: int)
    ensures var c := y1 - l * x1; var L := l * (t - x1) + y1;
            L * L == l * l * (t * t) + 2 * l * c * t + c * c
  {
    var c := y1 - l * x1;
    var m := l * t;
    assert l * (t - x1) + y1 == m + c;
    assert (m + c) * (m + c) == m * m + 2 * m * c + c * c;
    assert m * m == l * l * (t * t);
    assert m * c == l * c * t;
  }

  lemma TimesLinear(t: int, a: int, m: int, k: int)
    ensures (t - a) * (t * t - m * t + k) == t * t * t - (a + m) * (t * t) + (k + a * m) * t - a * k
  {
    var q := t * t;
    assert t * (q - m * t + k) == t * q - m * q + k * t;
    assert a * (q - m * t + k) == a * q - a * m * t + a * k;
  }

  lemma CubicExpanded(t: int, a: int, b: int, d: int)
    ensures (t - a) * ((t - b) * (t - d))
            == t * t * t - (a + b + d) * (t * t) + (a * b + (a + b) * d) * t - a * b * d
  {
    assert (t - b) * (t - d) == t * t - (b + d) * t + b * d;
    TimesLinear(t, a, b + d, b * d);
    assert b * d + a * (b + d) == a * b + (a + b) * d;
    assert a * (b * d) == a * b * d;
  }

  ghost function Alpha(l: int, x1: int, y1: int, x2: int): int {
    -(2 * l * (y1 - l * x1)) - (x1 * x2 + (x1 + x2) * (l * l - x1 - x2))
  }

  ghost function Beta(l: int, x1: int, y1: int, x2: int): int {
    7 - (y1 - l * x1) * (y1 - l * x1) + x1 * x2 * (l * l - x1 - x2)
  }

  /** The cubic minus the squared line, divided by its three roots, leaves a linear remainder. */
  lemma LinearRemainder(l: int, x1: int, y1: int, x2: int, t: int)
    ensures var L := l * (t - x1) + y1; var x3 := l * l - x1 - x2;
            t * t * t + 7 - L * L
            == (t - x1) * ((t - x2) * (t - x3)) + Alpha(l, x1, y1, x2) * t + Beta(l, x1, y1, x2)
  {
    var c, x3 := y1 - l * x1, l * l - x1 - x2;
    var k, e := x1 * x2 + (x1 + x2) * x3, x1 * x2 * x3;
    LineSquared(l, t, x1, y1);
    CubicExpanded(t, x1, x2, x3);
    Collect(t * t * t, l * l, t * t, 2 * l * c, k, t);
  }

  lemma Collect(cube: int, ll: int, square: int, m: int, k: int, t: int)
    ensures cube - ll * square - m * t == (cube - ll * square + k * t) + (-m - k) * t
  {
    assert (-m - k) * t == -(m * t) - k * t;
  }

  /** A slope whose line meets the curve at (x1, y1) and again at abscissa x2 meets it a third time at Third. */
  lemma ThirdOnCurve(l: int, x1: int, y1: int, x2: int, p: nat)
    requires p > 0
    requires Cong(y1 * y1, x1 * x1 * x1 + 7, p)
    requires Cong(Alpha(l, x1, y1, x2), 0, p)
    ensures OnCurve(Third(l, x1, y1, x2, p), p)
  {
    hide Alpha, Beta;
    var A, B := Alpha(l, x1, y1, x2), Beta(l, x1, y1, x2);
    var x3 := l * l - x1 - x2;
    assert Cong(B, 0, p) by {
      LinearRemainder(l, x1, y1, x2, x1);
      CongSub(x1 * x1 * x1 + 7, y1 * y1, y1 * y1, y1 * y1, p);
      CongMul(A, 0, x1, x1, p);
      VanishingConstant(x1 * x1 * x1 + 7 - y1 * y1, A * x1, B, p);
    }
    var L := l * (x3 - x1) + y1;
    assert Cong(L * L, x3 * x3 * x3 + 7, p) by {
      LinearRemainder(l, x1, y1, x2, x3);
      CongMul(A, 0, x3, x3, p);
      VanishingRemainder(x3 * x3 * x3 + 7, L * L, A * x3, B, p);
    }
    ReflectedOnCurve(l, x1, y1, x2, p);
  }

  lemma VanishingConstant(f: int, a: int, b: int, p: nat)
    requires p > 0 && Cong(f, 0, p) && Cong(a, 0, p) && f == a + b
    ensures Cong(b, 0, p)
  {
    CongSub(f, 0, a, 0, p);
  }

  lemma VanishingRemainder(f: int, g: int, a: int, b: int, p: nat)
    requires p > 0 && Cong(a, 0, p) && Cong(b, 0, p) && f - g == a + b
    ensures Cong(g, f, p)
  {
    CongAdd(a, 0, b, 0, p);
    CongAdd(f - g, 0, g, g, p);
  }

  lemma ReflectedOnCurve(l: int, x1: int, y1: int, x2: int, p: nat)
    requires p > 0
    requires var x3 := l * l - x1 - x2; var L := l * (x3 - x1) + y1; Cong(L * L, x3 * x3 * x3 + 7, p)
    ensures OnCurve(Third(l, x1, y1, x2, p), p)
  {
    var q := Third(l, x1, y1, x2, p);
    var x3 := l * l - x1 - x2;
    var L, K := l * (x3 - x1) + y1, l * (x1 - q.x) - y1;
    ResidueCong(x3, p);
    ResidueCong(K, p);
    assert Cong(q.x * q.x * q.x + 7, x3 * x3 * x3 + 7, p) by {
      CongMul(q.x, x3, q.x, x3, p);
      CongMul(q.x * q.x, x3 * x3, q.x, x3, p);
      CongAdd(q.x * q.x * q.x, x3 * x3 * x3, 7, 7, p);
    }
    assert Cong(q.y, -L, p) by {
      CongSub(x1, x1, q.x, x3, p);
      CongMul(l, l, x1 - q.x, x1 - x3, p);
      CongSub(l * (x1 - q.x), l * (x1 - x3), y1, y1, p);
      assert l * (x1 - x3) - y1 == -L;
    }
    CongMul(q.y, -L, q.y, -L, p);
    assert (-L) * (-L) == L * L;
  }

  lemma TangentAlpha(l: int, x: int, y: int, p: nat)
    requires p > 0 && Cong(l * (2 * y), 3 * x * x, p)
    ensures Cong(Alpha(l, x, y, x), 0, p)
  {
    CongSub(3 * x * x, l * (2 * y), l * (2 * y), l * (2 * y), p);
    assert Alpha(l, x, y, x) == 3 * x * x - l * (2 * y) by {
      assert 2 * l * (y - l * x) == l * (2 * y) - 2 * (l * l * x);
      assert (x + x) * (l * l - x - x) == 2 * (l * l * x) - 4 * (x * x);
    }
  }

  lemma ChordAlpha(l: int, x1: int, y1: int, x2: int, y2: int, p: nat)
    requires IsPrime(p) && !Cong(x2 - x1, 0, p) && Cong(l * (x2 - x1), y2 - y1, p)
    requires Cong(y1 * y1, x1 * x1 * x1 + 7, p) && Cong(y2 * y2, x2 * x2 * x2 + 7, p)
    ensures Cong(Alpha(l, x1, y1, x2), 0, p)
  {
    hide Alpha, Beta;
    var A, B := Alpha(l, x1, y1, x2), Beta(l, x1, y1, x2);
    var L := l * (x2 - x1) + y1;
    LinearRemainder(l, x1, y1, x2, x1);
    LinearRemainder(l, x1, y1, x2, x2);
    assert Cong(A * x1 + B, 0, p) by {
      CongSub(x1 * x1 * x1 + 7, y1 * y1, y1 * y1, y1 * y1, p);
    }
    assert Cong(A * x2 + B, 0, p) by {
      CongAdd(l * (x2 - x1), y2 - y1, y1, y1, p);
      CongMul(L, y2, L, y2, p);
      CongSub(x2 * x2 * x2 + 7, L * L, L * L, L * L, p);
    }
    CongSub(A * x2 + B, 0, A * x1 + B, 0, p);
    assert A * x2 + B - (A * x1 + B) == A * (x2 - x1);
    NoZeroDivisors(A, x2 - x1, p);
  }

  /** The curve is closed under the chord-and-tangent law. */
  lemma DoubleOnCurve(q: Point, p: nat)
    requires IsPrime(p) && p > 2 && OnCurve(q, p)
    ensures OnCurve(Double(q, p), p)
  {
    if q.Affine? && q.y != 0 {
      TwiceNonZero(q.y, p);
      var l := 3 * q.x * q.x * Inv(2 * q.y, p);
      SlopeLaw(3 * q.x * q.x, 2 * q.y, p);
      TangentAlpha(l, q.x, q.y, p);
      ThirdOnCurve(l, q.x, q.y, q.x, p);
    }
  }

  lemma AddOnCurve(q: Point, r: Point, p: nat)
    requires IsPrime(p) && p > 2 && OnCurve(q, p) && OnCurve(r, p)
    ensures OnCurve(Add(q, r, p), p)
  {
    if q.Infinity? || r.Infinity? {
    } else if q.x == r.x {
      DoubleOnCurve(q, p);
    } else {
      DifferenceNonZero(q.x, r.x, p);
      var l := (r.y - q.y) * Inv(r.x - q.x, p);
      SlopeLaw(r.y - q.y, r.x - q.x, p);
      ChordAlpha(l, q.x, q.y, r.x, r.y, p);
      ThirdOnCurve(l, q.x, q.y, r.x, p);
    }
  }

  lemma {:induction false} MultipleOnCurve(m: nat, q: Point, p: nat)
    requires IsPrime(p) && p > 2 && OnCurve(q, p)
    ensures OnCurve(Multiple(m, q, p), p)
  {
    if m > 0 {
      MultipleOnCurve(m / 2, q, p);
      var d := Double(Multiple(m / 2, q, p), p);
      DoubleOnCurve(Multiple(m / 2, q, p), p);
      AddOnCurve(d, q, p);
    }
  }

  /** The first multiples, without their binary expansions. */
  lemma FirstMultiples(q: Point, p: nat)
    requires p > 1 && Coordinates(q, p)
    ensures Multiple(0, q, p) == Infinity && Multiple(1, q, p) == q && Multiple(2, q, p) == Add(q, q, p)
    ensures Multiple(3, q, p) == Add(Add(q, q, p), q, p) && Multiple(4, q, p) == Double(Double(q, p), p)
  {
    hide Third;
    assert Multiple(1, q, p) == q;
    assert Multiple(2, q, p) == Double(q, p);
  }

  /** A sum reflected, (x, -y), lies on the line through (x1, y1) with direction (d, e). */
  ghost predicate OnLine(t: Point, x1: int, y1: int, d: int, e: int, p: nat)
    requires p > 0
  {
    t.Affine? && Cong((-(t.y as int) - y1) * d, e * (t.x - x1), p)
  }

  lemma ThirdOnLine(slope: int, x1: int, y1: int, x2: int, d: int, e: int, p: nat)
    requires p > 1 && Cong(slope * d, e, p)
    ensures OnLine(Third(slope, x1, y1, x2, p), x1, y1, d, e, p)
  {
    var t := Third(slope, x1, y1, x2, p);
    var y: int, x: int := t.y, t.x;
    assert Cong(y, slope * (x1 - x) - y1, p) by {
      ResidueCong(slope * (x1 - x) - y1, p);
    }
    hide Third;
    CongSub(-y1, -y1, y, slope * (x1 - x) - y1, p);
    LineIdentity(slope, x, x1, y1, d);
    hide Cong;
    CongMul(-y1 - y, slope * (x - x1), d, d, p);
    CongMul(slope * d, e, x - x1, x - x1, p);
    CongTransitive((-y1 - y) * d, slope * d * (x - x1), e * (x - x1), p);
    assert -y1 - y == -y - y1;
  }

  lemma CongTransitive(a: int, b: int, c: int, p: nat)
    requires p > 0 && Cong(a, b, p) && Cong(b, c, p)
    ensures Cong(a, c, p)
  {
  }

  lemma LineIdentity(slope: int, x: int, x1: int, y1: int, d: int)
    ensures -y1 - (slope * (x1 - x) - y1) == slope * (x - x1)
    ensures slope * (x - x1) * d == slope * d * (x - x1)
  {
  }

  /**
   The law is that of chords and tangents: the reflected sum is on the line through the two points, and the reflected
   double on the tangent, whose direction is (2y, 3x^2).
   */
  lemma ChordAndTangent(q: Point, r: Point, p: nat)
    requires IsPrime(p) && p > 2 && q.Affine? && r.Affine? && Coordinates(q, p) && Coordinates(r, p)
    ensures q.x != r.x ==> OnLine(Add(q, r, p), q.x, q.y, r.x - q.x, r.y - q.y, p)
    ensures q.y != 0 ==> OnLine(Double(q, p), q.x, q.y, 2 * q.y, 3 * q.x * q.x, p)
  {
    hide OnLine, Third;
    if q.x != r.x {
      DifferenceNonZero(q.x, r.x, p);
      SlopeLaw(r.y - q.y, r.x - q.x, p);
      ThirdOnLine((r.y - q.y) * Inv(r.x - q.x, p), q.x, q.y, r.x, r.x - q.x, r.y - q.y, p);
    }
    if q.y != 0 {
      TwiceNonZero(q.y, p);
      SlopeLaw(3 * q.x * q.x, 2 * q.y, p);
      ThirdOnLine(3 * q.x * q.x * Inv(2 * q.y, p), q.x, q.y, q.x, 2 * q.y, 3 * q.x * q.x, p);
    }
  }

  /** A finite triple satisfies the Jacobian equation exactly when its affine point is on the curve. */
  lemma JacobianEquation(X: int, Y: int, Z: int, p: nat)
    requires IsPrime(p) && !Cong(Z, 0, p)
    ensures var D := Z * Z * Z;
            Cong(Y * Y, X * X * X + 7 * (D * D), p) <==> OnCurve(ToAffine(X, Y, Z, p), p)
  {
    ToAffineRep(X, Y, Z, p);
    var q := ToAffine(X, Y, Z, p);
    var D := Z * Z * Z;
    NonZeroProduct(Z, Z, p);
    NonZeroProduct(Z * Z, Z, p);
    NonZeroProduct(D, D, p);
    SquareScaled(Y, D, q.y, p);
    CubeScaled(X, Z, q.x, p);
    if OnCurve(q, p) {
      CongMul(q.y * q.y, q.x * q.x * q.x + 7, D * D, D * D, p);
    } else if Cong(Y * Y, X * X * X + 7 * (D * D), p) {
      Cancel(q.y * q.y, q.x * q.x * q.x + 7, D * D, p);
    }
  }

  lemma SquareScaled(Y: int, D: int, y: int, p: nat)
    requires p > 0 && Cong(Y, y * D, p)
    ensures Cong(Y * Y, y * y * (D * D), p)
  {
    CongMul(Y, y * D, Y, y * D, p);
    assert y * D * (y * D) == y * y * (D * D);
  }

  lemma CubeScaled(X: int, Z: int, x: int, p: nat)
    requires p > 0 && Cong(X, x * (Z * Z), p)
    ensures var D := Z * Z * Z; Cong(X * X * X + 7 * (D * D), (x * x * x + 7) * (D * D), p)
  {
    var V, D := Z * Z, Z * Z * Z;
    SquareScaled(X, V, x, p);
    CongMul(X * X, x * x * (V * V), X, x * V, p);
    CongAdd(X * X * X, x * x * (V * V) * (x * V), 7 * (D * D), 7 * (D * D), p);
    CubeIdentity(x, Z);
  }

  lemma CubeIdentity(x: int, Z: int)
    ensures var V, D := Z * Z, Z * Z * Z;
            x * x * (V * V) * (x * V) + 7 * (D * D) == (x * x * x + 7) * (D * D)
  {
    var V, D := Z * Z, Z * Z * Z;
    assert D * D == V * V * V by {
      assert D == V * Z;
      assert V * Z * (V * Z) == V * V * (Z * Z);
    }
    var G := V * V;
    assert x * x * G * (x * V) == x * x * x * (G * V);
  }
}
