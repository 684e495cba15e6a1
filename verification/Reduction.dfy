/** When bigMultiply's reduction is exact, for the two moduli the firmware uses (bignum256.c, ecdsa.c). */
module Reduction {
  import opened Arith
  import opened Bytes
  import opened BigField

  /** The prime of secp256k1's coordinate field, and its two's complement in 5 bytes. */
  const P: nat := 0xFFFFFFFF_FFFFFFFF_FFFFFFFF_FFFFFFFF_FFFFFFFF_FFFFFFFF_FFFFFFFE_FFFFFC2F
  const C_P: nat := 0x1_000003D1

  /** The order of secp256k1's base point, and its two's complement in 17 bytes. */
  const N: nat := 0xFFFFFFFF_FFFFFFFF_FFFFFFFF_FFFFFFFE_BAAEDCE6_AF48A03B_BFD25E8C_D0364141
  const C_N: nat := 0x1_45512319_50B75FC4_402DA173_2FC9BEBF

  /** Removing the upper part H costs exactly H times the modulus. */
  function Fold(v: nat, c: nat): nat {
    v % TWO256 + Nat(c * (v / TWO256))
  }

  lemma Widths()
    ensures Pow256(2) == 0x1_0000 && Pow256(5) == 0x100_00000000
    ensures Pow256(17) == 0x100_00000000_00000000_00000000_00000000
    ensures Pow256(32) == TWO256
  {
    Pow256At32();
    assert Pow256(8) == 0x1_00000000_00000000;
    assert Pow256(1) == 256;
    Pow256Add(8, 8);
    Pow256Add(16, 1);
  }

  /** When the bytes beyond `remaining` are zero, a pass drops nothing. */
  lemma PassIsFold(v: nat, remaining: nat, c: nat)
    requires remaining > 32 && v / TWO256 < Pow256(remaining - 32)
    ensures Pass(v, remaining, c) == Fold(v, c)
  {
    SmallMod(v / TWO256, Pow256(remaining - 32));
  }

  /** A pass that drops nothing keeps the value modulo n, whatever n and its complement are. */
  lemma FoldKeepsResidue(v: nat, n: nat, c: nat)
    requires n > 0 && n + c == TWO256
    ensures Fold(v, c) % n == v % n
  {
    var h := v / TWO256;
    FoldIsDifference(v, n, c, h);
    ModAddMultiple(v, -(h as int), n);
  }

  lemma FoldIsDifference(v: nat, n: nat, c: nat, h: nat)
    requires n + c == TWO256 && h == v / TWO256
    ensures Fold(v, c) == v + (-(h as int)) * n
  {
    assert v == h * TWO256 + v % TWO256;
    assert (n + c) * h == n * h + c * h;
  }

  lemma ReduceUnrollP(v: nat)
    ensures Reduce(v, 64, C_P, 5) == Pass(Pass(v, 64, C_P), 37, C_P)
  {
    hide Pass;
    assert Reduce(v, 64, C_P, 5) == Reduce(Pass(v, 64, C_P), 37, C_P, 5);
  }

  lemma ReduceUnrollN(v: nat)
    ensures Reduce(v, 64, C_N, 17) == Pass(Pass(Pass(v, 64, C_N), 49, C_N), 34, C_N)
  {
    hide Pass;
    var w := Pass(v, 64, C_N);
    assert Reduce(v, 64, C_N, 17) == Reduce(w, 49, C_N, 17);
    assert Reduce(w, 49, C_N, 17) == Reduce(Pass(w, 49, C_N), 34, C_N, 17);
  }

  /** Modulo p two passes suffice to bring a double-width product near 2^256, and no byte is lost on the way. */
  lemma PassesP(v: nat)
    requires v < TWO256 * TWO256
    ensures Reduce(v, 64, C_P, 5) == Fold(Fold(v, C_P), C_P)
    ensures Reduce(v, 64, C_P, 5) < TWO256 + C_P * C_P
    ensures Reduce(v, 64, C_P, 5) % P == v % P
  {
    Widths();
    hide Pow256, Pass, Reduce;
    ReduceUnrollP(v);
    PassIsFold(v, 64, C_P);
    var h := v / TWO256;
    var v1 := Fold(v, C_P);
    assert v1 == v - P * h;
    var h1 := v1 / TWO256;
    assert h1 <= C_P;
    PassIsFold(v1, 37, C_P);
    assert Fold(v1, C_P) == v1 - P * h1;
    ModAddMultiple(v, -(h + h1), P);
  }

  /** Modulo the group order it takes three. */
  lemma PassesN(v: nat)
    requires v < TWO256 * TWO256
    ensures Reduce(v, 64, C_N, 17) == Fold(Fold(Fold(v, C_N), C_N), C_N)
    ensures Reduce(v, 64, C_N, 17) < TWO256 + C_N
    ensures Reduce(v, 64, C_N, 17) % N == v % N
  {
    Widths();
    hide Pow256, Pass, Reduce;
    ReduceUnrollN(v);
    PassIsFold(v, 64, C_N);
    var h := v / TWO256;
    var v1 := Fold(v, C_N);
    assert v1 == v - N * h;
    var h1 := v1 / TWO256;
    assert h1 <= C_N;
    PassIsFold(v1, 49, C_N);
    var v2 := Fold(v1, C_N);
    assert v2 == v1 - N * h1;
    var h2 := v2 / TWO256;
    assert h2 <= 2;
    PassIsFold(v2, 34, C_N);
    assert Fold(v2, C_N) == v2 - N * h2;
    ModAddMultiple(v, -(h + h1 + h2), N);
  }

  /**
   The result of bigMultiply modulo p is the true residue exactly when the value after the last pass fits
   256 bits; and it does fit unless the true residue lies in [c, c^2 + c).
   */
  lemma ProductModP(v: nat)
    requires v < TWO256 * TWO256
    ensures Reduced(v, P, C_P, 5) == v % P <==> Fold(Fold(v, C_P), C_P) < TWO256
    ensures !(C_P <= v % P < C_P * C_P + C_P) ==> Reduced(v, P, C_P, 5) == v % P
  {
    hide Pass, Reduce, Fold;
    PassesP(v);
    var u := Reduce(v, 64, C_P, 5);
    if u < TWO256 {
    } else {
      var low := u - TWO256;
      assert u % TWO256 == low && low % P == low;
      assert u == P + (low + C_P) && u % P == low + C_P;
    }
  }

  /** The same for the group order, where the window is [c, 2c). */
  lemma ProductModN(v: nat)
    requires v < TWO256 * TWO256
    ensures Reduced(v, N, C_N, 17) == v % N <==> Fold(Fold(Fold(v, C_N), C_N), C_N) < TWO256
    ensures !(C_N <= v % N < 2 * C_N) ==> Reduced(v, N, C_N, 17) == v % N
  {
    hide Pass, Reduce, Fold;
    PassesN(v);
    var u := Reduce(v, 64, C_N, 17);
    if u < TWO256 {
    } else {
      var low := u - TWO256;
      assert u % TWO256 == low && low % N == low;
      assert u == N + (low + C_N) && u % N == low + C_N;
    }
  }

  lemma FoldIs(v: nat, q: nat, m: nat, c: nat)
    requires v == q * TWO256 + m && m < TWO256
    ensures Fold(v, c) == m + c * q
  {
    ModUnique(v, TWO256, q, m);
  }

  /** Two reduced operands on which the last pass does carry out of 256 bits. */
  lemma ProductModPFails()
    ensures var v := (P - 1) * (P - 0x100_00000000);
            v % P == 0x100_00000000 && Reduced(v, P, C_P, 5) == 0x100_00000000 - C_P
  {
    hide Pass, Reduce, Fold;
    var v := (P - 1) * (P - 0x100_00000000);
    ModUnique(v, P, P - 0x100_00000000 - 1, 0x100_00000000);
    FoldIs(v, P - 0x100_00000001 - C_P, 0x1010003d9a3000e9472, C_P);
    FoldIs(0x1010003d9a3000e9472 + C_P * (P - 0x100_00000001 - C_P), C_P - 1, TWO256 - 0x1000006a2000e90a1, C_P);
    PassesP(v);
    ModUnique(P + 0x100_00000000, TWO256, 1, 0x100_00000000 - C_P);
    SmallMod(0x100_00000000 - C_P, P);
  }

  lemma ProductModNFails()
    ensures var v := (N - 1) * (N - 0x2_00000000_00000000_00000000_00000000);
            && v % N == 0x2_00000000_00000000_00000000_00000000
            && Reduced(v, N, C_N, 17) == 0x2_00000000_00000000_00000000_00000000 - C_N
  {
    hide Pass, Reduce, Fold;
    var d := 0x2_00000000_00000000_00000000_00000000;
    var v := (N - 1) * (N - d);
    ModUnique(v, N, N - d - 1, d);
    var m0 := 0x2809630823355b4e66f338cabb608546741496c20e7cf878896cf21467d7d140;
    var q0 := 0xfffffffffffffffffffffffffffffffb755db9cd5e9140777fa4bd19a06c8285;
    FoldIs(v, q0, m0, C_N);
    var v1 := m0 + C_N * q0;
    var q1 := 0x14551231950b75fc4402da1732fc9beb9;
    var m1 := 0x6298e32a7e39643a19680a1ba432f841e68118bc8517e65cb777352b8718e87b;
    FoldIs(v1, q1, m1, C_N);
    var v2 := m1 + C_N * q1;
    FoldIs(v2, 1, v2 - TWO256, C_N);
    PassesN(v);
    ModUnique(N + d, TWO256, 1, d - C_N);
    SmallMod(d - C_N, N);
  }
}
