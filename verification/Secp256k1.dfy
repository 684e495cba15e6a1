/** The secp256k1 parameters of ecdsa.c meet what the arithmetic asks of its field and base point. */
module Secp256k1 {
  import opened Arith
  import opened Bytes
  import opened Reduction
  import opened PrimeField
  import opened Curve
  import opened Ecdsa

  const FULL: seq<Byte> := [0xff, 0xff, 0xff, 0xff, 0xff, 0xff, 0xff, 0xff]
  const P0: seq<Byte> := [0x2f, 0xfc, 0xff, 0xff, 0xfe, 0xff, 0xff, 0xff]
  const N0: seq<Byte> := [0x41, 0x41, 0x36, 0xd0, 0x8c, 0x5e, 0xd2, 0xbf]
  const N1: seq<Byte> := [0x3b, 0xa0, 0x48, 0xaf, 0xe6, 0xdc, 0xae, 0xba]
  const N2: seq<Byte> := [0xfe, 0xff, 0xff, 0xff, 0xff, 0xff, 0xff, 0xff]
  const C0: seq<Byte> := [0xbf, 0xbe, 0xc9, 0x2f, 0x73, 0xa1, 0x2d, 0x40]
  const C1: seq<Byte> := [0xc4, 0x5f, 0xb7, 0x50, 0x19, 0x23, 0x51, 0x45]

  /** secp256k1_p, secp256k1_n and their complements, least significant byte first. */
  const SECP_P: seq<Byte> := P0 + FULL + FULL + FULL
  const SECP_COMPLEMENT_P: seq<Byte> := [0xd1, 0x03, 0x00, 0x00, 0x01]
  const SECP_N: seq<Byte> := N0 + N1 + N2 + FULL
  const SECP_COMPLEMENT_N: seq<Byte> := C0 + C1 + [0x01]

  const G_X: nat := 0x79BE667E_F9DCBBAC_55A06295_CE870B07_029BFCDB_2DCE28D9_59F2815B_16F81798
  const G_Y: nat := 0x483ADA77_26A3C465_5DA4FBFC_0E1108A8_FD17B448_A6855419_9C47D08F_FB10D4B8

  lemma FourWords(a: seq<Byte>, b: seq<Byte>, c: seq<Byte>, d: seq<Byte>)
    requires |a| == |b| == |c| == 8
    ensures Val(a + b + c + d) == Val(a) + TWO64 * (Val(b) + TWO64 * (Val(c) + TWO64 * Val(d)))
  {
    assert Pow256(8) == TWO64;
    hide Val, Pow256;
    assert a + b + c + d == a + (b + (c + d));
    ValConcat(a, b + (c + d));
    ValConcat(b, c + d);
    ValConcat(c, d);
  }

  lemma Word(a: Byte, b: Byte, c: Byte, d: Byte, e: Byte, f: Byte, g: Byte, h: Byte)
    ensures Val([a, b, c, d, e, f, g, h])
            == a + 0x100 * b + 0x1_0000 * c + 0x100_0000 * d
               + 0x1_0000_0000 * (e + 0x100 * f + 0x1_0000 * g + 0x100_0000 * h)
  {
    assert Pow256(4) == 0x1_0000_0000;
    hide Val, Pow256;
    assert [a, b, c, d, e, f, g, h] == [a, b, c, d] + [e, f, g, h];
    ValConcat([a, b, c, d], [e, f, g, h]);
    ValFour(a, b, c, d);
    ValFour(e, f, g, h);
  }

  lemma WordsP()
    ensures Val(P0) == 0xFFFFFFFE_FFFFFC2F && Val(FULL) == 0xFFFFFFFF_FFFFFFFF
  {
    hide Val;
    Word(0x2f, 0xfc, 0xff, 0xff, 0xfe, 0xff, 0xff, 0xff);
    Word(0xff, 0xff, 0xff, 0xff, 0xff, 0xff, 0xff, 0xff);
  }

  lemma WordsN()
    ensures Val(N0) == 0xBFD25E8C_D0364141 && Val(N1) == 0xBAAEDCE6_AF48A03B && Val(N2) == 0xFFFFFFFF_FFFFFFFE
  {
    hide Val;
    Word(0x41, 0x41, 0x36, 0xd0, 0x8c, 0x5e, 0xd2, 0xbf);
    Word(0x3b, 0xa0, 0x48, 0xaf, 0xe6, 0xdc, 0xae, 0xba);
    Word(0xfe, 0xff, 0xff, 0xff, 0xff, 0xff, 0xff, 0xff);
  }

  lemma WordsC()
    ensures Val(C0) == 0x402DA173_2FC9BEBF && Val(C1) == 0x45512319_50B75FC4
  {
    hide Val;
    Word(0xbf, 0xbe, 0xc9, 0x2f, 0x73, 0xa1, 0x2d, 0x40);
    Word(0xc4, 0x5f, 0xb7, 0x50, 0x19, 0x23, 0x51, 0x45);
  }

  lemma TwoWords(a: seq<Byte>, b: seq<Byte>, c: seq<Byte>)
    requires |a| == |b| == 8
    ensures Val(a + b + c) == Val(a) + TWO64 * (Val(b) + TWO64 * Val(c))
  {
    assert Pow256(8) == TWO64;
    hide Val, Pow256;
    assert a + b + c == a + (b + c);
    ValConcat(a, b + c);
    ValConcat(b, c);
  }

  /** The byte tables stand for the numbers they are meant to stand for. */
  lemma ParameterValues()
    ensures Val(SECP_P) == P && Val(SECP_COMPLEMENT_P) == C_P
    ensures Val(SECP_N) == N && Val(SECP_COMPLEMENT_N) == C_N
  {
    hide Val;
    PrimeValues();
    OrderValues();
  }

  lemma PrimeValues()
    ensures Val(SECP_P) == P && Val(SECP_COMPLEMENT_P) == C_P
  {
    hide Val;
    WordsP();
    FourWords(P0, FULL, FULL, FULL);
    ValFour(0xd1, 0x03, 0x00, 0x00);
    Fifth([0xd1, 0x03, 0x00, 0x00]);
    assert SECP_COMPLEMENT_P == [0xd1, 0x03, 0x00, 0x00] + [0x01];
  }

  lemma OrderValues()
    ensures Val(SECP_N) == N && Val(SECP_COMPLEMENT_N) == C_N
  {
    hide Val;
    WordsP();
    WordsN();
    WordsC();
    FourWords(N0, N1, N2, FULL);
    SingleByte(0x01);
    TwoWords(C0, C1, [0x01]);
  }

  lemma SingleByte(b: Byte)
    ensures Val([b]) == b
  {
    assert [b][1..] == [];
  }

  /** A fifth byte of 1 after four. */
  lemma Fifth(s: seq<Byte>)
    requires |s| == 4
    ensures Val(s + [0x01]) == Val(s) + 0x1_0000_0000
  {
    assert Pow256(4) == 0x1_0000_0000;
    hide Val, Pow256;
    ValConcat(s, [0x01]);
    SingleByte(0x01);
  }

  lemma BasePointOnCurve()
    ensures OnCurve(Affine(G_X, G_Y), P)
  {
  }

  /** With these parameters the byte-level field operations and the signer may be used, given that p and n are prime. */
  lemma SignerParameters()
    requires IsPrime(P) && IsPrime(N)
    ensures Signer.Modulus(SECP_P) && Signer.Modulus(SECP_N)
  {
    hide Val;
    ParameterValues();
  }
}
