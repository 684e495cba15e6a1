/** AES-128 as aes.c computes it: the fused rounds, their composition from the steps of FIPS 197, and their inverse. */
module Aes {
  type Block = s: seq<bv8> | |s| == 16 witness seq(16, _ => 0)

  const EXPANDED_KEY_SIZE: nat := 176

  // ----- GF(2^8) with the polynomial x^8 + x^4 + x^3 + x + 1 -----

  function Xor(a: bv8, b: bv8): bv8 {
    a ^ b
  }

  function Xor4(a: bv8, b: bv8, c: bv8, d: bv8): bv8 {
    Xor(Xor(Xor(a, b), c), d)
  }

  /** What the bit shifted out of x is replaced by. */
  function Overflow(x: bv8): bv8 {
    if x & 0x80 != 0 then 0x1b else 0
  }

  function Shifted(x: bv8): bv8 {
    x << 1
  }

  function Times2(x: bv8): bv8 {
    Xor(Overflow(x), Shifted(x))
  }

  function Times3(x: bv8): bv8 {
    Xor(Times2(x), x)
  }

  function Times4(x: bv8): bv8 {
    Times2(Times2(x))
  }

  function Times8(x: bv8): bv8 {
    Times2(Times4(x))
  }

  function Times9(x: bv8): bv8 {
    Xor(Times8(x), x)
  }

  function TimesB(x: bv8): bv8 {
    Xor(Times9(x), Times2(x))
  }

  function TimesD(x: bv8): bv8 {
    Xor(Times9(x), Times4(x))
  }

  function TimesE(x: bv8): bv8 {
    Xor(Xor(Times8(x), Times4(x)), Times2(x))
  }

  /** A row of MixColumns, and a row of its inverse. */
  function Mix(a: bv8, b: bv8, c: bv8, d: bv8): bv8 {
    Xor4(Times2(a), Times3(b), c, d)
  }

  function InvMix(a: bv8, b: bv8, c: bv8, d: bv8): bv8 {
    Xor4(TimesE(a), TimesB(b), TimesD(c), Times9(d))
  }

  lemma XorLaws(a: bv8, b: bv8, c: bv8)
    ensures Xor(a, b) == Xor(b, a)
    ensures Xor(Xor(a, b), c) == Xor(a, Xor(b, c))
  {
  }

  lemma Swap(a: bv8, b: bv8, c: bv8, d: bv8)
    ensures Xor(Xor(a, b), Xor(c, d)) == Xor(Xor(a, c), Xor(b, d))
  {
    hide Xor;
    XorLaws(a, b, Xor(c, d));
    XorLaws(b, c, d);
    XorLaws(c, b, d);
    XorLaws(a, c, Xor(b, d));
  }

  lemma ShiftedLinear(a: bv8, b: bv8)
    ensures Shifted(Xor(a, b)) == Xor(Shifted(a), Shifted(b))
  {
  }

  lemma OverflowLinear(a: bv8, b: bv8)
    ensures Overflow(Xor(a, b)) == Xor(Overflow(a), Overflow(b))
  {
  }

  lemma Times2Linear(a: bv8, b: bv8)
    ensures Times2(Xor(a, b)) == Xor(Times2(a), Times2(b))
  {
    hide Xor, Overflow, Shifted;
    OverflowLinear(a, b);
    ShiftedLinear(a, b);
    Swap(Overflow(a), Overflow(b), Shifted(a), Shifted(b));
  }

  /** Multiplication by each of the constants distributes over addition. */
  lemma Linear(a: bv8, b: bv8)
    ensures Times2(Xor(a, b)) == Xor(Times2(a), Times2(b))
    ensures Times3(Xor(a, b)) == Xor(Times3(a), Times3(b))
    ensures Times9(Xor(a, b)) == Xor(Times9(a), Times9(b))
    ensures TimesB(Xor(a, b)) == Xor(TimesB(a), TimesB(b))
    ensures TimesD(Xor(a, b)) == Xor(TimesD(a), TimesD(b))
    ensures TimesE(Xor(a, b)) == Xor(TimesE(a), TimesE(b))
  {
    hide Xor, Times2;
    Times2Linear(a, b);
    Times2Linear(Times2(a), Times2(b));
    Times2Linear(Times4(a), Times4(b));
    Swap(Times2(a), Times2(b), a, b);
    Swap(Times8(a), Times8(b), a, b);
    Swap(Times9(a), Times9(b), Times2(a), Times2(b));
    Swap(Times9(a), Times9(b), Times4(a), Times4(b));
    Swap(Times8(a), Times8(b), Times4(a), Times4(b));
    Swap(Xor(Times8(a), Times4(a)), Xor(Times8(b), Times4(b)), Times2(a), Times2(b));
  }

  lemma Linear4(a: bv8, b: bv8, c: bv8, d: bv8)
    ensures Times9(Xor4(a, b, c, d)) == Xor4(Times9(a), Times9(b), Times9(c), Times9(d))
    ensures TimesB(Xor4(a, b, c, d)) == Xor4(TimesB(a), TimesB(b), TimesB(c), TimesB(d))
    ensures TimesD(Xor4(a, b, c, d)) == Xor4(TimesD(a), TimesD(b), TimesD(c), TimesD(d))
    ensures TimesE(Xor4(a, b, c, d)) == Xor4(TimesE(a), TimesE(b), TimesE(c), TimesE(d))
  {
    hide Xor, Times2, Times9, TimesB, TimesD, TimesE;
    Linear(a, b);
    Linear(Xor(a, b), c);
    Linear(Xor(Xor(a, b), c), d);
  }

  lemma Swap4(a1: bv8, a2: bv8, a3: bv8, a4: bv8, b1: bv8, b2: bv8, b3: bv8, b4: bv8)
    ensures Xor(Xor4(a1, a2, a3, a4), Xor4(b1, b2, b3, b4)) == Xor4(Xor(a1, b1), Xor(a2, b2), Xor(a3, b3), Xor(a4, b4))
  {
    hide Xor;
    Swap(a1, a2, b1, b2);
    Swap(Xor(a1, a2), a3, Xor(b1, b2), b3);
    Swap(Xor(Xor(a1, a2), a3), a4, Xor(Xor(b1, b2), b3), b4);
  }

  /** Summing a 4 by 4 table by rows or by columns. */
  lemma Transpose(a1: bv8, a2: bv8, a3: bv8, a4: bv8, b1: bv8, b2: bv8, b3: bv8, b4: bv8,
                  c1: bv8, c2: bv8, c3: bv8, c4: bv8, d1: bv8, d2: bv8, d3: bv8, d4: bv8)
    ensures Xor4(Xor4(a1, a2, a3, a4), Xor4(b1, b2, b3, b4), Xor4(c1, c2, c3, c4), Xor4(d1, d2, d3, d4))
         == Xor4(Xor4(a1, b1, c1, d1), Xor4(a2, b2, c2, d2), Xor4(a3, b3, c3, d3), Xor4(a4, b4, c4, d4))
  {
    hide Xor;
    var e1, e2, e3, e4 := Xor(a1, b1), Xor(a2, b2), Xor(a3, b3), Xor(a4, b4);
    var f1, f2, f3, f4 := Xor(e1, c1), Xor(e2, c2), Xor(e3, c3), Xor(e4, c4);
    Swap4(a1, a2, a3, a4, b1, b2, b3, b4);
    Swap4(e1, e2, e3, e4, c1, c2, c3, c4);
    Swap4(f1, f2, f3, f4, d1, d2, d3, d4);
  }

  /** The products in terms of a, 2a, 4a, 8a and 16a: how often each occurs decides the sum. */
  lemma SumToOne(a: bv8, a2: bv8, a4: bv8, a8: bv8, a16: bv8)
    ensures Xor4(Xor(Xor(a16, a8), a4), Xor(Xor(a8, a), a2), Xor(Xor(a8, a), a4), Xor(Xor(a16, a2), Xor(a8, a))) == a
  {
  }

  lemma SumToZero1(a: bv8, a2: bv8, a4: bv8, a8: bv8, a16: bv8)
    ensures Xor4(Xor(Xor(Xor(a16, a8), a4), Xor(Xor(a8, a4), a2)), Xor(Xor(a16, a2), a4), Xor(Xor(a8, a), a4),
            Xor(a8, a)) == 0
  {
  }

  lemma SumToZero2(a: bv8, a2: bv8, a4: bv8, a8: bv8, a16: bv8)
    ensures Xor4(Xor(Xor(a8, a4), a2), Xor(Xor(Xor(a16, a2), a4), Xor(Xor(a8, a), a2)), Xor(Xor(a16, a2), a8),
            Xor(a8, a)) == 0
  {
  }

  lemma SumToZero3(a: bv8, a2: bv8, a4: bv8, a8: bv8, a16: bv8)
    ensures Xor4(Xor(Xor(a8, a4), a2), Xor(Xor(a8, a), a2), Xor(Xor(Xor(a16, a2), a8), Xor(Xor(a8, a), a4)),
            Xor(a16, a2)) == 0
  {
  }

  /** The first row of the inverse matrix times the columns of the matrix: 1, 0, 0, 0. */
  lemma Coefficients(a: bv8)
    ensures Xor4(TimesE(Times2(a)), TimesB(a), TimesD(a), Times9(Times3(a))) == a
    ensures Xor4(TimesE(Times3(a)), TimesB(Times2(a)), TimesD(a), Times9(a)) == 0
    ensures Xor4(TimesE(a), TimesB(Times3(a)), TimesD(Times2(a)), Times9(a)) == 0
    ensures Xor4(TimesE(a), TimesB(a), TimesD(Times3(a)), Times9(Times2(a))) == 0
  {
    hide Xor, Xor4, Times2;
    var a2, a4, a8 := Times2(a), Times4(a), Times8(a);
    var a16 := Times8(a2);
    assert Times4(a2) == a8;
    assert Times3(a) == Xor(a2, a);
    Linear(a2, a);
    SumToOne(a, a2, a4, a8, a16);
    SumToZero1(a, a2, a4, a8, a16);
    SumToZero2(a, a2, a4, a8, a16);
    SumToZero3(a, a2, a4, a8, a16);
  }

  lemma ZeroSum(a: bv8)
    ensures Xor4(a, 0, 0, 0) == a
  {
  }

  /** InvMixColumns undoes MixColumns, one output byte at a time. */
  lemma InvMixMix(a: bv8, b: bv8, c: bv8, d: bv8)
    ensures InvMix(Mix(a, b, c, d), Mix(b, c, d, a), Mix(c, d, a, b), Mix(d, a, b, c)) == a
  {
    hide Xor, Xor4, Times2, Times3, Times9, TimesB, TimesD, TimesE;
    Linear4(Times2(a), Times3(b), c, d);
    Linear4(Times2(b), Times3(c), d, a);
    Linear4(Times2(c), Times3(d), a, b);
    Linear4(Times2(d), Times3(a), b, c);
    Rotate(TimesB(Times2(b)), TimesB(Times3(c)), TimesB(d), TimesB(a));
    Rotate2(TimesD(Times2(c)), TimesD(Times3(d)), TimesD(a), TimesD(b));
    Rotate3(Times9(Times2(d)), Times9(Times3(a)), Times9(b), Times9(c));
    Transpose(TimesE(Times2(a)), TimesE(Times3(b)), TimesE(c), TimesE(d),
              TimesB(a), TimesB(Times2(b)), TimesB(Times3(c)), TimesB(d),
              TimesD(a), TimesD(b), TimesD(Times2(c)), TimesD(Times3(d)),
              Times9(Times3(a)), Times9(b), Times9(c), Times9(Times2(d)));
    Coefficients(a);
    Coefficients(b);
    Coefficients(c);
    Coefficients(d);
    ZeroSum(a);
  }

  lemma Rotate3(a: bv8, b: bv8, c: bv8, d: bv8)
    ensures Xor4(a, b, c, d) == Xor4(b, c, d, a)
  {
    hide Xor;
    XorLaws(a, b, c);
    XorLaws(a, Xor(b, c), d);
    XorLaws(a, Xor(Xor(b, c), d), 0);
  }

  lemma Rotate2(a: bv8, b: bv8, c: bv8, d: bv8)
    ensures Xor4(a, b, c, d) == Xor4(c, d, a, b)
  {
    hide Xor4;
    Rotate3(a, b, c, d);
    Rotate3(b, c, d, a);
  }

  lemma Rotate(a: bv8, b: bv8, c: bv8, d: bv8)
    ensures Xor4(a, b, c, d) == Xor4(d, a, b, c)
  {
    hide Xor4;
    Rotate3(d, a, b, c);
  }

  lemma InvSboxSbox(x: bv8)
    ensures InvSbox(Sbox(x)) == x
  {
  }

  // ----- the steps of a round (sections 5.1 and 5.3 of FIPS 197) -----

  /** Byte i is in row i % 4 of column i / 4. */
  function At(row: nat, column: nat): (i: nat)
    requires row < 4 && column < 4
    ensures i < 16
  {
    row + 4 * column
  }

  /** x modulo 4, for the few values it is taken of. */
  function Around(x: int): (r: nat)
    requires -4 <= x < 8
    ensures r < 4 && (r == x || r == x - 4 || r == x + 4)
  {
    if x < 0 then x + 4 else if x < 4 then x else x - 4
  }

  /** Where ShiftRows takes byte i from, and where its inverse does. */
  function Left(i: nat): (j: nat)
    requires i < 16
    ensures j < 16
  {
    At(i % 4, Around(i / 4 + i % 4))
  }

  function Right(i: nat): (j: nat)
    requires i < 16
    ensures j < 16
  {
    At(i % 4, Around(i / 4 - i % 4))
  }

  /** The byte k rows below byte i in its column, going round. */
  function Below(i: nat, k: nat): (j: nat)
    requires i < 16 && k < 4
    ensures j < 16
  {
    At(Around(i % 4 + k), i / 4)
  }

  function SubBytes(s: Block): (r: Block)
    ensures forall i :: 0 <= i < 16 ==> r[i] == Sbox(s[i])
  {
    seq(16, i requires 0 <= i < 16 => Sbox(s[i]))
  }

  function InvSubBytes(s: Block): (r: Block)
    ensures forall i :: 0 <= i < 16 ==> r[i] == InvSbox(s[i])
  {
    seq(16, i requires 0 <= i < 16 => InvSbox(s[i]))
  }

  function ShiftRows(s: Block): (r: Block)
    ensures forall i :: 0 <= i < 16 ==> r[i] == s[Left(i)]
  {
    seq(16, i requires 0 <= i < 16 => s[Left(i)])
  }

  function InvShiftRows(s: Block): (r: Block)
    ensures forall i :: 0 <= i < 16 ==> r[i] == s[Right(i)]
  {
    seq(16, i requires 0 <= i < 16 => s[Right(i)])
  }

  function MixAt(s: Block, i: nat): bv8
    requires i < 16
  {
    Mix(s[i], s[Below(i, 1)], s[Below(i, 2)], s[Below(i, 3)])
  }

  function InvMixAt(s: Block, i: nat): bv8
    requires i < 16
  {
    InvMix(s[i], s[Below(i, 1)], s[Below(i, 2)], s[Below(i, 3)])
  }

  function MixColumns(s: Block): (r: Block)
    ensures forall i :: 0 <= i < 16 ==> r[i] == MixAt(s, i)
  {
    seq(16, i requires 0 <= i < 16 => MixAt(s, i))
  }

  function InvMixColumns(s: Block): (r: Block)
    ensures forall i :: 0 <= i < 16 ==> r[i] == InvMixAt(s, i)
  {
    seq(16, i requires 0 <= i < 16 => InvMixAt(s, i))
  }

  function AddKey(s: Block, k: Block): (r: Block)
    ensures forall i :: 0 <= i < 16 ==> r[i] == Xor(s[i], k[i])
  {
    seq(16, i requires 0 <= i < 16 => Xor(s[i], k[i]))
  }

  lemma InvSubSub(s: Block)
    ensures InvSubBytes(SubBytes(s)) == s
  {
    hide Sbox, InvSbox;
    forall i | 0 <= i < 16
      ensures InvSubBytes(SubBytes(s))[i] == s[i]
    {
      InvSboxSbox(s[i]);
    }
  }

  lemma AtSplit(i: nat)
    requires i < 16
    ensures At(i % 4, i / 4) == i
  {
  }

  lemma RowColumn(row: nat, column: nat)
    requires row < 4 && column < 4
    ensures At(row, column) % 4 == row && At(row, column) / 4 == column
  {
  }

  lemma LeftRight(i: nat)
    requires i < 16
    ensures Left(Right(i)) == i && Right(Left(i)) == i
  {
    hide At;
    AtSplit(i);
    RowColumn(i % 4, Around(i / 4 + i % 4));
    RowColumn(i % 4, Around(i / 4 - i % 4));
  }

  lemma InvShiftShift(s: Block)
    ensures InvShiftRows(ShiftRows(s)) == s
  {
    hide Left, Right;
    forall i | 0 <= i < 16
      ensures InvShiftRows(ShiftRows(s))[i] == s[i]
    {
      LeftRight(i);
    }
  }

  lemma BelowBelow(i: nat)
    requires i < 16
    ensures Below(Below(i, 1), 1) == Below(i, 2) && Below(Below(i, 1), 2) == Below(i, 3) && Below(Below(i, 1), 3) == i
    ensures Below(Below(i, 2), 1) == Below(i, 3) && Below(Below(i, 2), 2) == i && Below(Below(i, 2), 3) == Below(i, 1)
    ensures Below(Below(i, 3), 1) == i && Below(Below(i, 3), 2) == Below(i, 1) && Below(Below(i, 3), 3) == Below(i, 2)
  {
    hide At;
    AtSplit(i);
    RowColumn(Around(i % 4 + 1), i / 4);
    RowColumn(Around(i % 4 + 2), i / 4);
    RowColumn(Around(i % 4 + 3), i / 4);
  }

  lemma InvMixMixColumns(s: Block)
    ensures InvMixColumns(MixColumns(s)) == s
  {
    hide Below, Mix, InvMix;
    forall i | 0 <= i < 16
      ensures InvMixColumns(MixColumns(s))[i] == s[i]
    {
      BelowBelow(i);
      InvMixMix(s[i], s[Below(i, 1)], s[Below(i, 2)], s[Below(i, 3)]);
    }
  }

  lemma XorTwice(a: bv8, b: bv8)
    ensures Xor(Xor(a, b), b) == a
  {
  }

  lemma AddKeyTwice(s: Block, k: Block)
    ensures AddKey(AddKey(s, k), k) == s
  {
    hide Xor;
    forall i | 0 <= i < 16
      ensures AddKey(AddKey(s, k), k)[i] == s[i]
    {
      XorTwice(s[i], k[i]);
    }
  }

  // ----- cipher and inverse cipher -----

  type ExpandedKey = k: seq<bv8> | |k| == EXPANDED_KEY_SIZE witness seq(176, _ => 0)

  function RoundKey(key: ExpandedKey, round: nat): Block
    requires round <= 10
  {
    key[16 * round..16 * round + 16]
  }

  /** SubBytes, ShiftRows and, except in the last round, MixColumns. */
  function Round(s: Block, last: bool): Block {
    var t := ShiftRows(SubBytes(s));
    if last then t else MixColumns(t)
  }

  function InvRound(s: Block, last: bool): Block {
    InvSubBytes(InvShiftRows(if last then s else InvMixColumns(s)))
  }

  lemma InvRoundRound(s: Block, last: bool)
    ensures InvRound(Round(s, last), last) == s
  {
    hide SubBytes, InvSubBytes, ShiftRows, InvShiftRows, MixColumns, InvMixColumns;
    InvSubSub(s);
    InvShiftShift(SubBytes(s));
    InvMixMixColumns(ShiftRows(SubBytes(s)));
  }

  /** The state after the given round of encryption. */
  function Encrypting(s: Block, key: ExpandedKey, round: nat): Block
    requires round <= 10
  {
    if round == 0 then AddKey(s, RoundKey(key, 0))
    else AddKey(Round(Encrypting(s, key, round - 1), round == 10), RoundKey(key, round))
  }

  /** The state after the given round of decryption, counting down: everything from that round on is undone. */
  function Decrypting(s: Block, key: ExpandedKey, round: nat): Block
    requires 1 <= round <= 10
    decreases 10 - round
  {
    if round == 10 then InvRound(AddKey(s, RoundKey(key, 10)), true)
    else InvRound(AddKey(Decrypting(s, key, round + 1), RoundKey(key, round)), false)
  }

  function Rounds(key: ExpandedKey): (n: nat)
    ensures n == 10
  {
    |key| / 16 - 1
  }

  function Encrypt(s: Block, key: ExpandedKey): Block {
    Encrypting(s, key, Rounds(key))
  }

  function Decrypt(s: Block, key: ExpandedKey): Block {
    AddKey(Decrypting(s, key, Rounds(key) - 9), RoundKey(key, 0))
  }

  lemma {:induction false} DecryptingEncrypting(s: Block, key: ExpandedKey, round: nat)
    requires 1 <= round <= 10
    ensures Decrypting(Encrypt(s, key), key, round) == Encrypting(s, key, round - 1)
    decreases 10 - round
  {
    hide AddKey, RoundKey, Round, InvRound;
    var before := Encrypting(s, key, round - 1);
    AddKeyTwice(Round(before, round == 10), RoundKey(key, round));
    InvRoundRound(before, round == 10);
    if round < 10 {
      DecryptingEncrypting(s, key, round + 1);
    }
  }

  /** The cipher of section 5.1 of FIPS 197: a key addition, nine whole rounds and one without MixColumns. */
  lemma CipherRounds(s: Block, key: ExpandedKey)
    ensures Encrypting(s, key, 0) == AddKey(s, key[..16])
    ensures forall n :: 1 <= n <= 9 ==>
              Encrypting(s, key, n)
              == AddKey(MixColumns(ShiftRows(SubBytes(Encrypting(s, key, n - 1)))), key[16 * n..16 * n + 16])
    ensures Encrypt(s, key) == AddKey(ShiftRows(SubBytes(Encrypting(s, key, 9))), key[160..176])
  {
    hide AddKey, MixColumns, ShiftRows, SubBytes;
    assert key[0..16] == key[..16];
  }

  /** Row r of the state moves r places to the left. */
  lemma ShiftRowsAt(s: Block, r: nat, c: nat)
    requires r < 4 && c < 4
    ensures ShiftRows(s)[r + 4 * c] == s[r + 4 * ((c + r) % 4)]
  {
    RowColumn(r, c);
    AroundIs(c + r);
    hide ShiftRows;
  }

  /** Each column is multiplied by 2, 3, 1, 1 and its rotations. */
  lemma MixColumnsAt(s: Block, r: nat, c: nat)
    requires r < 4 && c < 4
    ensures MixColumns(s)[r + 4 * c]
            == Xor4(Times2(s[r + 4 * c]), Times3(s[(r + 1) % 4 + 4 * c]), s[(r + 2) % 4 + 4 * c],
                    s[(r + 3) % 4 + 4 * c])
  {
    hide Times2, Times3, Xor4, MixColumns, Below;
    BelowIs(r, c, 1);
    BelowIs(r, c, 2);
    BelowIs(r, c, 3);
  }

  lemma BelowIs(r: nat, c: nat, k: nat)
    requires r < 4 && c < 4 && k < 4
    ensures Below(r + 4 * c, k) == (r + k) % 4 + 4 * c
  {
    RowColumn(r, c);
    AroundIs(r + k);
  }

  lemma AroundIs(x: nat)
    requires x < 8
    ensures Around(x) == x % 4
  {
  }

  /** Decryption undoes encryption, for every block and every expanded key. */
  lemma DecryptEncrypt(s: Block, key: ExpandedKey)
    ensures Decrypt(Encrypt(s, key), key) == s
  {
    hide AddKey, RoundKey, Round, InvRound, Decrypting;
    DecryptingEncrypting(s, key, 1);
    AddKeyTwice(s, RoundKey(key, 0));
  }

  // ----- in place -----

  /** What shiftOrInvShiftRows leaves at byte k. */
  function ShiftedAt(s: Block, shift: nat, k: nat): bv8
    requires k < 16
  {
    if shift == 5 then Sbox(s[Left(k)]) else InvSbox(s[Right(k)])
  }

  /** x & 15, for an offset that has just been advanced. */
  function Wrap(x: nat): (r: nat)
    requires x < 32
    ensures r < 16
  {
    if x < 16 then x else x - 16
  }

  /** The byte that goes to a row and column. */
  function Source(shift: nat, row: nat, column: nat): (j: nat)
    requires row < 4 && column < 4
    ensures j < 16
  {
    At(row, if shift == 5 then Around(column + row) else Around(column - row))
  }

  lemma SourceIs(shift: nat, row: nat, column: nat)
    requires row < 4 && column < 4
    ensures Source(shift, row, column) == if shift == 5 then Left(At(row, column)) else Right(At(row, column))
  {
    hide At;
    RowColumn(row, column);
  }

  lemma NextColumn(shift: nat, row: nat, column: nat)
    requires row < 4 && column < 4
    ensures Wrap(At(row, column) + 4) == At(row, Around(column + 1))
    ensures Wrap(Source(shift, row, column) + 4) == Source(shift, row, Around(column + 1))
  {
  }

  lemma NextRow(shift: nat, row: nat)
    requires (shift == 5 || shift == 13) && row < 3
    ensures Wrap(At(row, 0) + 1) == At(row + 1, 0)
    ensures Wrap(Source(shift, row, 0) + shift) == Source(shift, row + 1, 0)
  {
  }

  /** Substitutes bytes and shifts rows (5), or undoes both (13). */
  method ShiftOrInvShiftRows(state: array<bv8>, shift: nat)
    requires state.Length == 16 && (shift == 5 || shift == 13)
    modifies state
    ensures shift == 5 ==> state[..] == Round(old(state[..]), true)
    ensures shift == 13 ==> state[..] == InvRound(old(state[..]), true)
  {
    hide *;
    var tmp := new bv8[16];
    ghost var s: Block := state[..];
    NothingFilled(tmp[..], s, shift);
    var o1: nat, o2: nat := 0, 0;
    for i := 0 to 4
      invariant state[..] == s
      invariant o1 < 16 && o2 < 16 && (i < 4 ==> o1 == At(i, 0) && o2 == Source(shift, i, 0))
      invariant FilledUpTo(tmp[..], s, shift, i, 0)
    {
      for j := 0 to 4
        invariant state[..] == s
        invariant o1 == At(i, Around(j)) && o2 == Source(shift, i, Around(j))
        invariant FilledUpTo(tmp[..], s, shift, i, j)
      {
        NextColumn(shift, i, j);
        FillOne(tmp[..], s, shift, i, j);
        if shift == 5 {
          tmp[o1] := Sbox(state[o2]);
        } else {
          tmp[o1] := InvSbox(state[o2]);
        }
        o1 := Wrap(o1 + 4);
        o2 := Wrap(o2 + 4);
      }
      if i < 3 {
        NextRow(shift, i);
      }
      RowFilled(tmp[..], s, shift, i);
      o1 := Wrap(o1 + 1);
      o2 := Wrap(o2 + shift);
    }
    AllFilled(tmp[..], s, shift);
    Copy16(state, tmp);
  }

  /** memcpy of a block. */
  method Copy16(to: array<bv8>, from: array<bv8>)
    requires to.Length == 16 && from.Length == 16 && to != from
    modifies to
    ensures to[..] == from[..]
  {
    for i := 0 to 16
      invariant forall k :: 0 <= k < i ==> to[k] == from[k]
    {
      to[i] := from[i];
    }
  }

  /** Rows before `row`, and in that row the columns before `column`, have been filled in. */
  ghost predicate FilledUpTo(tmp: seq<bv8>, s: Block, shift: nat, row: nat, column: nat) {
    && |tmp| == 16
    && forall r: nat, c: nat :: r < 4 && c < 4 && (r < row || (r == row && c < column)) ==>
         tmp[At(r, c)] == ShiftedAt(s, shift, At(r, c))
  }

  lemma AtInjective(row: nat, column: nat)
    requires row < 4 && column < 4
    ensures forall r: nat, c: nat :: r < 4 && c < 4 && At(r, c) == At(row, column) ==> r == row && c == column
  {
  }

  lemma FillOne(tmp: seq<bv8>, s: Block, shift: nat, row: nat, column: nat)
    requires (shift == 5 || shift == 13) && row < 4 && column < 4 && FilledUpTo(tmp, s, shift, row, column)
    ensures Around(column) == column
    ensures var x := s[Source(shift, row, column)];
            FilledUpTo(tmp[At(row, column) := if shift == 5 then Sbox(x) else InvSbox(x)], s, shift, row, column + 1)
  {
    hide At, Left, Right, Sbox, InvSbox, Source;
    AtInjective(row, column);
    SourceIs(shift, row, column);
  }

  lemma NothingFilled(tmp: seq<bv8>, s: Block, shift: nat)
    requires |tmp| == 16
    ensures At(0, 0) == 0 && Source(shift, 0, 0) == 0
    ensures FilledUpTo(tmp, s, shift, 0, 0)
  {
    hide At, Source, ShiftedAt;
    Origin(shift, 0, 0);
  }

  lemma Origin(shift: nat, row: nat, column: nat)
    requires row == 0 && column == 0
    ensures At(row, column) == 0 && Source(shift, row, column) == 0
  {
    hide Around, At;
    Origin2(row, column);
    assert Around(column + row) == 0;
  }
  lemma Origin2(row: nat, column: nat)
    requires row == 0 && column == 0
    ensures At(row, column) == 0 && Around(row) == 0
  {
  }

  lemma RowFilled(tmp: seq<bv8>, s: Block, shift: nat, row: nat)
    requires FilledUpTo(tmp, s, shift, row, 4)
    ensures FilledUpTo(tmp, s, shift, row + 1, 0)
    ensures Around(4) == 0 && Around(0) == 0
  {
  }

  lemma AllFilled(tmp: seq<bv8>, s: Block, shift: nat)
    requires FilledUpTo(tmp, s, shift, 4, 0)
    ensures shift == 5 ==> tmp == Round(s, true)
    ensures shift != 5 ==> tmp == InvRound(s, true)
  {
    hide At, Left, Right, Sbox, InvSbox;
    forall k | 0 <= k < 16
      ensures tmp[k] == ShiftedAt(s, shift, k)
    {
      AtSplit(k);
    }
  }

  /** The four offsets that mixSubColumns rotates: a byte of the result needs the shifted bytes of its column. */
  ghost predicate MixOffsets(row: nat, column: nat, o1: nat, o2: nat, o3: nat, o4: nat) {
    && row < 4 && column < 4
    && o1 == At(row, Around(column + row))
    && o2 == At(Around(row + 1), Around(column + Around(row + 1)))
    && o3 == At(Around(row + 2), Around(column + Around(row + 2)))
    && o4 == At(Around(row + 3), Around(column + Around(row + 3)))
  }

  lemma MixOffsetsStep(row: nat, column: nat, o1: nat, o2: nat, o3: nat, o4: nat)
    requires MixOffsets(row, column, o1, o2, o3, o4)
    ensures row != 3 ==> MixOffsets(row + 1, column, o2, o3, o4, o1)
    ensures row == 3 && column < 3 ==>
              MixOffsets(0, column + 1, Wrap(o2 + 4), Wrap(o3 + 4), Wrap(o4 + 4), Wrap(o1 + 4))
  {
  }

  lemma MixOffsetsStart()
    ensures MixOffsets(0, 0, 0, 5, 10, 15)
  {
  }

  lemma MixOffsetsAre(i: nat, row: nat, column: nat, o1: nat, o2: nat, o3: nat, o4: nat)
    requires MixOffsets(row, column, o1, o2, o3, o4) && i == At(row, column)
    ensures i < 16 && o1 == Left(i) && o2 == Left(Below(i, 1)) && o3 == Left(Below(i, 2)) && o4 == Left(Below(i, 3))
  {
    hide At;
    RowColumn(row, column);
    RowColumn(Around(row + 1), column);
    RowColumn(Around(row + 2), column);
    RowColumn(Around(row + 3), column);
  }

  lemma NextByte(i: nat)
    requires i < 16
    ensures i % 4 != 3 ==> (i + 1) % 4 == i % 4 + 1 && (i + 1) / 4 == i / 4
    ensures i % 4 == 3 ==> (i + 1) % 4 == 0 && (i + 1) / 4 == i / 4 + 1
  {
  }

  /** SubBytes, ShiftRows and MixColumns in one pass. */
  method MixSubColumns(state: array<bv8>)
    requires state.Length == 16
    modifies state
    ensures state[..] == Round(old(state[..]), false)
  {
    hide Sbox, Left, Below, Mix, MixOffsets, Wrap, At;
    var tmp := new bv8[16];
    ghost var s: Block := state[..];
    var o1: nat, o2: nat, o3: nat, o4: nat := 0, 5, 10, 15;
    MixOffsetsStart();
    for i := 0 to 16
      invariant state[..] == s
      invariant o1 < 16 && o2 < 16 && o3 < 16 && o4 < 16 && (i < 16 ==> MixOffsets(i % 4, i / 4, o1, o2, o3, o4))
      invariant forall k :: 0 <= k < i ==> tmp[k] == MixColumns(ShiftRows(SubBytes(s)))[k]
    {
      AtSplit(i);
      MixOffsetsAre(i, i % 4, i / 4, o1, o2, o3, o4);
      MixOffsetsStep(i % 4, i / 4, o1, o2, o3, o4);
      NextByte(i);
      tmp[i] := Mix(Sbox(state[o1]), Sbox(state[o2]), Sbox(state[o3]), Sbox(state[o4]));
      o1, o2, o3, o4 := o2, o3, o4, o1;
      if i % 4 == 3 {
        o1, o2, o3, o4 := Wrap(o1 + 4), Wrap(o2 + 4), Wrap(o3 + 4), Wrap(o4 + 4);
      }
    }
    Copy16(state, tmp);
  }

  /** The offsets that invMixSubColumns rotates, and where the result of a byte goes. */
  ghost predicate InvMixOffsets(row: nat, column: nat, idx: nat, o1: nat, o2: nat, o3: nat, o4: nat) {
    && row < 4 && column < 4
    && idx == At(row, Around(column + row))
    && o1 == At(row, column) && o2 == At(Around(row + 1), column)
    && o3 == At(Around(row + 2), column) && o4 == At(Around(row + 3), column)
  }

  lemma InvMixOffsetsStep(row: nat, column: nat, idx: nat, o1: nat, o2: nat, o3: nat, o4: nat)
    requires InvMixOffsets(row, column, idx, o1, o2, o3, o4)
    ensures row != 3 ==> InvMixOffsets(row + 1, column, Wrap(idx + 5), o2, o3, o4, o1)
    ensures row == 3 && column < 3 ==>
              InvMixOffsets(0, column + 1, Wrap(idx + 5), Wrap(o2 + 4), Wrap(o3 + 4), Wrap(o4 + 4), Wrap(o1 + 4))
  {
  }

  lemma InvMixOffsetsStart()
    ensures InvMixOffsets(0, 0, 0, 0, 1, 2, 3)
  {
  }

  lemma InvMixOffsetsAre(i: nat, row: nat, column: nat, idx: nat, o1: nat, o2: nat, o3: nat, o4: nat)
    requires InvMixOffsets(row, column, idx, o1, o2, o3, o4) && i == At(row, column)
    ensures i < 16 && idx == Left(i) && o1 == i && o2 == Below(i, 1) && o3 == Below(i, 2) && o4 == Below(i, 3)
  {
    hide At;
    RowColumn(row, column);
  }

  /** The first i results are in place. */
  ghost predicate Unmixed(tmp: seq<bv8>, s: Block, i: nat) {
    |tmp| == 16 && i <= 16 && forall k :: 0 <= k < i ==> tmp[Left(k)] == InvMixAt(s, k)
  }

  lemma UnmixOne(tmp: seq<bv8>, s: Block, i: nat)
    requires i < 16 && Unmixed(tmp, s, i)
    ensures Unmixed(tmp[Left(i) := InvMixAt(s, i)], s, i + 1)
  {
    hide Left, InvMixAt;
    forall k | 0 <= k < i
      ensures Left(k) != Left(i)
    {
      LeftRight(k);
      LeftRight(i);
    }
  }

  lemma UnmixedAll(tmp: seq<bv8>, s: Block)
    requires Unmixed(tmp, s, 16)
    ensures tmp == InvShiftRows(InvMixColumns(s))
  {
    hide Left, Right, InvMixAt;
    forall j | 0 <= j < 16
      ensures tmp[j] == InvShiftRows(InvMixColumns(s))[j]
    {
      LeftRight(j);
      assert tmp[Left(Right(j))] == InvMixAt(s, Right(j));
    }
  }

  lemma NothingUnmixed(tmp: seq<bv8>, s: Block)
    requires |tmp| == 16
    ensures Unmixed(tmp, s, 0)
  {
  }

  /** Undoes MixColumns, ShiftRows and SubBytes in one pass and a substitution. */
  method InvMixSubColumns(state: array<bv8>)
    requires state.Length == 16
    modifies state
    ensures state[..] == InvRound(old(state[..]), false)
  {
    hide *;
    var tmp := new bv8[16];
    ghost var s: Block := state[..];
    var idx: nat, o1: nat, o2: nat, o3: nat, o4: nat := 0, 0, 1, 2, 3;
    InvMixOffsetsStart();
    NothingUnmixed(tmp[..], s);
    for i := 0 to 16
      invariant state[..] == s
      invariant idx < 16 && o1 < 16 && o2 < 16 && o3 < 16 && o4 < 16
      invariant i < 16 ==> InvMixOffsets(i % 4, i / 4, idx, o1, o2, o3, o4)
      invariant Unmixed(tmp[..], s, i)
    {
      AtSplit(i);
      InvMixOffsetsAre(i, i % 4, i / 4, idx, o1, o2, o3, o4);
      InvMixOffsetsStep(i % 4, i / 4, idx, o1, o2, o3, o4);
      NextByte(i);
      UnmixOne(tmp[..], s, i);
      InvMixAtIs(s, i);
      tmp[idx] := InvMix(state[o1], state[o2], state[o3], state[o4]);
      idx := Wrap(idx + 5);
      o1, o2, o3, o4 := o2, o3, o4, o1;
      if i % 4 == 3 {
        o1, o2, o3, o4 := Wrap(o1 + 4), Wrap(o2 + 4), Wrap(o3 + 4), Wrap(o4 + 4);
      }
    }
    UnmixedAll(tmp[..], s);
    SubstituteAll(state, tmp);
    InvRoundIs(s);
  }

  lemma InvMixAtIs(s: Block, i: nat)
    requires i < 16
    ensures InvMixAt(s, i) == InvMix(s[i], s[Below(i, 1)], s[Below(i, 2)], s[Below(i, 3)])
  {
  }

  lemma InvRoundIs(s: Block)
    ensures InvRound(s, false) == InvSubBytes(InvShiftRows(InvMixColumns(s)))
  {
  }

  method SubstituteAll(state: array<bv8>, tmp: array<bv8>)
    requires state.Length == 16 && tmp.Length == 16 && state != tmp
    modifies state
    ensures state[..] == InvSubBytes(tmp[..])
  {
    hide InvSbox;
    for i := 0 to 16
      invariant forall k :: 0 <= k < i ==> state[k] == InvSbox(tmp[k])
    {
      state[i] := InvSbox(tmp[i]);
    }
  }

  /** r = r XOR the 16 bytes of op1 at an offset. */
  method Xor16Bytes(r: array<bv8>, op1: array<bv8>, offset: nat)
    requires r.Length == 16 && offset + 16 <= op1.Length && r != op1
    modifies r
    ensures r[..] == AddKey(old(r[..]), op1[offset..offset + 16])
  {
    hide Xor;
    ghost var s: Block, k: Block := r[..], op1[offset..offset + 16];
    for i := 0 to 16
      invariant forall j :: 0 <= j < i ==> r[j] == Xor(s[j], k[j])
      invariant forall j :: i <= j < 16 ==> r[j] == s[j]
    {
      assert k[i] == op1[offset + i];
      r[i] := Xor(r[i], op1[offset + i]);
    }
  }

  method AesEncrypt(output: array<bv8>, input: array<bv8>, expandedKey: array<bv8>)
    requires output.Length == 16 && input.Length == 16 && expandedKey.Length == EXPANDED_KEY_SIZE
    requires output != input && output != expandedKey
    modifies output
    ensures output[..] == Encrypt(input[..], expandedKey[..])
  {
    hide AddKey, Round;
    Copy16(output, input);
    ghost var s: Block, key: ExpandedKey := input[..], expandedKey[..];
    Xor16Bytes(output, expandedKey, 0);
    assert RoundKey(key, 0) == expandedKey[0..16];
    for round := 1 to 11
      invariant output[..] == Encrypting(s, key, round - 1)
    {
      if round < 10 {
        MixSubColumns(output);
      } else {
        ShiftOrInvShiftRows(output, 5);
      }
      assert RoundKey(key, round) == expandedKey[16 * round..16 * round + 16];
      Xor16Bytes(output, expandedKey, round * 16);
    }
  }

  method AesDecrypt(output: array<bv8>, input: array<bv8>, expandedKey: array<bv8>)
    requires output.Length == 16 && input.Length == 16 && expandedKey.Length == EXPANDED_KEY_SIZE
    requires output != input && output != expandedKey
    modifies output
    ensures output[..] == Decrypt(input[..], expandedKey[..])
  {
    hide AddKey, InvRound;
    Copy16(output, input);
    ghost var s: Block, key: ExpandedKey := input[..], expandedKey[..];
    assert RoundKey(key, 10) == expandedKey[160..176];
    Xor16Bytes(output, expandedKey, 160);
    ShiftOrInvShiftRows(output, 13);
    for round := 10 downto 0
      invariant round > 0 ==> output[..] == Decrypting(s, key, round)
      invariant round == 0 ==> output[..] == Decrypt(s, key)
    {
      assert RoundKey(key, round) == expandedKey[16 * round..16 * round + 16];
      Xor16Bytes(output, expandedKey, round * 16);
      if round != 0 {
        InvMixSubColumns(output);
      }
    }
  }

  // ----- key expansion (section 5.2 of FIPS 197) -----

  const R_CON: seq<bv8> := [0x00, 0x01, 0x02, 0x04, 0x08, 0x10, 0x20, 0x40, 0x80, 0x1b, 0x36]

  type Word = w: seq<bv8> | |w| == 4 witness seq(4, _ => 0)

  function SubWord(w: Word): (r: Word)
    ensures forall j :: 0 <= j < 4 ==> r[j] == Sbox(w[j])
  {
    seq(4, j requires 0 <= j < 4 => Sbox(w[j]))
  }

  function RotWord(w: Word): Word {
    w[1..] + [w[0]]
  }

  function XorWord(a: Word, b: Word): (r: Word)
    ensures forall j :: 0 <= j < 4 ==> r[j] == Xor(a[j], b[j])
  {
    seq(4, j requires 0 <= j < 4 => Xor(a[j], b[j]))
  }

  /** The last word, transformed at the start of a round key. */
  function LastWord(e: seq<bv8>): Word
    requires 16 <= |e| < EXPANDED_KEY_SIZE
  {
    var w := e[|e| - 4..];
    if |e| % 16 == 0 then XorWord(SubWord(RotWord(w)), [RoundConstant(|e| / 16), 0, 0, 0]) else w
  }

  /** Each round constant is x times the one before in GF(2^8), from 1 on. */
  function RoundConstant(i: nat): bv8 {
    if i <= 1 then 1 else Times2(RoundConstant(i - 1))
  }

  /** The word after a run of whole words. */
  function NextWord(e: seq<bv8>): Word
    requires 16 <= |e| < EXPANDED_KEY_SIZE
  {
    XorWord(e[|e| - 16..|e| - 12], LastWord(e))
  }

  /** The key followed by n words of expansion. */
  function Expanding(key: Block, n: nat): (e: seq<bv8>)
    requires n <= 40
    ensures |e| == 16 + 4 * n
  {
    if n == 0 then key else Expanding(key, n - 1) + NextWord(Expanding(key, n - 1))
  }

  /** Ten more round keys. */
  function ExpandKey(key: Block): ExpandedKey {
    Expanding(key, 10 * |key| / 4)
  }

  /** The table holds the constants of the standard. */
  lemma {:induction false} RoundConstants(i: nat)
    requires 1 <= i <= 10
    ensures R_CON[i] == RoundConstant(i)
  {
    if i > 1 {
      RoundConstants(i - 1);
      if i <= 5 {
        assert i == 2 || i == 3 || i == 4 || i == 5;
      } else {
        assert i == 6 || i == 7 || i == 8 || i == 9 || i == 10;
      }
    }
  }

  lemma {:induction false} ExpandingPrefix(key: Block, n: nat, m: nat)
    requires n <= m <= 40
    ensures Expanding(key, m)[..16 + 4 * n] == Expanding(key, n)
  {
    hide NextWord;
    if n < m {
      ExpandingPrefix(key, n, m - 1);
      var e := Expanding(key, m - 1);
      assert Expanding(key, m)[..|e|] == e;
      assert Expanding(key, m)[..16 + 4 * n] == e[..16 + 4 * n];
    }
  }

  /** Word n of the expansion follows from the bytes before it. */
  lemma ExpandedWord(key: Block, n: nat)
    requires n < 40
    ensures var e, at := ExpandKey(key), 16 + 4 * n;
            e[..16] == key && |e[..at]| == at && e[at..at + 4] == NextWord(e[..at])
  {
    hide NextWord;
    ExpandingPrefix(key, 0, 40);
    ExpandingPrefix(key, n, 40);
    ExpandingPrefix(key, n + 1, 40);
    var e, at := ExpandKey(key), 16 + 4 * n;
    assert e[..at + 4] == e[..at] + NextWord(e[..at]);
    assert e[at..at + 4] == e[..at + 4][at..];
  }

  lemma PlainWord(e: seq<bv8>, k: nat)
    requires 16 <= |e| < EXPANDED_KEY_SIZE && |e| % 16 != 0 && k < 4
    ensures NextWord(e)[k] == Xor(e[|e| - 16 + k], e[|e| - 4 + k])
  {
    hide Xor, SubWord, RotWord;
    var w, v := e[|e| - 4..], e[|e| - 16..|e| - 12];
    assert w[k] == e[|e| - 4 + k] && v[k] == e[|e| - 16 + k];
  }

  lemma FirstWord(e: seq<bv8>, k: nat)
    requires 16 <= |e| < EXPANDED_KEY_SIZE && |e| % 16 == 0 && k < 4
    ensures var last := Sbox(e[|e| - 4 + (k + 1) % 4]);
            NextWord(e)[k] == Xor(e[|e| - 16 + k], if k == 0 then Xor(last, R_CON[|e| / 16]) else last)
  {
    hide Sbox, Xor, SubWord, RotWord, RoundConstant;
    var w, v := e[|e| - 4..], e[|e| - 16..|e| - 12];
    assert v[k] == e[|e| - 16 + k];
    RoundConstants(|e| / 16);
    hide R_CON;
    TransformedWord(w, R_CON[|e| / 16]);
    TransformedAt(w, R_CON[|e| / 16], k);
    assert w[(k + 1) % 4] == e[|e| - 4 + (k + 1) % 4];
  }

  lemma TransformedAt(w: Word, c: bv8, k: nat)
    requires k < 4
    ensures [Xor(Sbox(w[1]), c), Sbox(w[2]), Sbox(w[3]), Sbox(w[0])][k]
            == if k == 0 then Xor(Sbox(w[(k + 1) % 4]), c) else Sbox(w[(k + 1) % 4])
  {
    hide Sbox, Xor;
  }

  /**
   The key schedule byte by byte: the key itself, then each byte is the sum of the one sixteen back and the one four
   back, where the first word of a round key takes the latter through the S-box, rotated, with the round constant.
   */
  lemma ExpandedKeyBytes(key: Block, j: nat)
    requires j < 176
    ensures var e := ExpandKey(key);
            if j < 16 then e[j] == key[j]
            else if j % 16 >= 4 then e[j] == Xor(e[j - 16], e[j - 4])
            else if j % 16 == 3 then e[j] == Xor(e[j - 16], Sbox(e[j - 7]))
            else if j % 16 >= 1 then e[j] == Xor(e[j - 16], Sbox(e[j - 3]))
            else e[j] == Xor(e[j - 16], Xor(Sbox(e[j - 3]), R_CON[j / 16]))
  {
    hide Sbox, Xor, NextWord, Expanding, R_CON;
    var e := ExpandKey(key);
    if j < 16 {
      ExpandedWord(key, 0);
      assert e[j] == e[..16][j];
    } else {
      var n := (j - 16) / 4;
      var at := 16 + 4 * n;
      WordPlace(j, at);
      ExpandedWord(key, n);
      var k := j - at;
      assert e[j] == e[at..at + 4][k];
      var before := e[..at];
      assert before[at - 16 + k] == e[j - 16] && before[at - 4 + (k + 1) % 4] == e[at - 4 + (k + 1) % 4];
      if j % 16 >= 4 {
        PlainWord(before, k);
        assert before[at - 4 + k] == e[j - 4];
      } else {
        FirstWord(before, k);
      }
    }
  }

  lemma WordPlace(j: nat, at: nat)
    requires j >= 16 && at == 16 + 4 * ((j - 16) / 4)
    ensures at <= j < at + 4 && at % 4 == 0 && (j % 16 < 4 <==> at % 16 == 0)
    ensures at % 16 == 0 ==> j % 16 == j - at && at / 16 == j / 16
  {
  }

  method AesExpandKey(expandedKey: array<bv8>, key: array<bv8>, offset: nat)
    requires expandedKey.Length == EXPANDED_KEY_SIZE && offset + 16 <= key.Length && key != expandedKey
    modifies expandedKey
    ensures expandedKey[..] == ExpandKey(key[offset..offset + 16])
  {
    hide Sbox, Xor, NextWord;
    ghost var k: Block := key[offset..offset + 16];
    for i := 0 to 16
      invariant expandedKey[..i] == k[..i]
    {
      assert k[i] == key[offset + i];
      expandedKey[i] := key[offset + i];
    }
    assert k[..16] == k;
    var idx := 16;
    while idx < 176
      invariant 16 <= idx <= 176 && idx % 4 == 0
      invariant expandedKey[..idx] == Expanding(k, idx / 4 - 4)
      decreases 176 - idx
    {
      ExpandWord(expandedKey, idx);
      assert (idx + 4) / 4 - 4 == idx / 4 - 4 + 1;
      idx := idx + 4;
    }
    assert expandedKey[..176] == expandedKey[..];
  }

  lemma TransformedWord(w: Word, c: bv8)
    ensures XorWord(SubWord(RotWord(w)), [c, 0, 0, 0]) == [Xor(Sbox(w[1]), c), Sbox(w[2]), Sbox(w[3]), Sbox(w[0])]
  {
    hide Sbox, SubWord, RotWord, XorWord;
    var r, t := SubWord(RotWord(w)), XorWord(SubWord(RotWord(w)), [c, 0, 0, 0]);
    Rotated(w);
    assert t[0] == Xor(r[0], c) && t[1] == Xor(r[1], 0) && t[2] == Xor(r[2], 0) && t[3] == Xor(r[3], 0);
  }

  lemma Rotated(w: Word)
    ensures var r := RotWord(w); r[0] == w[1] && r[1] == w[2] && r[2] == w[3] && r[3] == w[0]
  {
  }

  method TransformWord(expandedKey: array<bv8>, idx: nat) returns (tmp0: bv8, tmp1: bv8, tmp2: bv8, tmp3: bv8)
    requires expandedKey.Length == EXPANDED_KEY_SIZE && 16 <= idx <= 172
    ensures [tmp0, tmp1, tmp2, tmp3] == LastWord(expandedKey[..idx])
  {
    hide Sbox, Xor, SubWord, RotWord, XorWord, RoundConstant;
    tmp0, tmp1, tmp2, tmp3 := expandedKey[idx - 4], expandedKey[idx - 3], expandedKey[idx - 2], expandedKey[idx - 1];
    ghost var w := [tmp0, tmp1, tmp2, tmp3];
    assert expandedKey[..idx][idx - 4..] == w;
    if idx % 16 == 0 {
      RoundConstants(idx / 16);
      TransformedWord(w, R_CON[idx / 16]);
      var tmp4 := tmp3;
      tmp3 := Sbox(tmp0);
      tmp0 := Xor(Sbox(tmp1), R_CON[idx / 16]);
      tmp1 := Sbox(tmp2);
      tmp2 := Sbox(tmp4);
    }
  }

  method ExpandWord(expandedKey: array<bv8>, idx: nat)
    requires expandedKey.Length == EXPANDED_KEY_SIZE && 16 <= idx <= 172
    modifies expandedKey
    ensures expandedKey[..idx + 4] == old(expandedKey[..idx]) + NextWord(old(expandedKey[..idx]))
  {
    hide Sbox, Xor, LastWord;
    ghost var e := expandedKey[..idx];
    var tmp0, tmp1, tmp2, tmp3 := TransformWord(expandedKey, idx);
    ghost var t, b := [tmp0, tmp1, tmp2, tmp3], e[idx - 16..idx - 12];
    assert t[0] == tmp0 && t[1] == tmp1 && t[2] == tmp2 && t[3] == tmp3;
    assert b[0] == expandedKey[idx - 16] && b[1] == expandedKey[idx - 15];
    assert b[2] == expandedKey[idx - 14] && b[3] == expandedKey[idx - 13];
    expandedKey[idx + 0] := Xor(expandedKey[idx - 16 + 0], tmp0);
    expandedKey[idx + 1] := Xor(expandedKey[idx - 16 + 1], tmp1);
    expandedKey[idx + 2] := Xor(expandedKey[idx - 16 + 2], tmp2);
    expandedKey[idx + 3] := Xor(expandedKey[idx - 16 + 3], tmp3);
    assert expandedKey[..idx] == e;
  }

  // ----- tables -----

  /** The forward S-box, as a decision tree on the bits of the index. */
  function Sbox(x: bv8): bv8 {
    if x & 0x80 == 0 then
      if x & 0x40 == 0 then
        if x & 0x20 == 0 then
          if x & 0x10 == 0 then
            if x & 0x08 == 0 then
              if x & 0x04 == 0 then
                if x & 2 == 0 then (if x & 1 == 0 then 0x63 else 0x7c) else (if x & 1 == 0 then 0x77 else 0x7b)
              else
                if x & 2 == 0 then (if x & 1 == 0 then 0xf2 else 0x6b) else (if x & 1 == 0 then 0x6f else 0xc5)
            else
              if x & 0x04 == 0 then
                if x & 2 == 0 then (if x & 1 == 0 then 0x30 else 0x01) else (if x & 1 == 0 then 0x67 else 0x2b)
              else
                if x & 2 == 0 then (if x & 1 == 0 then 0xfe else 0xd7) else (if x & 1 == 0 then 0xab else 0x76)
          else
            if x & 0x08 == 0 then
              if x & 0x04 == 0 then
                if x & 2 == 0 then (if x & 1 == 0 then 0xca else 0x82) else (if x & 1 == 0 then 0xc9 else 0x7d)
              else
                if x & 2 == 0 then (if x & 1 == 0 then 0xfa else 0x59) else (if x & 1 == 0 then 0x47 else 0xf0)
            else
              if x & 0x04 == 0 then
                if x & 2 == 0 then (if x & 1 == 0 then 0xad else 0xd4) else (if x & 1 == 0 then 0xa2 else 0xaf)
              else
                if x & 2 == 0 then (if x & 1 == 0 then 0x9c else 0xa4) else (if x & 1 == 0 then 0x72 else 0xc0)
        else
          if x & 0x10 == 0 then
            if x & 0x08 == 0 then
              if x & 0x04 == 0 then
                if x & 2 == 0 then (if x & 1 == 0 then 0xb7 else 0xfd) else (if x & 1 == 0 then 0x93 else 0x26)
              else
                if x & 2 == 0 then (if x & 1 == 0 then 0x36 else 0x3f) else (if x & 1 == 0 then 0xf7 else 0xcc)
            else
              if x & 0x04 == 0 then
                if x & 2 == 0 then (if x & 1 == 0 then 0x34 else 0xa5) else (if x & 1 == 0 then 0xe5 else 0xf1)
              else
                if x & 2 == 0 then (if x & 1 == 0 then 0x71 else 0xd8) else (if x & 1 == 0 then 0x31 else 0x15)
          else
            if x & 0x08 == 0 then
              if x & 0x04 == 0 then
                if x & 2 == 0 then (if x & 1 == 0 then 0x04 else 0xc7) else (if x & 1 == 0 then 0x23 else 0xc3)
              else
                if x & 2 == 0 then (if x & 1 == 0 then 0x18 else 0x96) else (if x & 1 == 0 then 0x05 else 0x9a)
            else
              if x & 0x04 == 0 then
                if x & 2 == 0 then (if x & 1 == 0 then 0x07 else 0x12) else (if x & 1 == 0 then 0x80 else 0xe2)
              else
                if x & 2 == 0 then (if x & 1 == 0 then 0xeb else 0x27) else (if x & 1 == 0 then 0xb2 else 0x75)
      else
        if x & 0x20 == 0 then
          if x & 0x10 == 0 then
            if x & 0x08 == 0 then
              if x & 0x04 == 0 then
                if x & 2 == 0 then (if x & 1 == 0 then 0x09 else 0x83) else (if x & 1 == 0 then 0x2c else 0x1a)
              else
                if x & 2 == 0 then (if x & 1 == 0 then 0x1b else 0x6e) else (if x & 1 == 0 then 0x5a else 0xa0)
            else
              if x & 0x04 == 0 then
                if x & 2 == 0 then (if x & 1 == 0 then 0x52 else 0x3b) else (if x & 1 == 0 then 0xd6 else 0xb3)
              else
                if x & 2 == 0 then (if x & 1 == 0 then 0x29 else 0xe3) else (if x & 1 == 0 then 0x2f else 0x84)
          else
            if x & 0x08 == 0 then
              if x & 0x04 == 0 then
                if x & 2 == 0 then (if x & 1 == 0 then 0x53 else 0xd1) else (if x & 1 == 0 then 0x00 else 0xed)
              else
                if x & 2 == 0 then (if x & 1 == 0 then 0x20 else 0xfc) else (if x & 1 == 0 then 0xb1 else 0x5b)
            else
              if x & 0x04 == 0 then
                if x & 2 == 0 then (if x & 1 == 0 then 0x6a else 0xcb) else (if x & 1 == 0 then 0xbe else 0x39)
              else
                if x & 2 == 0 then (if x & 1 == 0 then 0x4a else 0x4c) else (if x & 1 == 0 then 0x58 else 0xcf)
        else
          if x & 0x10 == 0 then
            if x & 0x08 == 0 then
              if x & 0x04 == 0 then
                if x & 2 == 0 then (if x & 1 == 0 then 0xd0 else 0xef) else (if x & 1 == 0 then 0xaa else 0xfb)
              else
                if x & 2 == 0 then (if x & 1 == 0 then 0x43 else 0x4d) else (if x & 1 == 0 then 0x33 else 0x85)
            else
              if x & 0x04 == 0 then
                if x & 2 == 0 then (if x & 1 == 0 then 0x45 else 0xf9) else (if x & 1 == 0 then 0x02 else 0x7f)
              else
                if x & 2 == 0 then (if x & 1 == 0 then 0x50 else 0x3c) else (if x & 1 == 0 then 0x9f else 0xa8)
          else
            if x & 0x08 == 0 then
              if x & 0x04 == 0 then
                if x & 2 == 0 then (if x & 1 == 0 then 0x51 else 0xa3) else (if x & 1 == 0 then 0x40 else 0x8f)
              else
                if x & 2 == 0 then (if x & 1 == 0 then 0x92 else 0x9d) else (if x & 1 == 0 then 0x38 else 0xf5)
            else
              if x & 0x04 == 0 then
                if x & 2 == 0 then (if x & 1 == 0 then 0xbc else 0xb6) else (if x & 1 == 0 then 0xda else 0x21)
              else
                if x & 2 == 0 then (if x & 1 == 0 then 0x10 else 0xff) else (if x & 1 == 0 then 0xf3 else 0xd2)
    else
      if x & 0x40 == 0 then
        if x & 0x20 == 0 then
          if x & 0x10 == 0 then
            if x & 0x08 == 0 then
              if x & 0x04 == 0 then
                if x & 2 == 0 then (if x & 1 == 0 then 0xcd else 0x0c) else (if x & 1 == 0 then 0x13 else 0xec)
              else
                if x & 2 == 0 then (if x & 1 == 0 then 0x5f else 0x97) else (if x & 1 == 0 then 0x44 else 0x17)
            else
              if x & 0x04 == 0 then
                if x & 2 == 0 then (if x & 1 == 0 then 0xc4 else 0xa7) else (if x & 1 == 0 then 0x7e else 0x3d)
              else
                if x & 2 == 0 then (if x & 1 == 0 then 0x64 else 0x5d) else (if x & 1 == 0 then 0x19 else 0x73)
          else
            if x & 0x08 == 0 then
              if x & 0x04 == 0 then
                if x & 2 == 0 then (if x & 1 == 0 then 0x60 else 0x81) else (if x & 1 == 0 then 0x4f else 0xdc)
              else
                if x & 2 == 0 then (if x & 1 == 0 then 0x22 else 0x2a) else (if x & 1 == 0 then 0x90 else 0x88)
            else
              if x & 0x04 == 0 then
                if x & 2 == 0 then (if x & 1 == 0 then 0x46 else 0xee) else (if x & 1 == 0 then 0xb8 else 0x14)
              else
                if x & 2 == 0 then (if x & 1 == 0 then 0xde else 0x5e) else (if x & 1 == 0 then 0x0b else 0xdb)
        else
          if x & 0x10 == 0 then
            if x & 0x08 == 0 then
              if x & 0x04 == 0 then
                if x & 2 == 0 then (if x & 1 == 0 then 0xe0 else 0x32) else (if x & 1 == 0 then 0x3a else 0x0a)
              else
                if x & 2 == 0 then (if x & 1 == 0 then 0x49 else 0x06) else (if x & 1 == 0 then 0x24 else 0x5c)
            else
              if x & 0x04 == 0 then
                if x & 2 == 0 then (if x & 1 == 0 then 0xc2 else 0xd3) else (if x & 1 == 0 then 0xac else 0x62)
              else
                if x & 2 == 0 then (if x & 1 == 0 then 0x91 else 0x95) else (if x & 1 == 0 then 0xe4 else 0x79)
          else
            if x & 0x08 == 0 then
              if x & 0x04 == 0 then
                if x & 2 == 0 then (if x & 1 == 0 then 0xe7 else 0xc8) else (if x & 1 == 0 then 0x37 else 0x6d)
              else
                if x & 2 == 0 then (if x & 1 == 0 then 0x8d else 0xd5) else (if x & 1 == 0 then 0x4e else 0xa9)
            else
              if x & 0x04 == 0 then
                if x & 2 == 0 then (if x & 1 == 0 then 0x6c else 0x56) else (if x & 1 == 0 then 0xf4 else 0xea)
              else
                if x & 2 == 0 then (if x & 1 == 0 then 0x65 else 0x7a) else (if x & 1 == 0 then 0xae else 0x08)
      else
        if x & 0x20 == 0 then
          if x & 0x10 == 0 then
            if x & 0x08 == 0 then
              if x & 0x04 == 0 then
                if x & 2 == 0 then (if x & 1 == 0 then 0xba else 0x78) else (if x & 1 == 0 then 0x25 else 0x2e)
              else
                if x & 2 == 0 then (if x & 1 == 0 then 0x1c else 0xa6) else (if x & 1 == 0 then 0xb4 else 0xc6)
            else
              if x & 0x04 == 0 then
                if x & 2 == 0 then (if x & 1 == 0 then 0xe8 else 0xdd) else (if x & 1 == 0 then 0x74 else 0x1f)
              else
                if x & 2 == 0 then (if x & 1 == 0 then 0x4b else 0xbd) else (if x & 1 == 0 then 0x8b else 0x8a)
          else
            if x & 0x08 == 0 then
              if x & 0x04 == 0 then
                if x & 2 == 0 then (if x & 1 == 0 then 0x70 else 0x3e) else (if x & 1 == 0 then 0xb5 else 0x66)
              else
                if x & 2 == 0 then (if x & 1 == 0 then 0x48 else 0x03) else (if x & 1 == 0 then 0xf6 else 0x0e)
            else
              if x & 0x04 == 0 then
                if x & 2 == 0 then (if x & 1 == 0 then 0x61 else 0x35) else (if x & 1 == 0 then 0x57 else 0xb9)
              else
                if x & 2 == 0 then (if x & 1 == 0 then 0x86 else 0xc1) else (if x & 1 == 0 then 0x1d else 0x9e)
        else
          if x & 0x10 == 0 then
            if x & 0x08 == 0 then
              if x & 0x04 == 0 then
                if x & 2 == 0 then (if x & 1 == 0 then 0xe1 else 0xf8) else (if x & 1 == 0 then 0x98 else 0x11)
              else
                if x & 2 == 0 then (if x & 1 == 0 then 0x69 else 0xd9) else (if x & 1 == 0 then 0x8e else 0x94)
            else
              if x & 0x04 == 0 then
                if x & 2 == 0 then (if x & 1 == 0 then 0x9b else 0x1e) else (if x & 1 == 0 then 0x87 else 0xe9)
              else
                if x & 2 == 0 then (if x & 1 == 0 then 0xce else 0x55) else (if x & 1 == 0 then 0x28 else 0xdf)
          else
            if x & 0x08 == 0 then
              if x & 0x04 == 0 then
                if x & 2 == 0 then (if x & 1 == 0 then 0x8c else 0xa1) else (if x & 1 == 0 then 0x89 else 0x0d)
              else
                if x & 2 == 0 then (if x & 1 == 0 then 0xbf else 0xe6) else (if x & 1 == 0 then 0x42 else 0x68)
            else
              if x & 0x04 == 0 then
                if x & 2 == 0 then (if x & 1 == 0 then 0x41 else 0x99) else (if x & 1 == 0 then 0x2d else 0x0f)
              else
                if x & 2 == 0 then (if x & 1 == 0 then 0xb0 else 0x54) else (if x & 1 == 0 then 0xbb else 0x16)
  }

  /** The inverse S-box. */
  function InvSbox(x: bv8): bv8 {
    if x & 0x80 == 0 then
      if x & 0x40 == 0 then
        if x & 0x20 == 0 then
          if x & 0x10 == 0 then
            if x & 0x08 == 0 then
              if x & 0x04 == 0 then
                if x & 2 == 0 then (if x & 1 == 0 then 0x52 else 0x09) else (if x & 1 == 0 then 0x6a else 0xd5)
              else
                if x & 2 == 0 then (if x & 1 == 0 then 0x30 else 0x36) else (if x & 1 == 0 then 0xa5 else 0x38)
            else
              if x & 0x04 == 0 then
                if x & 2 == 0 then (if x & 1 == 0 then 0xbf else 0x40) else (if x & 1 == 0 then 0xa3 else 0x9e)
              else
                if x & 2 == 0 then (if x & 1 == 0 then 0x81 else 0xf3) else (if x & 1 == 0 then 0xd7 else 0xfb)
          else
            if x & 0x08 == 0 then
              if x & 0x04 == 0 then
                if x & 2 == 0 then (if x & 1 == 0 then 0x7c else 0xe3) else (if x & 1 == 0 then 0x39 else 0x82)
              else
                if x & 2 == 0 then (if x & 1 == 0 then 0x9b else 0x2f) else (if x & 1 == 0 then 0xff else 0x87)
            else
              if x & 0x04 == 0 then
                if x & 2 == 0 then (if x & 1 == 0 then 0x34 else 0x8e) else (if x & 1 == 0 then 0x43 else 0x44)
              else
                if x & 2 == 0 then (if x & 1 == 0 then 0xc4 else 0xde) else (if x & 1 == 0 then 0xe9 else 0xcb)
        else
          if x & 0x10 == 0 then
            if x & 0x08 == 0 then
              if x & 0x04 == 0 then
                if x & 2 == 0 then (if x & 1 == 0 then 0x54 else 0x7b) else (if x & 1 == 0 then 0x94 else 0x32)
              else
                if x & 2 == 0 then (if x & 1 == 0 then 0xa6 else 0xc2) else (if x & 1 == 0 then 0x23 else 0x3d)
            else
              if x & 0x04 == 0 then
                if x & 2 == 0 then (if x & 1 == 0 then 0xee else 0x4c) else (if x & 1 == 0 then 0x95 else 0x0b)
              else
                if x & 2 == 0 then (if x & 1 == 0 then 0x42 else 0xfa) else (if x & 1 == 0 then 0xc3 else 0x4e)
          else
            if x & 0x08 == 0 then
              if x & 0x04 == 0 then
                if x & 2 == 0 then (if x & 1 == 0 then 0x08 else 0x2e) else (if x & 1 == 0 then 0xa1 else 0x66)
              else
                if x & 2 == 0 then (if x & 1 == 0 then 0x28 else 0xd9) else (if x & 1 == 0 then 0x24 else 0xb2)
            else
              if x & 0x04 == 0 then
                if x & 2 == 0 then (if x & 1 == 0 then 0x76 else 0x5b) else (if x & 1 == 0 then 0xa2 else 0x49)
              else
                if x & 2 == 0 then (if x & 1 == 0 then 0x6d else 0x8b) else (if x & 1 == 0 then 0xd1 else 0x25)
      else
        if x & 0x20 == 0 then
          if x & 0x10 == 0 then
            if x & 0x08 == 0 then
              if x & 0x04 == 0 then
                if x & 2 == 0 then (if x & 1 == 0 then 0x72 else 0xf8) else (if x & 1 == 0 then 0xf6 else 0x64)
              else
                if x & 2 == 0 then (if x & 1 == 0 then 0x86 else 0x68) else (if x & 1 == 0 then 0x98 else 0x16)
            else
              if x & 0x04 == 0 then
                if x & 2 == 0 then (if x & 1 == 0 then 0xd4 else 0xa4) else (if x & 1 == 0 then 0x5c else 0xcc)
              else
                if x & 2 == 0 then (if x & 1 == 0 then 0x5d else 0x65) else (if x & 1 == 0 then 0xb6 else 0x92)
          else
            if x & 0x08 == 0 then
              if x & 0x04 == 0 then
                if x & 2 == 0 then (if x & 1 == 0 then 0x6c else 0x70) else (if x & 1 == 0 then 0x48 else 0x50)
              else
                if x & 2 == 0 then (if x & 1 == 0 then 0xfd else 0xed) else (if x & 1 == 0 then 0xb9 else 0xda)
            else
              if x & 0x04 == 0 then
                if x & 2 == 0 then (if x & 1 == 0 then 0x5e else 0x15) else (if x & 1 == 0 then 0x46 else 0x57)
              else
                if x & 2 == 0 then (if x & 1 == 0 then 0xa7 else 0x8d) else (if x & 1 == 0 then 0x9d else 0x84)
        else
          if x & 0x10 == 0 then
            if x & 0x08 == 0 then
              if x & 0x04 == 0 then
                if x & 2 == 0 then (if x & 1 == 0 then 0x90 else 0xd8) else (if x & 1 == 0 then 0xab else 0x00)
              else
                if x & 2 == 0 then (if x & 1 == 0 then 0x8c else 0xbc) else (if x & 1 == 0 then 0xd3 else 0x0a)
            else
              if x & 0x04 == 0 then
                if x & 2 == 0 then (if x & 1 == 0 then 0xf7 else 0xe4) else (if x & 1 == 0 then 0x58 else 0x05)
              else
                if x & 2 == 0 then (if x & 1 == 0 then 0xb8 else 0xb3) else (if x & 1 == 0 then 0x45 else 0x06)
          else
            if x & 0x08 == 0 then
              if x & 0x04 == 0 then
                if x & 2 == 0 then (if x & 1 == 0 then 0xd0 else 0x2c) else (if x & 1 == 0 then 0x1e else 0x8f)
              else
                if x & 2 == 0 then (if x & 1 == 0 then 0xca else 0x3f) else (if x & 1 == 0 then 0x0f else 0x02)
            else
              if x & 0x04 == 0 then
                if x & 2 == 0 then (if x & 1 == 0 then 0xc1 else 0xaf) else (if x & 1 == 0 then 0xbd else 0x03)
              else
                if x & 2 == 0 then (if x & 1 == 0 then 0x01 else 0x13) else (if x & 1 == 0 then 0x8a else 0x6b)
    else
      if x & 0x40 == 0 then
        if x & 0x20 == 0 then
          if x & 0x10 == 0 then
            if x & 0x08 == 0 then
              if x & 0x04 == 0 then
                if x & 2 == 0 then (if x & 1 == 0 then 0x3a else 0x91) else (if x & 1 == 0 then 0x11 else 0x41)
              else
                if x & 2 == 0 then (if x & 1 == 0 then 0x4f else 0x67) else (if x & 1 == 0 then 0xdc else 0xea)
            else
              if x & 0x04 == 0 then
                if x & 2 == 0 then (if x & 1 == 0 then 0x97 else 0xf2) else (if x & 1 == 0 then 0xcf else 0xce)
              else
                if x & 2 == 0 then (if x & 1 == 0 then 0xf0 else 0xb4) else (if x & 1 == 0 then 0xe6 else 0x73)
          else
            if x & 0x08 == 0 then
              if x & 0x04 == 0 then
                if x & 2 == 0 then (if x & 1 == 0 then 0x96 else 0xac) else (if x & 1 == 0 then 0x74 else 0x22)
              else
                if x & 2 == 0 then (if x & 1 == 0 then 0xe7 else 0xad) else (if x & 1 == 0 then 0x35 else 0x85)
            else
              if x & 0x04 == 0 then
                if x & 2 == 0 then (if x & 1 == 0 then 0xe2 else 0xf9) else (if x & 1 == 0 then 0x37 else 0xe8)
              else
                if x & 2 == 0 then (if x & 1 == 0 then 0x1c else 0x75) else (if x & 1 == 0 then 0xdf else 0x6e)
        else
          if x & 0x10 == 0 then
            if x & 0x08 == 0 then
              if x & 0x04 == 0 then
                if x & 2 == 0 then (if x & 1 == 0 then 0x47 else 0xf1) else (if x & 1 == 0 then 0x1a else 0x71)
              else
                if x & 2 == 0 then (if x & 1 == 0 then 0x1d else 0x29) else (if x & 1 == 0 then 0xc5 else 0x89)
            else
              if x & 0x04 == 0 then
                if x & 2 == 0 then (if x & 1 == 0 then 0x6f else 0xb7) else (if x & 1 == 0 then 0x62 else 0x0e)
              else
                if x & 2 == 0 then (if x & 1 == 0 then 0xaa else 0x18) else (if x & 1 == 0 then 0xbe else 0x1b)
          else
            if x & 0x08 == 0 then
              if x & 0x04 == 0 then
                if x & 2 == 0 then (if x & 1 == 0 then 0xfc else 0x56) else (if x & 1 == 0 then 0x3e else 0x4b)
              else
                if x & 2 == 0 then (if x & 1 == 0 then 0xc6 else 0xd2) else (if x & 1 == 0 then 0x79 else 0x20)
            else
              if x & 0x04 == 0 then
                if x & 2 == 0 then (if x & 1 == 0 then 0x9a else 0xdb) else (if x & 1 == 0 then 0xc0 else 0xfe)
              else
                if x & 2 == 0 then (if x & 1 == 0 then 0x78 else 0xcd) else (if x & 1 == 0 then 0x5a else 0xf4)
      else
        if x & 0x20 == 0 then
          if x & 0x10 == 0 then
            if x & 0x08 == 0 then
              if x & 0x04 == 0 then
                if x & 2 == 0 then (if x & 1 == 0 then 0x1f else 0xdd) else (if x & 1 == 0 then 0xa8 else 0x33)
              else
                if x & 2 == 0 then (if x & 1 == 0 then 0x88 else 0x07) else (if x & 1 == 0 then 0xc7 else 0x31)
            else
              if x & 0x04 == 0 then
                if x & 2 == 0 then (if x & 1 == 0 then 0xb1 else 0x12) else (if x & 1 == 0 then 0x10 else 0x59)
              else
                if x & 2 == 0 then (if x & 1 == 0 then 0x27 else 0x80) else (if x & 1 == 0 then 0xec else 0x5f)
          else
            if x & 0x08 == 0 then
              if x & 0x04 == 0 then
                if x & 2 == 0 then (if x & 1 == 0 then 0x60 else 0x51) else (if x & 1 == 0 then 0x7f else 0xa9)
              else
                if x & 2 == 0 then (if x & 1 == 0 then 0x19 else 0xb5) else (if x & 1 == 0 then 0x4a else 0x0d)
            else
              if x & 0x04 == 0 then
                if x & 2 == 0 then (if x & 1 == 0 then 0x2d else 0xe5) else (if x & 1 == 0 then 0x7a else 0x9f)
              else
                if x & 2 == 0 then (if x & 1 == 0 then 0x93 else 0xc9) else (if x & 1 == 0 then 0x9c else 0xef)
        else
          if x & 0x10 == 0 then
            if x & 0x08 == 0 then
              if x & 0x04 == 0 then
                if x & 2 == 0 then (if x & 1 == 0 then 0xa0 else 0xe0) else (if x & 1 == 0 then 0x3b else 0x4d)
              else
                if x & 2 == 0 then (if x & 1 == 0 then 0xae else 0x2a) else (if x & 1 == 0 then 0xf5 else 0xb0)
            else
              if x & 0x04 == 0 then
                if x & 2 == 0 then (if x & 1 == 0 then 0xc8 else 0xeb) else (if x & 1 == 0 then 0xbb else 0x3c)
              else
                if x & 2 == 0 then (if x & 1 == 0 then 0x83 else 0x53) else (if x & 1 == 0 then 0x99 else 0x61)
          else
            if x & 0x08 == 0 then
              if x & 0x04 == 0 then
                if x & 2 == 0 then (if x & 1 == 0 then 0x17 else 0x2b) else (if x & 1 == 0 then 0x04 else 0x7e)
              else
                if x & 2 == 0 then (if x & 1 == 0 then 0xba else 0x77) else (if x & 1 == 0 then 0xd6 else 0x26)
            else
              if x & 0x04 == 0 then
                if x & 2 == 0 then (if x & 1 == 0 then 0xe1 else 0x69) else (if x & 1 == 0 then 0x14 else 0x63)
              else
                if x & 2 == 0 then (if x & 1 == 0 then 0x55 else 0x21) else (if x & 1 == 0 then 0x0c else 0x7d)
  }
}
