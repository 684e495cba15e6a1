/** Where the S-box of AES comes from: section 5.1.1 of FIPS 197. */
module AesTable {
  import opened Aes

  /** Multiplication by x modulo x^8 + x^4 + x^3 + x + 1, and a added if the bit is in b. */
  function Horner(sum: bv8, a: bv8, b: bv8, bit: bv8): bv8 {
    (sum << 1) ^ (if sum & 0x80 != 0 then 0x1b else 0) ^ (if b & bit != 0 then a else 0)
  }

  /** The product of two polynomials over GF(2), by the coefficients of b from the highest down. */
  function GfTimes(a: bv8, b: bv8): bv8 {
    var upper := Horner(Horner(Horner(Horner(0, a, b, 0x80), a, b, 0x40), a, b, 0x20), a, b, 0x10);
    Horner(Horner(Horner(Horner(upper, a, b, 0x08), a, b, 0x04), a, b, 0x02), a, b, 0x01)
  }

  /** The multiplications of aes.c are products with the constants that they are named after. */
  lemma ConstantProducts(x: bv8)
    ensures Times2(x) == GfTimes(x, 0x02) && Times3(x) == GfTimes(x, 0x03)
    ensures Times9(x) == GfTimes(x, 0x09) && TimesB(x) == GfTimes(x, 0x0b)
    ensures TimesD(x) == GfTimes(x, 0x0d) && TimesE(x) == GfTimes(x, 0x0e)
  {
    SmallProducts(x);
    OddProducts(x);
    LargeProducts(x);
    hide GfTimes, Times2, Times3, Times9, TimesB, TimesD, TimesE;
  }

  lemma SmallProducts(x: bv8)
    ensures Times2(x) == GfTimes(x, 0x02) && Times3(x) == GfTimes(x, 0x03)
  {
  }

  lemma OddProducts(x: bv8)
    ensures Times9(x) == GfTimes(x, 0x09) && TimesB(x) == GfTimes(x, 0x0b)
  {
  }

  lemma LargeProducts(x: bv8)
    ensures TimesD(x) == GfTimes(x, 0x0d) && TimesE(x) == GfTimes(x, 0x0e)
  {
  }

  /** The affine transformation: each bit is the sum of five bits of x and a bit of 0x63. */
  function AffineMap(x: bv8): bv8 {
    x ^ x.RotateLeft(1) ^ x.RotateLeft(2) ^ x.RotateLeft(3) ^ x.RotateLeft(4) ^ 0x63
  }

  /** i is the inverse of x, or both are zero, and the S-box gives its affine image. */
  predicate Entry(x: bv8, i: bv8) {
    ((x == 0 && i == 0) || GfTimes(x, i) == 1) && Sbox(x) == AffineMap(i)
  }

  ghost predicate HasEntry(x: bv8) {
    exists i :: Entry(x, i)
  }

  /** The S-box is the affine image of the inverse in GF(2^8), for all of its entries. */
  lemma SboxIsAffineInverse(x: bv8) returns (inverse: bv8)
    ensures if x == 0 then inverse == 0 else GfTimes(x, inverse) == 1
    ensures Sbox(x) == AffineMap(inverse)
  {
    EveryEntry(x);
    hide GfTimes, Sbox, AffineMap;
    inverse :| Entry(x, inverse);
    NoInverseOfZero(inverse);
  }

  lemma NoInverseOfZero(i: bv8)
    ensures GfTimes(0, i) == 0
  {
  }

  lemma EveryEntry(x: bv8)
    ensures HasEntry(x)
  {
    hide HasEntry;
    if x & 0x80 == 0 {
      LowHalf(x);
    } else {
      HighHalf(x);
    }
  }

  lemma LowHalf(x: bv8)
    requires x & 0x80 == 0
    ensures HasEntry(x)
  {
    hide HasEntry;
    if x & 0xf0 == 0x00 {
      Row0();
      LowNibble(x, 0x00);
    } else if x & 0xf0 == 0x10 {
      Row1();
      LowNibble(x, 0x10);
    } else if x & 0xf0 == 0x20 {
      Row2();
      LowNibble(x, 0x20);
    } else if x & 0xf0 == 0x30 {
      Row3();
      LowNibble(x, 0x30);
    } else if x & 0xf0 == 0x40 {
      Row4();
      LowNibble(x, 0x40);
    } else if x & 0xf0 == 0x50 {
      Row5();
      LowNibble(x, 0x50);
    } else if x & 0xf0 == 0x60 {
      Row6();
      LowNibble(x, 0x60);
    } else {
      Row7();
      LowNibble(x, 0x70);
    }
  }

  lemma HighHalf(x: bv8)
    requires x & 0x80 != 0
    ensures HasEntry(x)
  {
    hide HasEntry;
    if x & 0xf0 == 0x80 {
      Row8();
      LowNibble(x, 0x80);
    } else if x & 0xf0 == 0x90 {
      Row9();
      LowNibble(x, 0x90);
    } else if x & 0xf0 == 0xa0 {
      RowA();
      LowNibble(x, 0xa0);
    } else if x & 0xf0 == 0xb0 {
      RowB();
      LowNibble(x, 0xb0);
    } else if x & 0xf0 == 0xc0 {
      RowC();
      LowNibble(x, 0xc0);
    } else if x & 0xf0 == 0xd0 {
      RowD();
      LowNibble(x, 0xd0);
    } else if x & 0xf0 == 0xe0 {
      RowE();
      LowNibble(x, 0xe0);
    } else {
      RowF();
      LowNibble(x, 0xf0);
    }
  }

  lemma LowNibble(x: bv8, row: bv8)
    requires x & 0xf0 == row
    ensures || x == row || x == row | 0x1 || x == row | 0x2 || x == row | 0x3 || x == row | 0x4 || x == row | 0x5
            || x == row | 0x6 || x == row | 0x7 || x == row | 0x8 || x == row | 0x9 || x == row | 0xa
            || x == row | 0xb || x == row | 0xc || x == row | 0xd || x == row | 0xe || x == row | 0xf
  {
  }

  lemma FourEntries(a: bv8, a': bv8, b: bv8, b': bv8, c: bv8, c': bv8, d: bv8, d': bv8)
    requires (a == 0 && a' == 0) || GfTimes(a, a') == 1
    requires GfTimes(b, b') == 1 && GfTimes(c, c') == 1 && GfTimes(d, d') == 1
    requires Sbox(a) == AffineMap(a') && Sbox(b) == AffineMap(b')
    requires Sbox(c) == AffineMap(c') && Sbox(d) == AffineMap(d')
    ensures HasEntry(a) && HasEntry(b) && HasEntry(c) && HasEntry(d)
  {
    hide GfTimes, Sbox, AffineMap;
    assert Entry(a, a') && Entry(b, b') && Entry(c, c') && Entry(d, d');
  }

  lemma Row0()
    ensures HasEntry(0x00) && HasEntry(0x01) && HasEntry(0x02) && HasEntry(0x03)
    ensures HasEntry(0x04) && HasEntry(0x05) && HasEntry(0x06) && HasEntry(0x07)
    ensures HasEntry(0x08) && HasEntry(0x09) && HasEntry(0x0a) && HasEntry(0x0b)
    ensures HasEntry(0x0c) && HasEntry(0x0d) && HasEntry(0x0e) && HasEntry(0x0f)
  {
    hide Entry;
    FourEntries(0x00, 0x00, 0x01, 0x01, 0x02, 0x8d, 0x03, 0xf6);
    FourEntries(0x04, 0xcb, 0x05, 0x52, 0x06, 0x7b, 0x07, 0xd1);
    FourEntries(0x08, 0xe8, 0x09, 0x4f, 0x0a, 0x29, 0x0b, 0xc0);
    FourEntries(0x0c, 0xb0, 0x0d, 0xe1, 0x0e, 0xe5, 0x0f, 0xc7);
  }

  lemma Row1()
    ensures HasEntry(0x10) && HasEntry(0x11) && HasEntry(0x12) && HasEntry(0x13)
    ensures HasEntry(0x14) && HasEntry(0x15) && HasEntry(0x16) && HasEntry(0x17)
    ensures HasEntry(0x18) && HasEntry(0x19) && HasEntry(0x1a) && HasEntry(0x1b)
    ensures HasEntry(0x1c) && HasEntry(0x1d) && HasEntry(0x1e) && HasEntry(0x1f)
  {
    hide Entry;
    FourEntries(0x10, 0x74, 0x11, 0xb4, 0x12, 0xaa, 0x13, 0x4b);
    FourEntries(0x14, 0x99, 0x15, 0x2b, 0x16, 0x60, 0x17, 0x5f);
    FourEntries(0x18, 0x58, 0x19, 0x3f, 0x1a, 0xfd, 0x1b, 0xcc);
    FourEntries(0x1c, 0xff, 0x1d, 0x40, 0x1e, 0xee, 0x1f, 0xb2);
  }

  lemma Row2()
    ensures HasEntry(0x20) && HasEntry(0x21) && HasEntry(0x22) && HasEntry(0x23)
    ensures HasEntry(0x24) && HasEntry(0x25) && HasEntry(0x26) && HasEntry(0x27)
    ensures HasEntry(0x28) && HasEntry(0x29) && HasEntry(0x2a) && HasEntry(0x2b)
    ensures HasEntry(0x2c) && HasEntry(0x2d) && HasEntry(0x2e) && HasEntry(0x2f)
  {
    hide Entry;
    FourEntries(0x20, 0x3a, 0x21, 0x6e, 0x22, 0x5a, 0x23, 0xf1);
    FourEntries(0x24, 0x55, 0x25, 0x4d, 0x26, 0xa8, 0x27, 0xc9);
    FourEntries(0x28, 0xc1, 0x29, 0x0a, 0x2a, 0x98, 0x2b, 0x15);
    FourEntries(0x2c, 0x30, 0x2d, 0x44, 0x2e, 0xa2, 0x2f, 0xc2);
  }

  lemma Row3()
    ensures HasEntry(0x30) && HasEntry(0x31) && HasEntry(0x32) && HasEntry(0x33)
    ensures HasEntry(0x34) && HasEntry(0x35) && HasEntry(0x36) && HasEntry(0x37)
    ensures HasEntry(0x38) && HasEntry(0x39) && HasEntry(0x3a) && HasEntry(0x3b)
    ensures HasEntry(0x3c) && HasEntry(0x3d) && HasEntry(0x3e) && HasEntry(0x3f)
  {
    hide Entry;
    FourEntries(0x30, 0x2c, 0x31, 0x45, 0x32, 0x92, 0x33, 0x6c);
    FourEntries(0x34, 0xf3, 0x35, 0x39, 0x36, 0x66, 0x37, 0x42);
    FourEntries(0x38, 0xf2, 0x39, 0x35, 0x3a, 0x20, 0x3b, 0x6f);
    FourEntries(0x3c, 0x77, 0x3d, 0xbb, 0x3e, 0x59, 0x3f, 0x19);
  }

  lemma Row4()
    ensures HasEntry(0x40) && HasEntry(0x41) && HasEntry(0x42) && HasEntry(0x43)
    ensures HasEntry(0x44) && HasEntry(0x45) && HasEntry(0x46) && HasEntry(0x47)
    ensures HasEntry(0x48) && HasEntry(0x49) && HasEntry(0x4a) && HasEntry(0x4b)
    ensures HasEntry(0x4c) && HasEntry(0x4d) && HasEntry(0x4e) && HasEntry(0x4f)
  {
    hide Entry;
    FourEntries(0x40, 0x1d, 0x41, 0xfe, 0x42, 0x37, 0x43, 0x67);
    FourEntries(0x44, 0x2d, 0x45, 0x31, 0x46, 0xf5, 0x47, 0x69);
    FourEntries(0x48, 0xa7, 0x49, 0x64, 0x4a, 0xab, 0x4b, 0x13);
    FourEntries(0x4c, 0x54, 0x4d, 0x25, 0x4e, 0xe9, 0x4f, 0x09);
  }

  lemma Row5()
    ensures HasEntry(0x50) && HasEntry(0x51) && HasEntry(0x52) && HasEntry(0x53)
    ensures HasEntry(0x54) && HasEntry(0x55) && HasEntry(0x56) && HasEntry(0x57)
    ensures HasEntry(0x58) && HasEntry(0x59) && HasEntry(0x5a) && HasEntry(0x5b)
    ensures HasEntry(0x5c) && HasEntry(0x5d) && HasEntry(0x5e) && HasEntry(0x5f)
  {
    hide Entry;
    FourEntries(0x50, 0xed, 0x51, 0x5c, 0x52, 0x05, 0x53, 0xca);
    FourEntries(0x54, 0x4c, 0x55, 0x24, 0x56, 0x87, 0x57, 0xbf);
    FourEntries(0x58, 0x18, 0x59, 0x3e, 0x5a, 0x22, 0x5b, 0xf0);
    FourEntries(0x5c, 0x51, 0x5d, 0xec, 0x5e, 0x61, 0x5f, 0x17);
  }

  lemma Row6()
    ensures HasEntry(0x60) && HasEntry(0x61) && HasEntry(0x62) && HasEntry(0x63)
    ensures HasEntry(0x64) && HasEntry(0x65) && HasEntry(0x66) && HasEntry(0x67)
    ensures HasEntry(0x68) && HasEntry(0x69) && HasEntry(0x6a) && HasEntry(0x6b)
    ensures HasEntry(0x6c) && HasEntry(0x6d) && HasEntry(0x6e) && HasEntry(0x6f)
  {
    hide Entry;
    FourEntries(0x60, 0x16, 0x61, 0x5e, 0x62, 0xaf, 0x63, 0xd3);
    FourEntries(0x64, 0x49, 0x65, 0xa6, 0x66, 0x36, 0x67, 0x43);
    FourEntries(0x68, 0xf4, 0x69, 0x47, 0x6a, 0x91, 0x6b, 0xdf);
    FourEntries(0x6c, 0x33, 0x6d, 0x93, 0x6e, 0x21, 0x6f, 0x3b);
  }

  lemma Row7()
    ensures HasEntry(0x70) && HasEntry(0x71) && HasEntry(0x72) && HasEntry(0x73)
    ensures HasEntry(0x74) && HasEntry(0x75) && HasEntry(0x76) && HasEntry(0x77)
    ensures HasEntry(0x78) && HasEntry(0x79) && HasEntry(0x7a) && HasEntry(0x7b)
    ensures HasEntry(0x7c) && HasEntry(0x7d) && HasEntry(0x7e) && HasEntry(0x7f)
  {
    hide Entry;
    FourEntries(0x70, 0x79, 0x71, 0xb7, 0x72, 0x97, 0x73, 0x85);
    FourEntries(0x74, 0x10, 0x75, 0xb5, 0x76, 0xba, 0x77, 0x3c);
    FourEntries(0x78, 0xb6, 0x79, 0x70, 0x7a, 0xd0, 0x7b, 0x06);
    FourEntries(0x7c, 0xa1, 0x7d, 0xfa, 0x7e, 0x81, 0x7f, 0x82);
  }

  lemma Row8()
    ensures HasEntry(0x80) && HasEntry(0x81) && HasEntry(0x82) && HasEntry(0x83)
    ensures HasEntry(0x84) && HasEntry(0x85) && HasEntry(0x86) && HasEntry(0x87)
    ensures HasEntry(0x88) && HasEntry(0x89) && HasEntry(0x8a) && HasEntry(0x8b)
    ensures HasEntry(0x8c) && HasEntry(0x8d) && HasEntry(0x8e) && HasEntry(0x8f)
  {
    hide Entry;
    FourEntries(0x80, 0x83, 0x81, 0x7e, 0x82, 0x7f, 0x83, 0x80);
    FourEntries(0x84, 0x96, 0x85, 0x73, 0x86, 0xbe, 0x87, 0x56);
    FourEntries(0x88, 0x9b, 0x89, 0x9e, 0x8a, 0x95, 0x8b, 0xd9);
    FourEntries(0x8c, 0xf7, 0x8d, 0x02, 0x8e, 0xb9, 0x8f, 0xa4);
  }

  lemma Row9()
    ensures HasEntry(0x90) && HasEntry(0x91) && HasEntry(0x92) && HasEntry(0x93)
    ensures HasEntry(0x94) && HasEntry(0x95) && HasEntry(0x96) && HasEntry(0x97)
    ensures HasEntry(0x98) && HasEntry(0x99) && HasEntry(0x9a) && HasEntry(0x9b)
    ensures HasEntry(0x9c) && HasEntry(0x9d) && HasEntry(0x9e) && HasEntry(0x9f)
  {
    hide Entry;
    FourEntries(0x90, 0xde, 0x91, 0x6a, 0x92, 0x32, 0x93, 0x6d);
    FourEntries(0x94, 0xd8, 0x95, 0x8a, 0x96, 0x84, 0x97, 0x72);
    FourEntries(0x98, 0x2a, 0x99, 0x14, 0x9a, 0x9f, 0x9b, 0x88);
    FourEntries(0x9c, 0xf9, 0x9d, 0xdc, 0x9e, 0x89, 0x9f, 0x9a);
  }

  lemma RowA()
    ensures HasEntry(0xa0) && HasEntry(0xa1) && HasEntry(0xa2) && HasEntry(0xa3)
    ensures HasEntry(0xa4) && HasEntry(0xa5) && HasEntry(0xa6) && HasEntry(0xa7)
    ensures HasEntry(0xa8) && HasEntry(0xa9) && HasEntry(0xaa) && HasEntry(0xab)
    ensures HasEntry(0xac) && HasEntry(0xad) && HasEntry(0xae) && HasEntry(0xaf)
  {
    hide Entry;
    FourEntries(0xa0, 0xfb, 0xa1, 0x7c, 0xa2, 0x2e, 0xa3, 0xc3);
    FourEntries(0xa4, 0x8f, 0xa5, 0xb8, 0xa6, 0x65, 0xa7, 0x48);
    FourEntries(0xa8, 0x26, 0xa9, 0xc8, 0xaa, 0x12, 0xab, 0x4a);
    FourEntries(0xac, 0xce, 0xad, 0xe7, 0xae, 0xd2, 0xaf, 0x62);
  }

  lemma RowB()
    ensures HasEntry(0xb0) && HasEntry(0xb1) && HasEntry(0xb2) && HasEntry(0xb3)
    ensures HasEntry(0xb4) && HasEntry(0xb5) && HasEntry(0xb6) && HasEntry(0xb7)
    ensures HasEntry(0xb8) && HasEntry(0xb9) && HasEntry(0xba) && HasEntry(0xbb)
    ensures HasEntry(0xbc) && HasEntry(0xbd) && HasEntry(0xbe) && HasEntry(0xbf)
  {
    hide Entry;
    FourEntries(0xb0, 0x0c, 0xb1, 0xe0, 0xb2, 0x1f, 0xb3, 0xef);
    FourEntries(0xb4, 0x11, 0xb5, 0x75, 0xb6, 0x78, 0xb7, 0x71);
    FourEntries(0xb8, 0xa5, 0xb9, 0x8e, 0xba, 0x76, 0xbb, 0x3d);
    FourEntries(0xbc, 0xbd, 0xbd, 0xbc, 0xbe, 0x86, 0xbf, 0x57);
  }

  lemma RowC()
    ensures HasEntry(0xc0) && HasEntry(0xc1) && HasEntry(0xc2) && HasEntry(0xc3)
    ensures HasEntry(0xc4) && HasEntry(0xc5) && HasEntry(0xc6) && HasEntry(0xc7)
    ensures HasEntry(0xc8) && HasEntry(0xc9) && HasEntry(0xca) && HasEntry(0xcb)
    ensures HasEntry(0xcc) && HasEntry(0xcd) && HasEntry(0xce) && HasEntry(0xcf)
  {
    hide Entry;
    FourEntries(0xc0, 0x0b, 0xc1, 0x28, 0xc2, 0x2f, 0xc3, 0xa3);
    FourEntries(0xc4, 0xda, 0xc5, 0xd4, 0xc6, 0xe4, 0xc7, 0x0f);
    FourEntries(0xc8, 0xa9, 0xc9, 0x27, 0xca, 0x53, 0xcb, 0x04);
    FourEntries(0xcc, 0x1b, 0xcd, 0xfc, 0xce, 0xac, 0xcf, 0xe6);
  }

  lemma RowD()
    ensures HasEntry(0xd0) && HasEntry(0xd1) && HasEntry(0xd2) && HasEntry(0xd3)
    ensures HasEntry(0xd4) && HasEntry(0xd5) && HasEntry(0xd6) && HasEntry(0xd7)
    ensures HasEntry(0xd8) && HasEntry(0xd9) && HasEntry(0xda) && HasEntry(0xdb)
    ensures HasEntry(0xdc) && HasEntry(0xdd) && HasEntry(0xde) && HasEntry(0xdf)
  {
    hide Entry;
    FourEntries(0xd0, 0x7a, 0xd1, 0x07, 0xd2, 0xae, 0xd3, 0x63);
    FourEntries(0xd4, 0xc5, 0xd5, 0xdb, 0xd6, 0xe2, 0xd7, 0xea);
    FourEntries(0xd8, 0x94, 0xd9, 0x8b, 0xda, 0xc4, 0xdb, 0xd5);
    FourEntries(0xdc, 0x9d, 0xdd, 0xf8, 0xde, 0x90, 0xdf, 0x6b);
  }

  lemma RowE()
    ensures HasEntry(0xe0) && HasEntry(0xe1) && HasEntry(0xe2) && HasEntry(0xe3)
    ensures HasEntry(0xe4) && HasEntry(0xe5) && HasEntry(0xe6) && HasEntry(0xe7)
    ensures HasEntry(0xe8) && HasEntry(0xe9) && HasEntry(0xea) && HasEntry(0xeb)
    ensures HasEntry(0xec) && HasEntry(0xed) && HasEntry(0xee) && HasEntry(0xef)
  {
    hide Entry;
    FourEntries(0xe0, 0xb1, 0xe1, 0x0d, 0xe2, 0xd6, 0xe3, 0xeb);
    FourEntries(0xe4, 0xc6, 0xe5, 0x0e, 0xe6, 0xcf, 0xe7, 0xad);
    FourEntries(0xe8, 0x08, 0xe9, 0x4e, 0xea, 0xd7, 0xeb, 0xe3);
    FourEntries(0xec, 0x5d, 0xed, 0x50, 0xee, 0x1e, 0xef, 0xb3);
  }

  lemma RowF()
    ensures HasEntry(0xf0) && HasEntry(0xf1) && HasEntry(0xf2) && HasEntry(0xf3)
    ensures HasEntry(0xf4) && HasEntry(0xf5) && HasEntry(0xf6) && HasEntry(0xf7)
    ensures HasEntry(0xf8) && HasEntry(0xf9) && HasEntry(0xfa) && HasEntry(0xfb)
    ensures HasEntry(0xfc) && HasEntry(0xfd) && HasEntry(0xfe) && HasEntry(0xff)
  {
    hide Entry;
    FourEntries(0xf0, 0x5b, 0xf1, 0x23, 0xf2, 0x38, 0xf3, 0x34);
    FourEntries(0xf4, 0x68, 0xf5, 0x46, 0xf6, 0x03, 0xf7, 0x8c);
    FourEntries(0xf8, 0xdd, 0xf9, 0x9c, 0xfa, 0x7d, 0xfb, 0xa0);
    FourEntries(0xfc, 0xcd, 0xfd, 0x1a, 0xfe, 0x41, 0xff, 0x1c);
  }
}
