/** AES in XEX mode, one block at a time (xex.c). */
module Xex {
  import opened Aes

  // ----- GF(2^128) -----

  function Bit(b: bv8, j: nat): bool
    requires j < 8
  {
    b & Mask(j) != 0
  }

  function Mask(j: nat): bv8
    requires j < 8
  {
    if j == 0 then 0x01 else if j == 1 then 0x02 else if j == 2 then 0x04 else if j == 3 then 0x08
    else if j == 4 then 0x10 else if j == 5 then 0x20 else if j == 6 then 0x40 else 0x80
  }

  /** Coefficient 8 * i + j of the polynomial that a block stands for. */
  function Coefficient(s: Block, i: nat, j: nat): bool
    requires i < 16 && j < 8
  {
    Bit(s[i], j)
  }

  /** A byte shifted left with the bit carried in from the byte before it. */
  function ShiftIn(b: bv8, carry: bv8): bv8 {
    (b << 1) | carry
  }

  function Carry(b: bv8): bv8 {
    (b & 0x80) >> 7
  }

  /** What the coefficient of x^128 reduces to: x^7 + x^2 + x + 1. */
  function Feedback(b: bv8): bv8 {
    if Carry(b) == 0 then 0 else 0x87
  }

  function DoubledAt(s: Block, i: nat): bv8
    requires i < 16
  {
    if i == 0 then ShiftIn(s[0], 0) ^ Feedback(s[15]) else ShiftIn(s[i], Carry(s[i - 1]))
  }

  function Doubled(s: Block): (r: Block) {
    seq(16, i requires 0 <= i < 16 => DoubledAt(s, i))
  }

  lemma BitOfShift(b: bv8, c: bv8, j: nat)
    requires j < 8
    ensures Bit(ShiftIn(b, Carry(c)), j) == if j == 0 then Bit(c, 7) else Bit(b, j - 1)
  {
  }

  lemma BitOfFirst(b: bv8, top: bv8, j: nat)
    requires j < 8
    ensures Bit(ShiftIn(b, 0) ^ Feedback(top), j)
         == ((if j == 0 then false else Bit(b, j - 1)) != (Bit(top, 7) && (j == 0 || j == 1 || j == 2 || j == 7)))
  {
    assert Bit(top, 7) == (Carry(top) != 0);
  }

  /** Multiplication by x modulo x^128 + x^7 + x^2 + x + 1, coefficient by coefficient. */
  lemma DoubledIsTimesX(s: Block, i: nat, j: nat)
    requires i < 16 && j < 8
    ensures Coefficient(Doubled(s), i, j)
         == ((if j > 0 then Coefficient(s, i, j - 1) else if i > 0 then Coefficient(s, i - 1, 7) else false)
             != (Coefficient(s, 15, 7) && i == 0 && (j == 0 || j == 1 || j == 2 || j == 7)))
  {
    hide Bit, ShiftIn, Feedback, Carry;
    if i == 0 {
      BitOfFirst(s[0], s[15], j);
    } else {
      BitOfShift(s[i], s[i - 1], j);
    }
  }

  method DoubleInGF(op1: array<bv8>)
    requires op1.Length == 16
    modifies op1
    ensures op1[..] == Doubled(old(op1[..]))
  {
    hide Carry, ShiftIn;
    ghost var s: Block := op1[..];
    var lastBit: bv8 := 0;
    for i := 0 to 16
      invariant lastBit == if i == 0 then 0 else Carry(s[i - 1])
      invariant forall k :: 0 <= k < i ==> op1[k] == ShiftIn(s[k], if k == 0 then 0 else Carry(s[k - 1]))
      invariant forall k :: i <= k < 16 ==> op1[k] == s[k]
    {
      var temp := Carry(op1[i]);
      op1[i] := ShiftIn(op1[i], lastBit);
      lastBit := temp;
    }
    op1[0] := op1[0] ^ (if lastBit == 0 then 0 else 0x87);
  }

  // ----- a block -----

  type CombinedKey = k: seq<bv8> | |k| == 32 witness seq(32, _ => 0)

  function DoubledTimes(s: Block, times: nat): Block {
    if times == 0 then s else Doubled(DoubledTimes(s, times - 1))
  }

  /** The mask for block `count` of data unit n. The tweak key is the second half of the combined key. */
  function Delta(n: Block, count: nat, key: CombinedKey): Block {
    DoubledTimes(Encrypt(n, ExpandKey(key[16..])), count)
  }

  function XexEncrypted(s: Block, n: Block, count: nat, key: CombinedKey): Block {
    var delta := Delta(n, count, key);
    AddKey(Encrypt(AddKey(s, delta), ExpandKey(key[..16])), delta)
  }

  function XexDecrypted(s: Block, n: Block, count: nat, key: CombinedKey): Block {
    var delta := Delta(n, count, key);
    AddKey(Decrypt(AddKey(s, delta), ExpandKey(key[..16])), delta)
  }

  /** The storage uses one doubling: E(x + m) + m with m twice the encrypted tweak, under the second half of the key. */
  lemma OneDoubling(s: Block, n: Block, key: CombinedKey)
    ensures var m := Doubled(Encrypt(n, ExpandKey(key[16..32])));
            XexEncrypted(s, n, 1, key) == AddKey(Encrypt(AddKey(s, m), ExpandKey(key[0..16])), m)
  {
    hide AddKey, ExpandKey, Encrypt, Doubled;
    assert DoubledTimes(Encrypt(n, ExpandKey(key[16..])), 0) == Encrypt(n, ExpandKey(key[16..]));
    assert key[16..32] == key[16..] && key[0..16] == key[..16];
  }

  /** Decryption undoes encryption for every data unit number, block count and key. */
  lemma XexRoundTrip(s: Block, n: Block, count: nat, key: CombinedKey)
    ensures XexDecrypted(XexEncrypted(s, n, count, key), n, count, key) == s
  {
    hide AddKey, Delta, ExpandKey, Encrypt, Decrypt;
    var delta, e := Delta(n, count, key), ExpandKey(key[..16]);
    AddKeyTwice(Encrypt(AddKey(s, delta), e), delta);
    DecryptEncrypt(AddKey(s, delta), e);
    AddKeyTwice(s, delta);
  }

  /** xexEnDecrypt, with the two keys in one array as setEncryptionKey() takes them. */
  method XexEnDecrypt(output: array<bv8>, input: array<bv8>, n: array<bv8>, count: nat, key: array<bv8>,
      isDecrypt: bool)
    requires output.Length == 16 && input.Length == 16 && n.Length == 16 && key.Length == 32
    requires output != input && output != n && output != key
    modifies output
    ensures output[..] == if isDecrypt then XexDecrypted(input[..], n[..], count, key[..])
                          else XexEncrypted(input[..], n[..], count, key[..])
  {
    hide AddKey, Doubled, ExpandKey, Encrypt, Decrypt;
    var expandedKey := new bv8[EXPANDED_KEY_SIZE];
    var delta := new bv8[16];
    var buffer := new bv8[16];
    AesExpandKey(expandedKey, key, 16);
    AesEncrypt(delta, n, expandedKey);
    ghost var d := delta[..];
    assert key[16..32] == key[..][16..];
    for i := 0 to count
      modifies delta
      invariant delta[..] == DoubledTimes(d, i)
    {
      DoubleInGF(delta);
    }
    assert delta[..] == Delta(n[..], count, key[..]);
    Copy16(buffer, input);
    assert delta[0..16] == delta[..];
    Xor16Bytes(buffer, delta, 0);
    AesExpandKey(expandedKey, key, 0);
    assert key[0..16] == key[..][..16];
    if isDecrypt {
      AesDecrypt(output, buffer, expandedKey);
    } else {
      AesEncrypt(output, buffer, expandedKey);
    }
    Xor16Bytes(output, delta, 0);
  }
}
