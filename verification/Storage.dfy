/** Non-volatile storage, and the encrypted reads and writes that xex.c puts on top of it. */
module Storage {
  import opened Arith
  import opened Aes
  import opened Xex

  datatype NvReturn = NV_NO_ERROR | NV_INVALID_ADDRESS | NV_IO_ERROR

  // ----- 32-bit numbers -----

  /** The truncating conversion (uint8_t)x: counting up in 8-bit arithmetic wraps around. */
  function Octet(x: nat): bv8 {
    if x == 0 then 0 else Octet(x - 1) + 1
  }

  function Number(b: bv8): (n: nat)
    ensures n < 256
  {
    b as nat
  }

  lemma {:induction false} NumberOctet(n: nat)
    ensures Number(Octet(n)) == n % 256
  {
    hide Number;
    if n > 0 {
      NumberOctet(n - 1);
      NumberNext(Octet(n - 1));
      NextMod(n - 1);
    } else {
      NumberZero();
    }
  }

  lemma NumberZero()
    ensures Number(0) == 0
  {
  }

  lemma NumberNext(b: bv8)
    ensures Number(b + 1) == (Number(b) + 1) % 256
  {
  }

  lemma NextMod(n: nat)
    ensures (n % 256 + 1) % 256 == (n + 1) % 256
  {
  }

  function Read32(s: seq<bv8>): nat
    requires |s| >= 4
  {
    Number(s[0]) + 0x100 * Number(s[1]) + 0x10000 * Number(s[2]) + 0x1000000 * Number(s[3])
  }

  function Put32(n: nat): (s: seq<bv8>)
    ensures |s| == 4
  {
    [Octet(n), Octet(n / 0x100), Octet(n / 0x10000), Octet(n / 0x1000000)]
  }

  lemma Read32Put32(n: nat, rest: seq<bv8>)
    requires n < TWO32
    ensures Read32(Put32(n) + rest) == n
  {
    hide Number, Octet;
    NumberOctet(n);
    NumberOctet(n / 0x100);
    NumberOctet(n / 0x10000);
    NumberOctet(n / 0x1000000);
    Digits(n);
  }

  lemma Digits(n: nat)
    requires n < TWO32
    ensures n % 256 + 0x100 * (n / 0x100 % 256) + 0x10000 * (n / 0x10000 % 256) + 0x1000000 * (n / 0x1000000 % 256) == n
  {
    var a := n / 0x100;
    var b := a / 0x100;
    assert n / 0x10000 == b && n / 0x1000000 == b / 0x100;
  }

  // ----- the decrypted view -----

  /** A 32-bit number in little-endian order, filled up with zeros. */
  function Tweak(address: nat): (n: Block) {
    Put32(address) + seq(12, _ => 0)
  }

  /** The tweak of a block stands for its address, so that no two blocks of a partition share one. */
  lemma TweakIsAddress(address: nat, other: nat)
    requires address < TWO32 && other < TWO32
    ensures Read32(Tweak(address)) == address && Tweak(address)[4..] == seq(12, _ => 0)
    ensures Tweak(address) == Tweak(other) ==> address == other
  {
    hide Put32, Read32;
    Read32Put32(address, seq(12, _ => 0));
    Read32Put32(other, seq(12, _ => 0));
  }

  function Plain(c: Block, address: nat, key: CombinedKey): Block {
    XexDecrypted(c, Tweak(address), 1, key)
  }

  function Cipher(p: Block, address: nat, key: CombinedKey): Block {
    XexEncrypted(p, Tweak(address), 1, key)
  }

  lemma PlainCipher(p: Block, address: nat, key: CombinedKey)
    ensures Plain(Cipher(p, address, key), address, key) == p
  {
    hide XexEncrypted, XexDecrypted, Tweak;
    XexRoundTrip(p, Tweak(address), 1, key);
  }

  /** Block b of a partition. */
  function BlockAt(s: seq<bv8>, b: nat): Block
    requires 16 * b + 16 <= |s|
  {
    s[16 * b..16 * b + 16]
  }

  function PlainAt(memory: seq<bv8>, key: CombinedKey, b: nat): Block
    requires 16 * b + 16 <= |memory|
  {
    Plain(BlockAt(memory, b), 16 * b, key)
  }

  /** A partition as the encrypted reads and writes see it: every whole block, decrypted. */
  function View(memory: seq<bv8>, key: CombinedKey): (v: seq<bv8>)
    ensures |v| == 16 * (|memory| / 16)
    decreases |memory|, 1
  {
    ViewUpTo(memory, key, |memory| / 16)
  }

  /** The first n blocks: the view of all but the last of them, then that one. */
  function ViewUpTo(memory: seq<bv8>, key: CombinedKey, n: nat): (v: seq<bv8>)
    requires 16 * n <= |memory|
    ensures |v| == 16 * n
    decreases 16 * n, 0
  {
    hide PlainAt;
    if n == 0 then [] else View(memory[..16 * n - 16], key) + PlainAt(memory, key, n - 1)
  }

  lemma ViewFrame(a: seq<bv8>, b: seq<bv8>, key: CombinedKey, n: nat)
    requires 16 * n <= |a| && 16 * n <= |b| && a[..16 * n] == b[..16 * n]
    ensures ViewUpTo(a, key, n) == ViewUpTo(b, key, n)
  {
    hide Plain;
    if n > 0 {
      assert a[..16 * n - 16] == a[..16 * n][..16 * n - 16] == b[..16 * n - 16];
      assert a[16 * n - 16..16 * n] == a[..16 * n][16 * n - 16..];
      assert b[16 * n - 16..16 * n] == b[..16 * n][16 * n - 16..];
    }
  }

  lemma ViewSnoc(memory: seq<bv8>, key: CombinedKey, n: nat)
    requires 1 <= n && 16 * n <= |memory|
    ensures ViewUpTo(memory, key, n) == ViewUpTo(memory, key, n - 1) + PlainAt(memory, key, n - 1)
  {
    hide PlainAt;
    var front := memory[..16 * n - 16];
    assert front[..16 * n - 16] == front;
    assert View(front, key) == ViewUpTo(front, key, n - 1);
    ViewFrame(front, memory, key, n - 1);
  }

  lemma {:induction false} ViewBlock(memory: seq<bv8>, key: CombinedKey, n: nat, b: nat)
    requires 16 * n <= |memory| && b < n
    ensures BlockAt(ViewUpTo(memory, key, n), b) == PlainAt(memory, key, b)
  {
    hide PlainAt, ViewUpTo;
    var w := ViewUpTo(memory, key, n - 1);
    var last := PlainAt(memory, key, n - 1);
    ViewSnoc(memory, key, n);
    if b < n - 1 {
      ViewBlock(memory, key, n - 1, b);
    }
    Slices(w, last, 16 * b, 16 * b + 16);
    assert last[..] == last;
  }

  lemma Slices(a: seq<bv8>, b: seq<bv8>, i: nat, j: nat)
    requires i <= j <= |a + b|
    ensures j <= |a| ==> (a + b)[i..j] == a[i..j]
    ensures i >= |a| ==> (a + b)[i..j] == b[i - |a|..j - |a|]
    ensures (a + b)[|a|..] == b && (a + b)[..|a|] == a
  {
  }

  /** Replacing a block's ciphertext replaces that block of the view and nothing else. */
  lemma {:induction false} ViewUpdate(a: seq<bv8>, c: seq<bv8>, key: CombinedKey, n: nat, b: nat, p: Block)
    requires |a| == |c| && 16 * n <= |a| && b < n
    requires c == a[..16 * b] + Cipher(p, 16 * b, key) + a[16 * b + 16..]
    ensures ViewUpTo(c, key, n) == ViewUpTo(a, key, n)[..16 * b] + p + ViewUpTo(a, key, n)[16 * b + 16..]
  {
    hide Plain, Cipher, ViewUpTo;
    var v, w := ViewUpTo(a, key, n), ViewUpTo(a, key, n - 1);
    ViewSnoc(a, key, n);
    ViewSnoc(c, key, n);
    if b < n - 1 {
      ViewUpdate(a, c, key, n - 1, b, p);
      assert c[16 * n - 16..16 * n] == a[16 * n - 16..16 * n];
      assert v[..16 * b] == w[..16 * b];
      assert v[16 * b + 16..] == w[16 * b + 16..] + v[16 * n - 16..];
    } else {
      assert c[..16 * b] == a[..16 * b];
      ViewFrame(a, c, key, b);
      assert c[16 * b..16 * b + 16] == Cipher(p, 16 * b, key);
      PlainCipher(p, 16 * b, key);
      assert v[..16 * b] == w;
    }
  }

  /** v with d written over it at an address. */
  function Overlay(v: seq<bv8>, address: nat, d: seq<bv8>): (r: seq<bv8>)
    requires address + |d| <= |v|
    ensures |r| == |v|
  {
    v[..address] + d + v[address + |d|..]
  }

  lemma OverlaySnoc(v: seq<bv8>, address: nat, d: seq<bv8>, x: bv8)
    requires address + |d| < |v|
    ensures Overlay(v, address, d)[address + |d| := x] == Overlay(v, address, d + [x])
  {
  }

  lemma OverlayNothing(v: seq<bv8>, address: nat, d: seq<bv8>)
    requires address <= |v| && d == []
    ensures Overlay(v, address, d) == v
  {
  }

  /** Overwriting a window of the block at the end of what has been written extends the overlay. */
  lemma OverlayStep(v: seq<bv8>, address: nat, data: seq<bv8>, pos: nat, count: nat, start: nat, offset: nat,
                    p: Block, q: Block)
    requires address + |data| <= |v| && pos + count <= |data| && start + 16 <= |v| && offset + count <= 16
    requires count > 0 ==> address + pos == start + offset
    requires p == Overlay(v, address, data[..pos])[start..start + 16]
    requires q == Overlay(p, offset, data[pos..pos + count])
    ensures var w := Overlay(v, address, data[..pos]);
            w[..start] + q + w[start + 16..] == Overlay(v, address, data[..pos + count])
  {
    var w := Overlay(v, address, data[..pos]);
    var d := data[pos..pos + count];
    OverlayWindow(w, start, offset, d);
    assert data[..pos + count] == data[..pos] + d;
    if count > 0 {
      OverlayOverlay(v, address, data[..pos], d);
    }
  }

  lemma OverlayWindow(w: seq<bv8>, start: nat, offset: nat, d: seq<bv8>)
    requires start + 16 <= |w| && offset + |d| <= 16
    ensures w[..start] + Overlay(w[start..start + 16], offset, d) + w[start + 16..] == Overlay(w, start + offset, d)
    ensures d == [] ==> Overlay(w, start + offset, d) == w
  {
    var p := w[start..start + 16];
    assert p[..offset] == w[start..start + offset];
    assert w[..start + offset] == w[..start] + w[start..start + offset];
    assert p[offset + |d|..] == w[start + offset + |d|..start + 16];
    assert w[start + offset + |d|..] == w[start + offset + |d|..start + 16] + w[start + 16..];
  }

  lemma OverlayOverlay(v: seq<bv8>, address: nat, d: seq<bv8>, e: seq<bv8>)
    requires address + |d| + |e| <= |v|
    ensures Overlay(Overlay(v, address, d), address + |d|, e) == Overlay(v, address, d + e)
  {
    var w := Overlay(v, address, d);
    assert w[..address + |d|] == v[..address] + d;
    assert w[address + |d| + |e|..] == v[address + |d| + |e|..];
  }

  class Store {
    /** The partition that holds the wallet records. */
    const accounts: array<bv8>
    /** Whether the n-th access fails, and how many there have been. */
    const fault: nat -> bool
    var accesses: nat
    /** nv_storage_encrypt_key and nv_storage_tweak_key, one after the other. */
    const key: array<bv8>

    constructor (accounts0: array<bv8>, fault0: nat -> bool)
      requires accounts0.Length <= 0xfffffff0
      ensures accounts == accounts0 && fault == fault0 && fresh(key) && key.Length == 32 && Valid()
    {
      accounts, fault, accesses := accounts0, fault0, 0;
      key := new bv8[32];
    }

    ghost predicate Valid() {
      key.Length == 32 && accounts != key && accounts.Length <= 0xfffffff0
    }

    ghost function PlainView(): (v: seq<bv8>)
      requires Valid()
      reads accounts, key
      ensures |v| == 16 * (accounts.Length / 16)
    {
      View(accounts[..], key[..])
    }

    method NonVolatileRead(data: array<bv8>, address: nat, length: nat) returns (r: NvReturn)
      requires Valid() && length <= data.Length && data != accounts && data != key
      modifies data, `accesses
      ensures address + length > accounts.Length <==> r.NV_INVALID_ADDRESS?
      ensures address + length <= accounts.Length ==> (r.NV_IO_ERROR? <==> fault(old(accesses)))
      ensures r.NV_NO_ERROR? ==> data[..length] == accounts[address..address + length]
      ensures forall k :: length <= k < data.Length ==> data[k] == old(data[k])
      ensures !r.NV_NO_ERROR? ==> data[..] == old(data[..])
      ensures accesses == old(accesses) + if address + length <= accounts.Length then 1 else 0
    {
      if address + length > accounts.Length {
        return NV_INVALID_ADDRESS;
      }
      accesses := accesses + 1;
      if fault(accesses - 1) {
        return NV_IO_ERROR;
      }
      for k := 0 to length
        modifies data
        invariant data[..k] == accounts[address..address + k]
        invariant forall i :: k <= i < data.Length ==> data[i] == old(data[i])
      {
        data[k] := accounts[address + k];
      }
      return NV_NO_ERROR;
    }

    /** A write that fails changes nothing. */
    method NonVolatileWrite(data: array<bv8>, address: nat, length: nat) returns (r: NvReturn)
      requires Valid() && length <= data.Length && data != accounts
      modifies accounts, `accesses
      ensures address + length > accounts.Length <==> r.NV_INVALID_ADDRESS?
      ensures address + length <= accounts.Length ==> (r.NV_IO_ERROR? <==> fault(old(accesses)))
      ensures r.NV_NO_ERROR? ==> accounts[..] == Overlay(old(accounts[..]), address, data[..length])
      ensures !r.NV_NO_ERROR? ==> accounts[..] == old(accounts[..])
      ensures accesses == old(accesses) + if address + length <= accounts.Length then 1 else 0
    {
      if address + length > accounts.Length {
        return NV_INVALID_ADDRESS;
      }
      accesses := accesses + 1;
      if fault(accesses - 1) {
        return NV_IO_ERROR;
      }
      hide Overlay;
      ghost var was := accounts[..];
      OverlayNothing(was, address, data[..0]);
      for k := 0 to length
        modifies accounts
        invariant accounts[..] == Overlay(was, address, data[..k])
      {
        assert data[..k + 1] == data[..k] + [data[k]];
        OverlaySnoc(was, address, data[..k], data[k]);
        accounts[address + k] := data[k];
      }
      return NV_NO_ERROR;
    }

    /** writeU32LittleEndian() into a block of zeros. */
    method PutTweak(n: array<bv8>, address: nat)
      requires n.Length == 16 && address < TWO32 && forall k :: 4 <= k < 16 ==> n[k] == 0
      modifies n
      ensures n[..] == Tweak(address)
    {
      n[0] := Octet(address);
      n[1] := Octet(address / 0x100);
      n[2] := Octet(address / 0x10000);
      n[3] := Octet(address / 0x1000000);
    }

    /** Reads and decrypts one block. */
    method ReadBlock(plaintext: array<bv8>, start: nat) returns (r: NvReturn)
      requires Valid() && start < TWO32 && start % 16 == 0 && plaintext.Length == 16
      requires plaintext != accounts && plaintext != key
      modifies plaintext, `accesses
      ensures start + 16 > accounts.Length ==> r.NV_INVALID_ADDRESS?
      ensures start + 16 <= accounts.Length ==> (r.NV_NO_ERROR? <==> !fault(old(accesses)))
      ensures r.NV_NO_ERROR? ==> start + 16 <= |PlainView()| && plaintext[..] == PlainView()[start..start + 16]
      ensures accesses == old(accesses) + if start + 16 <= accounts.Length then 1 else 0
    {
      hide XexDecrypted, View;
      var ciphertext := new bv8[16];
      r := NonVolatileRead(ciphertext, start, 16);
      if !r.NV_NO_ERROR? {
        return;
      }
      var n := new bv8[16](_ => 0);
      PutTweak(n, start);
      XexEnDecrypt(plaintext, ciphertext, n, 1, key, true);
      assert ciphertext[..16] == ciphertext[..];
      WholeBlock(start, accounts.Length);
      PlainSlice(accounts[..], key[..], start);
    }

    /** Encrypts and writes one block. */
    method WriteBlock(plaintext: array<bv8>, start: nat) returns (r: NvReturn)
      requires Valid() && start < TWO32 && start % 16 == 0 && start + 16 <= 16 * (accounts.Length / 16)
      requires plaintext.Length == 16 && plaintext != accounts
      modifies accounts, `accesses
      ensures r.NV_NO_ERROR? <==> !fault(old(accesses))
      ensures !r.NV_NO_ERROR? ==> accounts[..] == old(accounts[..])
      ensures r.NV_NO_ERROR? ==> PlainView() == Overlay(old(PlainView()), start, plaintext[..])
      ensures SameOutside(old(accounts[..]), accounts[..], start, start + 16)
      ensures accesses == old(accesses) + 1
    {
      hide XexEncrypted, View;
      var ciphertext := new bv8[16];
      var n := new bv8[16](_ => 0);
      PutTweak(n, start);
      XexEnDecrypt(ciphertext, plaintext, n, 1, key, false);
      ghost var was := accounts[..];
      r := NonVolatileWrite(ciphertext, start, 16);
      assert ciphertext[..16] == ciphertext[..];
      if r.NV_NO_ERROR? {
        CipherSlice(was, accounts[..], key[..], start, plaintext[..]);
      }
    }

    /** Copies as much of the data as fits into the rest of the block. */
    method Fill(plaintext: array<bv8>, offset: nat, data: array<bv8>, pos: nat, left: nat) returns (count: nat)
      requires plaintext.Length == 16 && offset <= 16 && pos + left <= data.Length && plaintext != data
      modifies plaintext
      ensures count == (if left < 16 - offset then left else 16 - offset)
      ensures plaintext[..] == Overlay(old(plaintext[..]), offset, data[pos..pos + count])
    {
      hide Overlay;
      count := 0;
      ghost var p := plaintext[..];
      OverlayNothing(p, offset, data[pos..pos]);
      while count < left && offset + count < 16
        invariant count <= left && offset + count <= 16
        invariant plaintext[..] == Overlay(p, offset, data[pos..pos + count])
      {
        assert data[pos..pos + count + 1] == data[pos..pos + count] + [data[pos + count]];
        OverlaySnoc(p, offset, data[pos..pos + count], data[pos + count]);
        plaintext[offset + count] := data[pos + count];
        count := count + 1;
      }
    }

    /** One block of a write: read, decrypt, replace part of it, encrypt, write back. */
    method RewriteBlock(start: nat, offset: nat, data: array<bv8>, pos: nat, left: nat)
        returns (r: NvReturn, count: nat)
      requires Valid() && start < TWO32 && start % 16 == 0 && offset < 16 && pos + left <= data.Length
      requires data != accounts && data != key
      modifies accounts, `accesses
      ensures start + 16 > accounts.Length ==> r.NV_INVALID_ADDRESS?
      ensures start + 16 <= accounts.Length && NoFaults() ==> r.NV_NO_ERROR?
      ensures !r.NV_NO_ERROR? ==> accounts[..] == old(accounts[..])
      ensures r.NV_NO_ERROR? ==>
                && start + 16 <= |old(PlainView())| && count == (if left < 16 - offset then left else 16 - offset)
                && PlainView() == Rewritten(old(PlainView()), start, offset, data[pos..pos + count])
      ensures SameOutside(old(accounts[..]), accounts[..], start, start + 16)
      ensures NoFaults() ==> accesses == old(accesses) + if start + 16 <= accounts.Length then 2 else 0
    {
      hide View, Overlay, SameOutside;
      count := 0;
      ghost var v := PlainView();
      SameAsBefore(accounts[..], start);
      var plaintext := new bv8[16];
      r := ReadBlock(plaintext, start);
      if !r.NV_NO_ERROR? {
        return;
      }
      assert plaintext[..] == Window(v, start);
      count := Fill(plaintext, offset, data, pos, left);
      assert PlainView() == v;
      WholeBlock(start, accounts.Length);
      r := WriteBlock(plaintext, start);
    }

    ghost predicate NoFaults() {
      forall n: nat :: !fault(n)
    }

    /**
     Writes through the encryption. The decrypted view changes in a prefix of [address, address + length), in all of
     it unless an error is returned, and nowhere else; ciphertext outside the blocks touched stays as it was.
     */
    method EncryptedNonVolatileWrite(data: array<bv8>, address: nat, length: nat)
        returns (r: NvReturn, ghost written: nat)
      requires Valid() && address < TWO32 && length < TWO32 && length <= data.Length && data != accounts && data != key
      modifies accounts, `accesses
      ensures written <= length && (r.NV_NO_ERROR? ==> written == length)
      ensures Wrote(old(PlainView()), address, data[..written], PlainView())
      ensures NoFaults() ==> (r.NV_NO_ERROR? <==> Addressable(address, length, accounts.Length))
      ensures SameOutside(old(accounts[..]), accounts[..], BlockStart(address), BlockEnd(address, length) + 16)
      ensures NoFaults() ==> accesses == old(accesses) + 2 * Touched(address, length, accounts.Length)
    {
      hide View, BlockEnd, BlockStart, Wrote, SameOutside, Rewritten, WriteSpan, Touched;
      var blockStart: nat, blockOffset: nat := BlockStart(address), address % 16;
      var blockEnd := BlockEnd(address, length);
      ghost var v, m := PlainView(), accounts[..];
      written := 0;
      NothingWritten(v, address, data[..0], m, BlockStart(address));
      NothingWritten(v, address, data[..0], m, BlockEnd(address, length) + 16);
      if (address + length) % TWO32 < address {
        NotAddressable(address, length, accounts.Length);
        TouchedNone(address, length, accounts.Length);
        return NV_INVALID_ADDRESS, written;
      }
      var pos: nat, left: nat := 0, length;
      SpanStart(address, length);
      while blockStart <= blockEnd
        invariant WriteSpan(address, length, pos, left, blockStart, blockOffset)
        invariant written == pos && pos <= length && Wrote(v, address, data[..pos], PlainView())
        invariant blockStart > BlockStart(address) ==> blockStart <= accounts.Length
        invariant SameOutside(m, accounts[..], BlockStart(address), blockStart)
        invariant NoFaults() ==> 8 * (accesses - old(accesses)) == blockStart - BlockStart(address)
        decreases blockEnd + 16 - blockStart
      {
        SpanIs(address, length, pos, left, blockStart, blockOffset);
        var count;
        ghost var w, n := PlainView(), accounts[..];
        r, count := RewriteBlock(blockStart, blockOffset, data, pos, left);
        SameOutsideStep(m, n, accounts[..], BlockStart(address), blockStart, BlockEnd(address, length) + 16);
        if !r.NV_NO_ERROR? {
          ErrorOutside(address, length, blockStart, accounts.Length);
          TouchedUpTo(address, length, blockStart, accounts.Length);
          return r, written;
        }
        assert data[pos..pos + count] == data[..][pos..pos + count] && data[..pos] == data[..][..pos];
        WroteMore(v, address, data[..], pos, count, blockStart, blockOffset, w);
        assert data[..pos + count] == data[..][..pos + count];
        SpanStep(address, length, pos, left, blockStart, blockOffset, count);
        pos, left, blockOffset := pos + count, left - count, 0;
        written := pos;
        blockStart := blockStart + 16;
      }
      SpanEnd(address, length, pos, left, blockStart, blockOffset, accounts.Length);
      TouchedAll(address, length, blockStart, accounts.Length);
      return NV_NO_ERROR, written;
    }

    /** Copies as much of the block as is wanted from an offset on. */
    method Drain(plaintext: array<bv8>, offset: nat, data: array<bv8>, pos: nat, left: nat) returns (count: nat)
      requires plaintext.Length == 16 && offset <= 16 && pos + left <= data.Length && plaintext != data
      modifies data
      ensures count == (if left < 16 - offset then left else 16 - offset)
      ensures data[..] == Overlay(old(data[..]), pos, plaintext[offset..offset + count])
    {
      hide Overlay;
      count := 0;
      ghost var d := data[..];
      OverlayNothing(d, pos, plaintext[offset..offset]);
      while count < left && offset + count < 16
        invariant count <= left && offset + count <= 16
        invariant data[..] == Overlay(d, pos, plaintext[offset..offset + count])
      {
        assert plaintext[offset..offset + count + 1] == plaintext[offset..offset + count] + [plaintext[offset + count]];
        OverlaySnoc(d, pos, plaintext[offset..offset + count], plaintext[offset + count]);
        data[pos + count] := plaintext[offset + count];
        count := count + 1;
      }
    }

    /** Reads through the encryption: the wanted slice of the decrypted view, or an error. */
    method EncryptedNonVolatileRead(data: array<bv8>, address: nat, length: nat) returns (r: NvReturn)
      requires Valid() && address < TWO32 && length < TWO32 && length <= data.Length && data != accounts && data != key
      modifies data, `accesses
      ensures r.NV_NO_ERROR? ==> WasRead(PlainView(), address, data[..length])
      ensures NoFaults() ==> (r.NV_NO_ERROR? <==> Addressable(address, length, accounts.Length))
      ensures data[length..] == old(data[length..])
      ensures NoFaults() ==> accesses == old(accesses) + Touched(address, length, accounts.Length)
    {
      hide View, BlockEnd, BlockStart, WasRead, WriteSpan, Overlay, Touched;
      var blockStart: nat, blockOffset: nat := BlockStart(address), address % 16;
      var blockEnd := BlockEnd(address, length);
      ghost var v := PlainView();
      if (address + length) % TWO32 < address {
        NotAddressable(address, length, accounts.Length);
        TouchedNone(address, length, accounts.Length);
        return NV_INVALID_ADDRESS;
      }
      var pos: nat, left: nat := 0, length;
      SpanStart(address, length);
      NothingRead(v, address, data[..0]);
      while blockStart <= blockEnd
        modifies data, `accesses
        invariant WriteSpan(address, length, pos, left, blockStart, blockOffset)
        invariant pos <= length && WasRead(v, address, data[..pos])
        invariant blockStart > BlockStart(address) ==> blockStart <= accounts.Length
        invariant data[length..] == old(data[length..])
        invariant NoFaults() ==> 16 * (accesses - old(accesses)) == blockStart - BlockStart(address)
        decreases blockEnd + 16 - blockStart
      {
        SpanIs(address, length, pos, left, blockStart, blockOffset);
        var plaintext := new bv8[16];
        r := ReadBlock(plaintext, blockStart);
        if !r.NV_NO_ERROR? {
          ErrorOutside(address, length, blockStart, accounts.Length);
          TouchedUpTo(address, length, blockStart, accounts.Length);
          return r;
        }
        ghost var d := data[..];
        assert data[..pos] == d[..pos] && data[length..] == d[length..];
        var count := Drain(plaintext, blockOffset, data, pos, left);
        ReadMore(v, address, d, pos, count, length, blockStart, blockOffset, plaintext[..]);
        assert data[..pos + count] == data[..][..pos + count] && data[length..] == data[..][length..];
        assert plaintext[blockOffset..blockOffset + count] == plaintext[..][blockOffset..blockOffset + count];
        SpanStep(address, length, pos, left, blockStart, blockOffset, count);
        pos, left, blockOffset := pos + count, left - count, 0;
        blockStart := blockStart + 16;
      }
      SpanEnd(address, length, pos, left, blockStart, blockOffset, accounts.Length);
      TouchedAll(address, length, blockStart, accounts.Length);
      return NV_NO_ERROR;
    }

    method SetEncryptionKey(input: array<bv8>)
      requires Valid() && input.Length >= 32 && input != key
      modifies key
      ensures key[..] == input[..32]
    {
      for i := 0 to 32
        invariant forall k :: 0 <= k < i ==> key[k] == input[k]
      {
        key[i] := input[i];
      }
    }

    method IsEncryptionKeyNonZero() returns (nonZero: bool)
      requires Valid()
      ensures nonZero <==> exists k :: 0 <= k < 32 && key[k] != 0
    {
      nonZero := false;
      for i := 0 to 32
        invariant nonZero <==> exists k :: 0 <= k < i && key[k] != 0
      {
        nonZero := nonZero || key[i] != 0;
      }
    }
  }

  /** For a non-empty range, being addressable is ending inside the decrypted view. */
  lemma AddressableIff(address: nat, length: nat, size: nat)
    requires address < TWO32 && 1 <= length < TWO32 && size <= 0xfffffff0
    ensures Addressable(address, length, size) <==> address + length <= 16 * (size / 16)
  {
    if (address + length) % TWO32 >= address {
      hide BlockEnd;
      BlockEndAligned(address, length);
    }
  }

  /**
   A range of no bytes is accepted iff it is not at address 0 and either begins a block, wherever that is, or lies
   inside a block of the partition.
   */
  lemma EmptyRangeIff(address: nat, size: nat)
    requires address < TWO32 && size <= 0xfffffff0
    ensures Addressable(address, 0, size) <==> address > 0 && (address % 16 == 0 || address < 16 * (size / 16))
  {
  }

  /** How many blocks are read for no bytes: all of them at address 0, the one around it inside a block, else none. */
  lemma EmptyRangeTouches(address: nat, size: nat)
    requires address < TWO32 && size <= 0xfffffff0
    ensures Touched(address, 0, size)
            == if address == 0 then size / 16 else if address % 16 > 0 && address < 16 * (size / 16) then 1 else 0
  {
    hide BlockEnd;
    BlockEndAligned(address, 0);
    EmptyEnd(address);
  }

  lemma EmptyEnd(address: nat)
    requires address < TWO32
    ensures BlockEnd(address, 0) == if address == 0 then 0xfffffff0 else (address - 1) / 16 * 16
  {
    if address > 0 {
      assert (address + TWO32 - 1) % TWO32 == address - 1;
    }
  }

  /** So reading or writing nothing succeeds without touching anything exactly at the later blocks' beginnings. */
  lemma NothingIsFree(address: nat, size: nat)
    requires address < TWO32 && size <= 0xfffffff0
    ensures Addressable(address, 0, size) && Touched(address, 0, size) == 0 <==> address > 0 && address % 16 == 0
  {
    hide Addressable, Touched;
    EmptyRangeIff(address, size);
    EmptyRangeTouches(address, size);
  }

  /** Nothing at address 0 is refused after every block was read; nothing far outside the partition is accepted. */
  lemma NothingAtZero(size: nat)
    requires size <= 0xfffffff0
    ensures !Addressable(0, 0, size) && Touched(0, 0, size) == size / 16
    ensures Addressable(0xfffffff0, 0, size) && Touched(0xfffffff0, 0, size) == 0
  {
    hide Addressable, Touched;
    EmptyRangeIff(0, size);
    EmptyRangeTouches(0, size);
    NothingIsFree(0xfffffff0, size);
  }

  /** What is decrypted at an address depends on the ciphertext there and nowhere else. */
  lemma {:induction false} ViewIsLocal(a: seq<bv8>, b: seq<bv8>, key: CombinedKey, start: nat, blocks: nat)
    requires |a| == |b| && start % 16 == 0 && start + 16 * blocks <= 16 * (|a| / 16)
    requires a[start..start + 16 * blocks] == b[start..start + 16 * blocks]
    ensures View(a, key)[start..start + 16 * blocks] == View(b, key)[start..start + 16 * blocks]
  {
    hide View, Plain;
    if blocks > 0 {
      var last := start + 16 * (blocks - 1);
      SplitSlice(a, start, last);
      SplitSlice(b, start, last);
      SplitSlice(View(a, key), start, last);
      SplitSlice(View(b, key), start, last);
      ViewIsLocal(a, b, key, start, blocks - 1);
      PlainSlice(a, key, last);
      PlainSlice(b, key, last);
    }
  }

  lemma SplitSlice(s: seq<bv8>, start: nat, last: nat)
    requires start <= last && last + 16 <= |s|
    ensures s[start..last + 16] == s[start..last] + Window(s, last)
    ensures s[start..last + 16][..last - start] == s[start..last]
            && s[start..last + 16][last - start..] == Window(s, last)
  {
  }

  /** d is the slice of v at an address; reading nothing reads nothing, wherever. */
  ghost predicate WasRead(v: seq<bv8>, address: nat, d: seq<bv8>) {
    d == [] || (address + |d| <= |v| && d == v[address..address + |d|])
  }

  lemma NothingRead(v: seq<bv8>, address: nat, d: seq<bv8>)
    requires d == []
    ensures WasRead(v, address, d)
  {
  }

  lemma SliceOfSlice(v: seq<bv8>, start: nat, offset: nat, count: nat)
    requires offset + count <= 16 && start + 16 <= |v|
    ensures v[start..start + 16][offset..offset + count] == v[start + offset..start + offset + count]
  {
    var a, b := v[start..start + 16][offset..offset + count], v[start + offset..start + offset + count];
    assert |a| == |b|;
    forall k | 0 <= k < |a|
      ensures a[k] == b[k]
    {
      assert a[k] == v[start..start + 16][offset + k] == v[start + offset + k];
    }
  }

  lemma ReadMore(v: seq<bv8>, address: nat, d: seq<bv8>, pos: nat, count: nat, length: nat, start: nat, offset: nat,
      p: Block)
    requires pos + count <= length <= |d| && start + 16 <= |v| && offset + count <= 16 && p == v[start..start + 16]
    requires WasRead(v, address, d[..pos]) && (count > 0 ==> address + pos == start + offset)
    ensures var e := Overlay(d, pos, p[offset..offset + count]);
            WasRead(v, address, e[..pos + count]) && e[length..] == d[length..]
  {
    var t := p[offset..offset + count];
    var e := Overlay(d, pos, t);
    assert e[..pos + count] == d[..pos] + t;
    if count > 0 {
      SliceOfSlice(v, start, offset, count);
      assert t == v[address + pos..address + pos + count];
      if pos > 0 {
        assert v[address..address + pos] + v[address + pos..address + pos + count] == v[address..address + pos + count];
      } else {
        assert d[..pos] + t == t;
      }
    } else {
      assert d[..pos] + t == d[..pos];
    }
  }

  /** Where a loop over blocks stands: `pos` bytes done, the next one at an offset into the next block. */
  ghost predicate WriteSpan(address: nat, length: nat, pos: nat, left: nat, start: nat, offset: nat) {
    && address < TWO32 && length < TWO32 && (address + length) % TWO32 >= address
    && start % 16 == 0 && BlockStart(address) <= start <= BlockEnd(address, length) + 16
    && offset < 16 && pos + left == length && (left > 0 ==> address + pos == start + offset)
  }

  lemma SpanStart(address: nat, length: nat)
    requires address < TWO32 && length < TWO32 && (address + length) % TWO32 >= address
    ensures WriteSpan(address, length, 0, length, BlockStart(address), address % 16)
  {
    hide BlockEnd;
    BlockEndAligned(address, length);
  }

  lemma SpanIs(address: nat, length: nat, pos: nat, left: nat, start: nat, offset: nat)
    requires WriteSpan(address, length, pos, left, start, offset) && start <= BlockEnd(address, length)
    ensures start < TWO32 && start % 16 == 0 && offset < 16 && pos + left == length
    ensures left > 0 ==> address + pos == start + offset
    ensures BlockStart(address) <= start && start + 16 <= BlockEnd(address, length) + 16
  {
    hide BlockEnd;
    BlockEndAligned(address, length);
  }

  lemma SpanStep(address: nat, length: nat, pos: nat, left: nat, start: nat, offset: nat, count: nat)
    requires WriteSpan(address, length, pos, left, start, offset) && start <= BlockEnd(address, length)
    requires count == if left < 16 - offset then left else 16 - offset
    ensures WriteSpan(address, length, pos + count, left - count, start + 16, 0)
  {
    hide BlockEnd;
    BlockEndAligned(address, length);
  }

  lemma SpanEnd(address: nat, length: nat, pos: nat, left: nat, start: nat, offset: nat, size: nat)
    requires WriteSpan(address, length, pos, left, start, offset) && start > BlockEnd(address, length)
    requires start > BlockStart(address) ==> start <= size
    ensures pos == length && start == BlockEnd(address, length) + 16
    ensures Addressable(address, length, size)
  {
    hide BlockEnd;
    BlockEndAligned(address, length);
  }

  lemma NotAddressable(address: nat, length: nat, size: nat)
    requires (address + length) % TWO32 < address
    ensures !Addressable(address, length, size)
  {
  }

  /** A block that is not there is one of the blocks of the range. */
  lemma ErrorOutside(address: nat, length: nat, start: nat, size: nat)
    requires BlockStart(address) <= start <= BlockEnd(address, length)
    ensures start + 16 > size ==> !Addressable(address, length, size)
  {
    hide BlockEnd;
  }

  lemma NothingWritten(v: seq<bv8>, address: nat, d: seq<bv8>, m: seq<bv8>, to: nat)
    requires d == []
    ensures Wrote(v, address, d, v) && SameOutside(m, m, BlockStart(address), to)
  {
  }

  lemma SameAsBefore(m: seq<bv8>, start: nat)
    ensures SameOutside(m, m, start, start + 16)
  {
  }

  lemma SameOutsideStep(a: seq<bv8>, b: seq<bv8>, c: seq<bv8>, from: nat, start: nat, to: nat)
    requires SameOutside(a, b, from, start) && SameOutside(b, c, start, start + 16) && from <= start && start + 16 <= to
    ensures SameOutside(a, c, from, start + 16) && SameOutside(a, c, from, to)
  {
  }

  /** The two agree except perhaps from `from` up to `to`. */
  ghost predicate SameOutside(a: seq<bv8>, b: seq<bv8>, from: nat, to: nat) {
    |a| == |b| && forall k :: 0 <= k < |a| && !(from <= k < to) ==> a[k] == b[k]
  }

  /** address & 0xfffffff0 */
  function BlockStart(address: nat): (b: nat)
    ensures b <= address
  {
    address / 16 * 16
  }

  /** (address + length - 1) & 0xfffffff0, in 32-bit arithmetic: nothing at address 0 ends at the last block of all. */
  function BlockEnd(address: nat, length: nat): nat {
    (address + length + TWO32 - 1) % TWO32 / 16 * 16
  }

  /** The blocks touched lie in a partition of the given size, and the end of the range does not overflow. */
  predicate Addressable(address: nat, length: nat, size: nat) {
    && (address + length) % TWO32 >= address
    && (BlockStart(address) <= BlockEnd(address, length) ==> BlockEnd(address, length) + 16 <= size)
  }

  /** How many blocks an operation on a range gets to: those of the range, up to the end of the partition. */
  function Touched(address: nat, length: nat, size: nat): nat {
    var first, last, room := BlockStart(address), BlockEnd(address, length), 16 * (size / 16);
    if (address + length) % TWO32 < address || last < first || room < first then 0
    else ((if last + 16 <= room then last + 16 else room) - first) / 16
  }

  lemma TouchedNone(address: nat, length: nat, size: nat)
    requires (address + length) % TWO32 < address
    ensures Touched(address, length, size) == 0
  {
  }

  lemma TouchedUpTo(address: nat, length: nat, start: nat, size: nat)
    requires (address + length) % TWO32 >= address && address < TWO32 && length < TWO32 && start % 16 == 0
    requires BlockStart(address) <= start <= BlockEnd(address, length)
    requires start > BlockStart(address) ==> start <= size
    ensures start + 16 > size ==> 16 * Touched(address, length, size) == start - BlockStart(address)
  {
    hide BlockEnd;
    BlockEndAligned(address, length);
  }

  lemma TouchedAll(address: nat, length: nat, start: nat, size: nat)
    requires (address + length) % TWO32 >= address && address < TWO32 && length < TWO32
    requires start == BlockEnd(address, length) + 16 && BlockStart(address) <= start
    requires start > BlockStart(address) ==> start <= size
    ensures 16 * Touched(address, length, size) == start - BlockStart(address)
  {
    hide BlockEnd;
    BlockEndAligned(address, length);
  }

  lemma BlockEndAligned(address: nat, length: nat)
    requires address < TWO32 && length < TWO32 && (address + length) % TWO32 >= address
    ensures BlockEnd(address, length) % 16 == 0 && BlockEnd(address, length) < TWO32
    ensures BlockStart(address) % 16 == 0 && BlockStart(address) <= BlockEnd(address, length) + 16
    ensures length > 0 ==> BlockEnd(address, length) <= address + length - 1 < BlockEnd(address, length) + 16
  {
    if length == 0 {
      if address == 0 {
        assert BlockEnd(address, length) == 0xfffffff0;
      } else {
        assert (address + length + TWO32 - 1) % TWO32 == address - 1;
      }
    } else {
      assert address + length < TWO32;
      assert (address + length + TWO32 - 1) % TWO32 == address + length - 1;
    }
  }

  lemma AlignedRange(address: nat, length: nat)
    requires address % 16 == 0 && length % 16 == 0 && length > 0 && address + length < TWO32
    ensures BlockStart(address) == address && BlockEnd(address, length) + 16 == address + length
  {
    assert (address + length + TWO32 - 1) % TWO32 == address + length - 1;
  }

  /** w is v with d written at an address; nothing written at an address anywhere is no change. */
  ghost predicate Wrote(v: seq<bv8>, address: nat, d: seq<bv8>, w: seq<bv8>) {
    if d == [] then w == v else address + |d| <= |v| && w == Overlay(v, address, d)
  }

  /** v with d written into the block at `start`, at an offset. */
  ghost function Rewritten(v: seq<bv8>, start: nat, offset: nat, d: seq<bv8>): seq<bv8>
    requires start + 16 <= |v| && offset + |d| <= 16
  {
    Overlay(v, start, Overlay(Window(v, start), offset, d))
  }

  lemma WroteMore(v: seq<bv8>, address: nat, data: seq<bv8>, pos: nat, count: nat, start: nat, offset: nat, w: seq<bv8>)
    requires pos + count <= |data| && start + 16 <= |w| && offset + count <= 16
    requires Wrote(v, address, data[..pos], w) && (count > 0 ==> address + pos == start + offset)
    ensures Wrote(v, address, data[..pos + count], Rewritten(w, start, offset, data[pos..pos + count]))
  {
    if count == 0 {
      assert data[pos..pos + count] == [] && data[..pos + count] == data[..pos];
      RewriteNothing(w, start, offset);
    } else {
      var d := data[..pos + count];
      assert d[..pos] == data[..pos] && d[pos..pos + count] == data[pos..pos + count] && d[..pos + count] == d;
      if pos == 0 {
        assert w == Overlay(v, address, data[..pos]);
      }
      hide Overlay;
      OverlayStep(v, address, d, pos, count, start, offset, Window(w, start),
          Overlay(Window(w, start), offset, d[pos..pos + count]));
      OverlayIs(w, start, Overlay(Window(w, start), offset, d[pos..pos + count]));
    }
  }

  lemma OverlayIs(w: seq<bv8>, start: nat, p: seq<bv8>)
    requires start + |p| <= |w|
    ensures Overlay(w, start, p) == w[..start] + p + w[start + |p|..]
  {
  }

  lemma RewriteNothing(w: seq<bv8>, start: nat, offset: nat)
    requires start + 16 <= |w| && offset <= 16
    ensures Rewritten(w, start, offset, []) == w
  {
    assert Overlay(Window(w, start), offset, []) == Window(w, start);
  }

  lemma WholeBlock(start: nat, size: nat)
    requires start % 16 == 0 && start + 16 <= size
    ensures start + 16 <= 16 * (size / 16)
  {
  }

  function Window(s: seq<bv8>, start: nat): Block
    requires start + 16 <= |s|
  {
    s[start..start + 16]
  }

  lemma PlainSlice(memory: seq<bv8>, key: CombinedKey, start: nat)
    requires start % 16 == 0 && start + 16 <= 16 * (|memory| / 16)
    ensures Window(View(memory, key), start) == Plain(Window(memory, start), start, key)
  {
    hide Plain, ViewUpTo;
    ViewBlock(memory, key, |memory| / 16, start / 16);
  }

  lemma CipherSlice(a: seq<bv8>, c: seq<bv8>, key: CombinedKey, start: nat, p: Block)
    requires start % 16 == 0 && start + 16 <= 16 * (|a| / 16) && c == Overlay(a, start, Cipher(p, start, key))
    ensures View(c, key) == Overlay(View(a, key), start, p)
  {
    hide Cipher, ViewUpTo;
    ViewUpdate(a, c, key, |a| / 16, start / 16, p);
  }
}
