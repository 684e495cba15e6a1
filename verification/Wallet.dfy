/** Wallet records in the encrypted store, and the one record that is cached in RAM (wallet.c, prandom.c). */
module Wallet {
  import opened Arith
  import opened Xex
  import opened Storage

  datatype WalletErrors =
    | WALLET_NO_ERROR | WALLET_FULL | WALLET_EMPTY | WALLET_READ_ERROR | WALLET_WRITE_ERROR | WALLET_NOT_THERE
    | WALLET_NOT_LOADED | WALLET_INVALID_HANDLE | WALLET_RNG_FAILURE | WALLET_INVALID_WALLET_NUM
    | WALLET_INVALID_OPERATION | WALLET_ALREADY_EXISTS | WALLET_BAD_ADDRESS

  const UNENCRYPTED_SIZE: nat := 64
  const ENCRYPTED_SIZE: nat := 112
  const RECORD_SIZE: nat := 176
  const NAME_LENGTH: nat := 40
  const UUID_LENGTH: nat := 16
  const SEED_LENGTH: nat := 64
  const MAX_ADDRESSES: nat := 0xFFFFFFFE
  const BAD_ADDRESS_HANDLE: nat := 0xFFFFFFFF

  const VERSION_NOTHING_THERE: seq<bv8> := [0, 0, 0, 0]
  const VERSION_UNENCRYPTED: seq<bv8> := [2, 0, 0, 0]
  const VERSION_IS_ENCRYPTED: seq<bv8> := [3, 0, 0, 0]

  // ----- records -----

  /** A wallet record as it lies in memory. */
  datatype Record = Record(unencrypted: seq<bv8>, encrypted: seq<bv8>) {
    predicate Sized() {
      |unencrypted| == UNENCRYPTED_SIZE && |encrypted| == ENCRYPTED_SIZE
    }

    function Version(): seq<bv8>
      requires Sized()
    {
      unencrypted[..4]
    }

    function Uuid(): seq<bv8>
      requires Sized()
    {
      unencrypted[48..64]
    }

    function NumAddresses(): nat
      requires Sized()
    {
      Read32(encrypted)
    }

    function Seed(): seq<bv8>
      requires Sized()
    {
      encrypted[16..80]
    }

    function Checksum(): seq<bv8>
      requires Sized()
    {
      encrypted[80..112]
    }

    /** Everything but the checksum. */
    function Contents(): seq<bv8>
      requires Sized()
    {
      unencrypted + encrypted[..80]
    }

    predicate IsHidden()
      requires Sized()
    {
      Version() == VERSION_NOTHING_THERE
    }
  }

  /** SHA-256, PBKDF2, the random number generator and the key generator, as far as the wallet can tell. */
  datatype Primitives = Primitives(
    sha256: seq<bv8> -> seq<bv8>,
    pbkdf2: (seq<bv8>, seq<bv8>) -> seq<bv8>,
    random: nat -> seq<bv8>,
    randomFails: nat -> bool,
    degenerate: seq<bv8> -> bool,
    publicKey: seq<bv8> -> seq<bv8>,
    infinite: seq<bv8> -> bool,
    child: (seq<bv8>, seq<bv8>, nat) -> seq<bv8>)

  ghost predicate Proper(prim: Primitives) {
    && (forall x: seq<bv8> :: |prim.sha256(x)| == 32)
    && (forall p: seq<bv8>, u: seq<bv8> :: |prim.pbkdf2(p, u)| == 64)
    && (forall n: nat :: |prim.random(n)| == 32)
  }

  const NO_PASSWORD: seq<bv8> := seq(64, _ => 0)

  /** What deriveAndSetEncryptionKey() computes; an empty password means no encryption. */
  function DerivedBytes(prim: Primitives, uuid: seq<bv8>, password: seq<bv8>): seq<bv8> {
    if password == [] then NO_PASSWORD else prim.pbkdf2(password, uuid)
  }

  ghost function DerivedKey(prim: Primitives, uuid: seq<bv8>, password: seq<bv8>): CombinedKey
    requires Proper(prim)
  {
    DerivedBytes(prim, uuid, password)[..32]
  }

  /** A version that means something, and a checksum that is right. */
  ghost predicate Genuine(r: Record, prim: Primitives) {
    && r.Sized()
    && (r.Version() == VERSION_NOTHING_THERE || r.Version() == VERSION_UNENCRYPTED
        || r.Version() == VERSION_IS_ENCRYPTED)
    && r.Checksum() == prim.sha256(r.Contents())
  }

  /** A place for a record: aligned to blocks and inside the partition. */
  predicate Slot(base: nat, size: nat) {
    base % RECORD_SIZE == 0 && base % 16 == 0 && base + RECORD_SIZE <= 16 * (size / 16) && size <= 0xfffffff0
  }

  lemma SlotOf(spec: nat, size: nat)
    requires spec < size / RECORD_SIZE && size <= 0xfffffff0
    ensures Slot(spec * RECORD_SIZE, size) && spec * RECORD_SIZE < TWO32
  {
    RoomFor(spec, size);
    BlockMultiple(11 * spec, size);
  }

  lemma SlotInside(base: nat, size: nat)
    requires Slot(base, size)
    ensures base % RECORD_SIZE == 0 && base % 4 == 0 && base + RECORD_SIZE <= size
  {
  }

  lemma RoomFor(spec: nat, size: nat)
    requires spec < size / 176
    ensures spec * 176 + 176 <= size && (spec * 176) % 176 == 0 && spec * 176 == 16 * (11 * spec)
  {
  }

  lemma BlockMultiple(n: nat, size: nat)
    requires 16 * n + 176 <= size
    ensures (16 * n) % 16 == 0 && 16 * n + 176 <= 16 * (size / 16)
  {
  }

  ghost function RecordAt(memory: seq<bv8>, key: CombinedKey, base: nat): (r: Record)
    requires Slot(base, |memory|)
    ensures r.Sized()
  {
    Record(memory[base..base + 64], View(memory, key)[base + 64..base + 176])
  }

  /** The record that a password opens at a slot: the key depends on the UUID that is stored there. */
  ghost function RecordFor(memory: seq<bv8>, prim: Primitives, base: nat, password: seq<bv8>): (r: Record)
    requires Slot(base, |memory|) && Proper(prim)
    ensures r.Sized()
  {
    RecordAt(memory, DerivedKey(prim, memory[base + 48..base + 64], password), base)
  }

  /** A password opens a wallet at a slot. */
  ghost predicate Opens(memory: seq<bv8>, prim: Primitives, base: nat, password: seq<bv8>) {
    Slot(base, |memory|) && Proper(prim) && Genuine(RecordFor(memory, prim, base, password), prim)
  }

  /** Bytes outside a slot do not matter to what is stored in it, whatever the key or password. */
  lemma RecordIsLocal(a: seq<bv8>, b: seq<bv8>, key: CombinedKey, base: nat)
    requires |a| == |b| && Slot(base, |a|) && a[base..base + 176] == b[base..base + 176]
    ensures RecordAt(a, key, base) == RecordAt(b, key, base)
  {
    hide View;
    assert a[base..base + 64] == a[base..base + 176][..64] && b[base..base + 64] == b[base..base + 176][..64];
    assert a[base + 64..base + 176] == a[base..base + 176][64..]
        && b[base + 64..base + 176] == b[base..base + 176][64..];
    ViewIsLocal(a, b, key, base + 64, 7);
  }

  /** An operation on one slot leaves every other slot's wallets as they were: same passwords, same records. */
  lemma OtherSlotsUntouched(a: seq<bv8>, b: seq<bv8>, prim: Primitives, base: nat, other: nat, password: seq<bv8>)
    requires Slot(base, |a|) && Slot(other, |a|) && base != other && Proper(prim)
    requires SameOutside(a, b, base, base + RECORD_SIZE)
    ensures a[other..other + RECORD_SIZE] == b[other..other + RECORD_SIZE]
    ensures RecordFor(a, prim, other, password) == RecordFor(b, prim, other, password)
  {
    hide View;
    SlotsApart(base, other, |a|);
    assert a[other..other + 176] == b[other..other + 176];
    SlotRecord(a, b, prim, other, password);
  }

  lemma SlotsApart(a: nat, b: nat, size: nat)
    requires Slot(a, size) && Slot(b, size) && a != b
    ensures a + RECORD_SIZE <= b || b + RECORD_SIZE <= a
  {
    var i, j := a / RECORD_SIZE, b / RECORD_SIZE;
    assert a == RECORD_SIZE * i && b == RECORD_SIZE * j;
  }

  // ----- the wallet in RAM -----

  class Wallets {
    const store: Store
    const prim: Primitives
    /** current_wallet */
    var current: Record
    var walletLoaded: bool
    var isHiddenWallet: bool
    var walletNvAddress: nat
    /** 0 until it has been computed. */
    var numWallets: nat
    /** The public key of the parent of all keys of the loaded wallet. */
    var cachedParentPublicKey: seq<bv8>
    var cachedParentPublicKeyValid: bool
    /** How often the random number generator has been asked. */
    var draws: nat
    /** The password that the encryption key in RAM was derived from. */
    ghost var password: seq<bv8>

    constructor (store0: Store, prim0: Primitives)
      requires store0.Valid() && store0.NoFaults() && Proper(prim0)
      ensures store == store0 && prim == prim0 && Valid() && !walletLoaded
    {
      store, prim := store0, prim0;
      current := Record(seq(64, _ => 0), seq(112, _ => 0));
      walletLoaded, isHiddenWallet, walletNvAddress, numWallets := false, false, 0, 0;
      cachedParentPublicKey, cachedParentPublicKeyValid, draws, password := [], false, 0, [];
    }

    ghost predicate Shape()
      reads `current, `numWallets
    {
      && store.Valid() && store.NoFaults() && Proper(prim) && current.Sized()
      && (numWallets == 0 || numWallets == store.accounts.Length / RECORD_SIZE)
    }

    /** The loaded record is what the current key decrypts at its slot; it is genuine, and the key fits the password. */
    ghost predicate LoadedRight()
      requires Shape()
      reads `current, `numWallets, `isHiddenWallet, `walletNvAddress, `password, store.accounts, store.key
    {
      && Slot(walletNvAddress, store.accounts.Length)
      && current == RecordAt(store.accounts[..], store.key[..], walletNvAddress)
      && Genuine(current, prim) && isHiddenWallet == current.IsHidden()
      && store.key[..] == DerivedKey(prim, current.Uuid(), password)
    }

    ghost predicate Valid()
      reads this, store.accounts, store.key
    {
      && Shape()
      && (walletLoaded ==> LoadedRight())
      && (cachedParentPublicKeyValid ==> walletLoaded && cachedParentPublicKey == prim.publicKey(current.Seed()))
    }

    /** The SHA-256 of the current record, skipping the checksum field. */
    method CalculateWalletChecksum() returns (hash: seq<bv8>)
      requires current.Sized()
      ensures hash == prim.sha256(current.Contents())
    {
      var bytes, fed: seq<bv8> := current.unencrypted + current.encrypted, [];
      var i := 0;
      while i < RECORD_SIZE
        invariant i <= RECORD_SIZE && fed == (if i <= 144 then bytes[..i] else bytes[..144])
        invariant i <= 144 || i == RECORD_SIZE
      {
        if i == 144 {
          i := i + 32;
        }
        if i < RECORD_SIZE {
          fed := fed + [bytes[i]];
        }
        i := if i < RECORD_SIZE then i + 1 else i;
      }
      assert bytes[..144] == current.Contents();
      hash := prim.sha256(fed);
    }

    /** Loads whatever is at a slot into the current record. */
    method ReadWalletRecord(base: nat) returns (r: WalletErrors)
      requires Shape() && Slot(base, store.accounts.Length)
      modifies `current, store`accesses
      ensures Shape() && r.WALLET_NO_ERROR? && current == RecordAt(store.accounts[..], store.key[..], base)
    {
      hide View;
      var u := new bv8[UNENCRYPTED_SIZE];
      var e := new bv8[ENCRYPTED_SIZE];
      var nv := store.NonVolatileRead(u, base, UNENCRYPTED_SIZE);
      if !nv.NV_NO_ERROR? {
        return WALLET_READ_ERROR;
      }
      AddressableIff(base + UNENCRYPTED_SIZE, ENCRYPTED_SIZE, store.accounts.Length);
      nv := store.EncryptedNonVolatileRead(e, base + UNENCRYPTED_SIZE, ENCRYPTED_SIZE);
      if !nv.NV_NO_ERROR? {
        return WALLET_READ_ERROR;
      }
      current := Record(u[..], e[..]);
      r := WALLET_NO_ERROR;
      assert u[..] == u[..64] && e[..] == e[..112];
      assert store.accounts[base..base + 64] == store.accounts[..][base..base + 64];
    }

    /** Stores the current record at a slot. */
    method WriteCurrentWalletRecord(base: nat) returns (r: WalletErrors)
      requires Shape() && Slot(base, store.accounts.Length)
      modifies store.accounts, store`accesses
      ensures Shape() && r.WALLET_NO_ERROR?
      ensures RecordAt(store.accounts[..], store.key[..], base) == current
      ensures SameOutside(old(store.accounts[..]), store.accounts[..], base, base + RECORD_SIZE)
    {
      hide View, Overlay, SameOutside, Wrote, BlockStart, BlockEnd;
      var u := ToArray(current.unencrypted);
      var e := ToArray(current.encrypted);
      assert u[..64] == u[..] && e[..112] == e[..];
      ghost var was := store.accounts[..];
      var nv := store.NonVolatileWrite(u, base, UNENCRYPTED_SIZE);
      if !nv.NV_NO_ERROR? {
        return WALLET_WRITE_ERROR;
      }
      ghost var between := store.accounts[..];
      AddressableIff(base + UNENCRYPTED_SIZE, ENCRYPTED_SIZE, store.accounts.Length);
      ghost var written;
      nv, written := store.EncryptedNonVolatileWrite(e, base + UNENCRYPTED_SIZE, ENCRYPTED_SIZE);
      if !nv.NV_NO_ERROR? {
        return WALLET_WRITE_ERROR;
      }
      RecordWritten(was, between, store.accounts[..], store.key[..], base, current);
      return WALLET_NO_ERROR;
    }

    method UninitWallet()
      requires Shape()
      modifies `current, `walletLoaded, `isHiddenWallet, `walletNvAddress, `cachedParentPublicKey,
          `cachedParentPublicKeyValid
      ensures Valid() && !walletLoaded && !isHiddenWallet && !cachedParentPublicKeyValid
    {
      cachedParentPublicKey, cachedParentPublicKeyValid := [], false;
      walletLoaded, isHiddenWallet, walletNvAddress := false, false, 0;
      current := Record(seq(64, _ => 0), seq(112, _ => 0));
    }

    method GetNumberOfWallets() returns (n: nat)
      requires Shape()
      modifies `numWallets
      ensures Shape() && n == numWallets == store.accounts.Length / RECORD_SIZE
    {
      if numWallets == 0 {
        numWallets := store.accounts.Length / RECORD_SIZE;
      }
      n := numWallets;
    }

    method DeriveAndSetEncryptionKey(uuid: seq<bv8>, pw: seq<bv8>)
      requires Shape()
      modifies store.key, `password
      ensures store.key[..] == DerivedKey(prim, uuid, pw) && password == pw
    {
      var derived := ToArray(DerivedBytes(prim, uuid, pw));
      store.SetEncryptionKey(derived);
      assert derived[..32] == derived[..][..32];
      password := pw;
    }

    /** Loads the record at a slot into the current record, under the key that a password gives there. */
    method OpenSlot(base: nat, pw: seq<bv8>)
      requires Shape() && Slot(base, store.accounts.Length)
      modifies `current, `password, store.key, store`accesses
      ensures Shape() && current == RecordFor(store.accounts[..], prim, base, pw)
      ensures current == RecordAt(store.accounts[..], store.key[..], base)
      ensures store.key[..] == DerivedKey(prim, current.Uuid(), pw) && password == pw
    {
      hide View;
      var uuid := new bv8[UUID_LENGTH];
      var nv := store.NonVolatileRead(uuid, base + 48, UUID_LENGTH);
      assert uuid[..] == uuid[..16];
      assert store.accounts[base + 48..base + 64] == store.accounts[..][base + 48..base + 64];
      DeriveAndSetEncryptionKey(uuid[..], pw);
      var r := ReadWalletRecord(base);
      UuidSlice(store.accounts[..], store.key[..], base);
    }

    /**
     Loads the wallet that a password opens. With room for no wallet at all, the error code says that nothing went
     wrong although nothing was loaded.
     */
    method InitWallet(spec: nat, pw: seq<bv8>) returns (r: WalletErrors)
      requires Shape()
      modifies `current, `walletLoaded, `isHiddenWallet, `walletNvAddress, `cachedParentPublicKey,
               `cachedParentPublicKeyValid, `numWallets, `password, store.key, store`accesses
      ensures Valid()
      ensures var n := store.accounts.Length / RECORD_SIZE; var base := spec * RECORD_SIZE;
              && (walletLoaded <==> spec < n && Opens(store.accounts[..], prim, base, pw))
              && (walletLoaded ==> walletNvAddress == base && password == pw
                                   && current == RecordFor(store.accounts[..], prim, base, pw))
              && r == if walletLoaded || n == 0 then WALLET_NO_ERROR
                      else if spec >= n then WALLET_INVALID_WALLET_NUM else WALLET_NOT_THERE
    {
      hide View;
      UninitWallet();
      var n := GetNumberOfWallets();
      if n == 0 {
        return WALLET_NO_ERROR;
      }
      if spec >= n {
        return WALLET_INVALID_WALLET_NUM;
      }
      SlotOf(spec, store.accounts.Length);
      var base := spec * RECORD_SIZE;
      walletNvAddress := base;
      OpenSlot(base, pw);
      if current.Version() == VERSION_NOTHING_THERE {
        isHiddenWallet := true;
      } else if current.Version() == VERSION_UNENCRYPTED || current.Version() == VERSION_IS_ENCRYPTED {
        isHiddenWallet := false;
      } else {
        return WALLET_NOT_THERE;
      }
      var hash := CalculateWalletChecksum();
      if current.Checksum() != hash {
        return WALLET_NOT_THERE;
      }
      walletLoaded := true;
      return WALLET_NO_ERROR;
    }

    method GetRandom256() returns (failed: bool, bytes: seq<bv8>)
      requires Shape()
      modifies `draws
      ensures failed == prim.randomFails(old(draws)) && bytes == prim.random(old(draws)) && |bytes| == 32
      ensures draws == old(draws) + 1
    {
      failed, bytes := prim.randomFails(draws), prim.random(draws);
      draws := draws + 1;
    }

    /** Marks the current record as encrypted or not, by the key. A hidden wallet must not be marked. */
    method UpdateWalletVersion() returns (r: WalletErrors)
      requires Shape()
      modifies `current
      ensures Shape() && (r.WALLET_NO_ERROR? <==> !isHiddenWallet) && (isHiddenWallet ==> current == old(current))
      ensures !isHiddenWallet ==>
                && current.encrypted == old(current).encrypted
                && current.unencrypted[4..] == old(current).unencrypted[4..]
                && current.Version() == Marking(store.key[..])
    {
      if isHiddenWallet {
        return WALLET_INVALID_OPERATION;
      }
      var nonZero := store.IsEncryptionKeyNonZero();
      var version := if nonZero then VERSION_IS_ENCRYPTED else VERSION_UNENCRYPTED;
      assert version == Marking(store.key[..]);
      current := current.(unencrypted := version + current.unencrypted[4..]);
      return WALLET_NO_ERROR;
    }

    /** Seals the current record with its checksum and stores it. */
    method Commit(base: nat) returns (r: WalletErrors)
      requires Shape() && Slot(base, store.accounts.Length)
      modifies `current, store.accounts, store`accesses
      ensures Shape() && r.WALLET_NO_ERROR? && current == Sealed(old(current), prim)
      ensures RecordAt(store.accounts[..], store.key[..], base) == current
      ensures SameOutside(old(store.accounts[..]), store.accounts[..], base, base + RECORD_SIZE)
    {
      hide View, SameOutside;
      var hash := CalculateWalletChecksum();
      current := current.(encrypted := current.encrypted[..80] + hash);
      r := WriteCurrentWalletRecord(base);
    }

    /** All that must hold of the loaded wallet before its record is sealed and stored. */
    ghost predicate Ready()
      reads this, store.key
    {
      && Shape() && walletLoaded && Slot(walletNvAddress, store.accounts.Length)
      && isHiddenWallet == current.IsHidden()
      && (isHiddenWallet || current.Version() == VERSION_UNENCRYPTED || current.Version() == VERSION_IS_ENCRYPTED)
      && store.key[..] == DerivedKey(prim, current.Uuid(), password)
      && (cachedParentPublicKeyValid ==> cachedParentPublicKey == prim.publicKey(current.Seed()))
    }

    lemma LoadedIsReady()
      requires Valid() && walletLoaded
      ensures Ready()
    {
      hide View, RecordAt;
    }

    /** Seals and stores the loaded record. */
    method Save() returns (r: WalletErrors)
      requires Ready()
      modifies `current, store.accounts, store`accesses
      ensures Valid() && r.WALLET_NO_ERROR? && current == Sealed(old(current), prim)
      ensures SameOutside(old(store.accounts[..]), store.accounts[..], walletNvAddress, walletNvAddress + RECORD_SIZE)
    {
      hide View, SameOutside, Sealed, RecordAt, Read32;
      ghost var was := current;
      r := Commit(walletNvAddress);
      SealedKeeps(was, prim);
    }

    /** Sets the key that a password gives and marks the record accordingly, unless it is hidden. */
    method Rekey(pw: seq<bv8>)
      requires Ready()
      modifies `current, `password, store.key
      ensures Ready() && password == pw && SameWallet(old(current), current)
      ensures isHiddenWallet ==> current.unencrypted == old(current).unencrypted
      ensures !isHiddenWallet ==> current.Version() == Marking(DerivedKey(prim, current.Uuid(), pw))
    {
      hide View, Read32, DerivedKey;
      ghost var was := current;
      DeriveAndSetEncryptionKey(current.Uuid(), pw);
      if !isHiddenWallet {
        var r := UpdateWalletVersion();
        UuidKept(was, current);
      }
    }

    /**
     A new key for the loaded wallet. Seed, addresses, name and UUID stay; a hidden wallet's open part stays whole.
     */
    method ChangeEncryptionKey(pw: seq<bv8>) returns (r: WalletErrors)
      requires Valid()
      modifies `current, `password, store.key, store.accounts, store`accesses
      ensures Valid()
      ensures r == if walletLoaded then WALLET_NO_ERROR else WALLET_NOT_LOADED
      ensures !walletLoaded ==> store.accounts[..] == old(store.accounts[..])
      ensures walletLoaded ==>
                && password == pw && SameWallet(old(current), current)
                && (!isHiddenWallet ==> current.Version() == Marking(DerivedKey(prim, current.Uuid(), pw)))
                && (isHiddenWallet ==> current.unencrypted == old(current).unencrypted)
                && SameOutside(old(store.accounts[..]), store.accounts[..], walletNvAddress,
                    walletNvAddress + RECORD_SIZE)
    {
      hide View, SameOutside, Read32, RecordAt, Sealed, LoadedRight;
      if !walletLoaded {
        return WALLET_NOT_LOADED;
      }
      LoadedIsReady();
      Rekey(pw);
      SealedKeeps(current, prim);
      r := Save();
    }

    /** A new name for the loaded wallet; a hidden wallet must not be named. */
    method ChangeWalletName(name: seq<bv8>) returns (r: WalletErrors)
      requires Valid() && |name| == NAME_LENGTH
      modifies `current, store.accounts, store`accesses
      ensures Valid()
      ensures r == if !walletLoaded then WALLET_NOT_LOADED
                   else if isHiddenWallet then WALLET_INVALID_OPERATION else WALLET_NO_ERROR
      ensures !r.WALLET_NO_ERROR? ==> store.accounts[..] == old(store.accounts[..]) && current == old(current)
      ensures r.WALLET_NO_ERROR? ==>
                && Renamed(old(current), current, name)
                && SameOutside(old(store.accounts[..]), store.accounts[..], walletNvAddress,
                    walletNvAddress + RECORD_SIZE)
    {
      hide View, SameOutside, Read32, RecordAt, Sealed, LoadedRight;
      if !walletLoaded {
        return WALLET_NOT_LOADED;
      }
      if isHiddenWallet {
        return WALLET_INVALID_OPERATION;
      }
      LoadedIsReady();
      ghost var was := current;
      current := current.(unencrypted := current.unencrypted[..8] + name + current.unencrypted[48..]);
      assert current.Uuid() == was.Uuid() && current.Version() == was.Version();
      SealedKeeps(current, prim);
      r := Save();
    }

    /** generateDeterministic256() for the loaded seed, filling the cache if it is empty. */
    method GenerateDeterministic256(num: nat) returns (failed: bool, key: seq<bv8>)
      requires Valid() && walletLoaded
      modifies `cachedParentPublicKey, `cachedParentPublicKeyValid
      ensures Valid() && failed == prim.degenerate(current.Seed())
      ensures !failed ==> key == prim.child(prim.publicKey(current.Seed()), current.Seed(), num)
    {
      hide LoadedRight;
      if prim.degenerate(current.Seed()) {
        return true, [];
      }
      if !cachedParentPublicKeyValid {
        cachedParentPublicKey, cachedParentPublicKeyValid := prim.publicKey(current.Seed()), true;
      }
      return false, prim.child(cachedParentPublicKey, current.Seed(), num);
    }

    /** The private key of a handle depends on the loaded seed and the handle alone, whatever was cached before. */
    method GetPrivateKey(ah: nat) returns (r: WalletErrors, key: seq<bv8>)
      requires Valid()
      modifies `cachedParentPublicKey, `cachedParentPublicKeyValid
      ensures Valid()
      ensures r == if !walletLoaded then WALLET_NOT_LOADED
                   else if current.NumAddresses() == 0 then WALLET_EMPTY
                   else if ah == 0 || ah > current.NumAddresses() || ah == BAD_ADDRESS_HANDLE then WALLET_INVALID_HANDLE
                   else if prim.degenerate(current.Seed()) then WALLET_RNG_FAILURE else WALLET_NO_ERROR
      ensures r.WALLET_NO_ERROR? ==> key == prim.child(prim.publicKey(current.Seed()), current.Seed(), ah)
    {
      hide LoadedRight, Read32;
      key := [];
      if !walletLoaded {
        return WALLET_NOT_LOADED, key;
      }
      if current.NumAddresses() == 0 {
        return WALLET_EMPTY, key;
      }
      if ah == 0 || ah > current.NumAddresses() || ah == BAD_ADDRESS_HANDLE {
        return WALLET_INVALID_HANDLE, key;
      }
      var failed;
      failed, key := GenerateDeterministic256(ah);
      r := if failed then WALLET_RNG_FAILURE else WALLET_NO_ERROR;
    }

    /**
     Counts one more address and stores the count before the key is derived. The new handle is the new count, unless
     the seed gives degenerate keys: then the address is counted but the handle is bad.
     */
    method MakeNewAddress() returns (r: WalletErrors, handle: nat)
      requires Valid()
      modifies `current, `cachedParentPublicKey, `cachedParentPublicKeyValid, store.accounts, store`accesses
      ensures Valid()
      ensures !old(walletLoaded) || old(current).NumAddresses() >= 0xFFFFFFFE ==>
                && r == (if !walletLoaded then WALLET_NOT_LOADED else WALLET_FULL) && handle == BAD_ADDRESS_HANDLE
                && store.accounts[..] == old(store.accounts[..]) && current == old(current)
      ensures old(walletLoaded) && old(current).NumAddresses() < 0xFFFFFFFE ==>
                && current.NumAddresses() == old(current).NumAddresses() + 1 && current.Seed() == old(current).Seed()
                && current.unencrypted == old(current).unencrypted
                && current.encrypted[4..80] == old(current).encrypted[4..80]
                && SameOutside(old(store.accounts[..]), store.accounts[..], walletNvAddress,
                    walletNvAddress + RECORD_SIZE)
                && r == AddressError(prim, current.Seed(), current.NumAddresses())
                && handle == if r.WALLET_NO_ERROR? then current.NumAddresses() else BAD_ADDRESS_HANDLE
    {
      hide View, SameOutside, Read32, LoadedRight;
      handle := BAD_ADDRESS_HANDLE;
      if !walletLoaded {
        return WALLET_NOT_LOADED, handle;
      }
      if current.NumAddresses() >= MAX_ADDRESSES {
        return WALLET_FULL, handle;
      }
      CountOneMore();
      r := GetAddressAndPublicKey(current.NumAddresses());
      if r.WALLET_NO_ERROR? {
        handle := current.NumAddresses();
      }
    }

    method CountOneMore()
      requires Valid() && walletLoaded && current.NumAddresses() < MAX_ADDRESSES
      modifies `current, store.accounts, store`accesses
      ensures Valid() && current.NumAddresses() == old(current).NumAddresses() + 1
      ensures current.Seed() == old(current).Seed() && current.unencrypted == old(current).unencrypted
      ensures current.encrypted[4..80] == old(current).encrypted[4..80]
      ensures SameOutside(old(store.accounts[..]), store.accounts[..], walletNvAddress, walletNvAddress + RECORD_SIZE)
    {
      hide View, SameOutside, Read32, RecordAt, Sealed, LoadedRight, Put32;
      LoadedIsReady();
      ghost var was := current;
      var n := current.NumAddresses() + 1;
      current := current.(encrypted := Put32(n) + current.encrypted[4..]);
      Read32Put32(n, was.encrypted[4..]);
      assert current.encrypted[16..80] == was.encrypted[16..80];
      ghost var counted := current;
      assert counted.encrypted[4..80] == was.encrypted[4..80];
      SealedKeeps(current, prim);
      var r := Save();
      assert current.encrypted[4..80] == current.encrypted[..80][4..];
      assert counted.encrypted[4..80] == counted.encrypted[..80][4..];
    }

    /** The part of getAddressAndPublicKey() that can fail: the public key and address follow from the private key. */
    method GetAddressAndPublicKey(ah: nat) returns (r: WalletErrors)
      requires Valid()
      modifies `cachedParentPublicKey, `cachedParentPublicKeyValid
      ensures Valid()
      ensures walletLoaded && 1 <= ah <= current.NumAddresses() && ah != BAD_ADDRESS_HANDLE ==>
                r == AddressError(prim, current.Seed(), ah)
    {
      hide LoadedRight, Read32;
      var key;
      r, key := GetPrivateKey(ah);
      if r.WALLET_NO_ERROR? && prim.infinite(key) {
        r := WALLET_INVALID_HANDLE;
      }
    }

    /** Loading again with the password in use brings back the same record. */
    method Reload(spec: nat, pw: seq<bv8>) returns (r: WalletErrors)
      requires Valid() && walletLoaded && spec * RECORD_SIZE == walletNvAddress && pw == password
      modifies `current, `walletLoaded, `isHiddenWallet, `walletNvAddress, `cachedParentPublicKey,
               `cachedParentPublicKeyValid, `numWallets, `password, store.key, store`accesses
      ensures Valid() && r.WALLET_NO_ERROR? && walletLoaded && current == old(current)
      ensures walletNvAddress == old(walletNvAddress) && isHiddenWallet == old(isHiddenWallet)
    {
      hide View;
      SlotNumber(spec, store.accounts.Length);
      StoredOpens(store.accounts[..], store.key[..], prim, walletNvAddress, pw, current);
      r := InitWallet(spec, pw);
    }

    /** The UUID of a new wallet: the one that is there already for a hidden wallet, else a random one. */
    method ChooseUuid(makeHidden: bool) returns (failed: bool, uuid: seq<bv8>)
      requires Shape()
      modifies `draws
      ensures !failed ==> uuid == if makeHidden then current.Uuid() else prim.random(old(draws))[..16]
      ensures makeHidden ==> !failed && draws == old(draws)
      ensures !makeHidden ==> failed == prim.randomFails(old(draws)) && draws == old(draws) + 1
    {
      if makeHidden {
        return false, current.Uuid();
      }
      var bytes;
      failed, bytes := GetRandom256();
      uuid := bytes[..16];
    }

    method ChooseSeed(useSeed: bool, seed: seq<bv8>) returns (failed: bool, chosen: seq<bv8>)
      requires Shape() && (useSeed ==> |seed| == SEED_LENGTH)
      modifies `draws
      ensures !failed ==> chosen == NewSeed(prim, old(draws), useSeed, seed)
      ensures useSeed ==> !failed
      ensures !useSeed ==> failed == (prim.randomFails(old(draws)) || prim.randomFails(old(draws) + 1))
    {
      if useSeed {
        return false, seed;
      }
      var low, high;
      failed, low := GetRandom256();
      if failed {
        return failed, [];
      }
      failed, high := GetRandom256();
      chosen := low + high;
    }

    /** Fills in the open part of a new wallet that is not hidden. */
    method FillUnencrypted(name: seq<bv8>, uuid: seq<bv8>)
      requires Shape() && !isHiddenWallet && |name| == NAME_LENGTH && |uuid| == UUID_LENGTH
      modifies `current
      ensures Shape() && current.encrypted == old(current).encrypted
      ensures current.unencrypted == Marking(store.key[..]) + [0, 0, 0, 0] + name + uuid
    {
      var r := UpdateWalletVersion();
      var version := current.unencrypted[..4];
      current := current.(unencrypted := version + [0, 0, 0, 0] + name + uuid);
    }

    /** Fills in the encrypted part of a new wallet, all but the checksum. */
    method FillEncrypted(padding: seq<bv8>, seed: seq<bv8>)
      requires Shape() && |padding| == 32 && |seed| == SEED_LENGTH
      modifies `current
      ensures Shape() && current.unencrypted == old(current).unencrypted
      ensures current.encrypted[..80] == [0, 0, 0, 0] + padding[..8] + [0, 0, 0, 0] + seed
    {
      PutZero();
      hide Put32;
      var front := Put32(0) + padding[..8] + [0, 0, 0, 0] + seed;
      current := current.(encrypted := front + current.encrypted[80..]);
      assert current.encrypted[..80] == front;
    }

    /** Builds the record of a new wallet in RAM and sets its key; fails if the random number generator does. */
    method BuildWallet(name: seq<bv8>, useSeed: bool, seed: seq<bv8>, makeHidden: bool, pw: seq<bv8>)
        returns (failed: bool)
      requires Shape() && !isHiddenWallet && |name| == NAME_LENGTH && (useSeed ==> |seed| == SEED_LENGTH)
      requires current.Version() == VERSION_NOTHING_THERE
      modifies `current, `draws, `password, store.key
      ensures Shape()
      ensures !failed ==>
                && NewRecord(current, prim, old(draws), name, useSeed, seed, makeHidden, pw)
                && store.key[..] == DerivedKey(prim, current.Uuid(), pw)
                && (makeHidden ==> current.unencrypted == old(current).unencrypted)
      ensures failed <==> BuildFails(prim, old(draws), useSeed, makeHidden)
    {
      hide Read32, View, Put32;
      var uuid;
      failed, uuid := ChooseUuid(makeHidden);
      if failed {
        return;
      }
      DeriveAndSetEncryptionKey(uuid, pw);
      if !makeHidden {
        FillUnencrypted(name, uuid);
      }
      assert current.Uuid() == uuid;
      var padding, chosen;
      failed, padding := GetRandom256();
      if failed {
        return;
      }
      failed, chosen := ChooseSeed(useSeed, seed);
      if failed {
        return;
      }
      FillEncrypted(padding, chosen);
    }

    /** Builds a new wallet, stores it at a vacant slot and loads it. */
    method InstallWallet(spec: nat, name: seq<bv8>, useSeed: bool, seed: seq<bv8>, makeHidden: bool, pw: seq<bv8>)
      returns (r: WalletErrors)
      requires Valid() && !walletLoaded && !isHiddenWallet && |name| == NAME_LENGTH
               && (useSeed ==> |seed| == SEED_LENGTH)
      requires spec < store.accounts.Length / RECORD_SIZE && current.Version() == VERSION_NOTHING_THERE
      modifies this, store.accounts, store.key, store`accesses
      ensures Valid()
      ensures walletLoaded <==> r.WALLET_NO_ERROR?
      ensures r == if BuildFails(prim, old(draws), useSeed, makeHidden) then WALLET_RNG_FAILURE else WALLET_NO_ERROR
      ensures !walletLoaded ==> store.accounts[..] == old(store.accounts[..])
      ensures walletLoaded ==>
                && walletNvAddress == spec * RECORD_SIZE && password == pw
                && NewRecord(current, prim, old(draws), name, useSeed, seed, makeHidden, pw)
                && SameOutside(old(store.accounts[..]), store.accounts[..], walletNvAddress,
                    walletNvAddress + RECORD_SIZE)
                && (makeHidden ==> current.unencrypted == old(current).unencrypted)
    {
      hide View, SameOutside, NewRecord, BuildFails, Genuine, RecordFor, RecordAt, LoadedRight, Sealed;
      SlotOf(spec, store.accounts.Length);
      var base := spec * RECORD_SIZE;
      var failed := BuildWallet(name, useSeed, seed, makeHidden, pw);
      if failed {
        return WALLET_RNG_FAILURE;
      }
      SealedIsNew(current, prim, old(draws), name, useSeed, seed, makeHidden, pw);
      r := Commit(base);
      StoredOpens(store.accounts[..], store.key[..], prim, base, pw, current);
      r := InitWallet(spec, pw);
    }

    /**
     Creates a wallet in a free slot and loads it. Nothing outside the slot changes; making a hidden wallet changes
     nothing in its open part; if the slot is taken or there is no randomness, nothing changes at all.
     */
    method NewWallet(spec: nat, name: seq<bv8>, useSeed: bool, seed: seq<bv8>, makeHidden: bool, pw: seq<bv8>)
      returns (r: WalletErrors)
      requires Valid() && |name| == NAME_LENGTH && (useSeed ==> |seed| == SEED_LENGTH)
      modifies this, store.accounts, store.key, store`accesses
      ensures Valid()
      ensures var n, base := store.accounts.Length / RECORD_SIZE, spec * RECORD_SIZE;
              r == if n == 0 then WALLET_NO_ERROR
                   else if spec >= n then WALLET_INVALID_WALLET_NUM
                   else if !Vacant(old(store.accounts[..]), base) then WALLET_ALREADY_EXISTS
                   else if BuildFails(prim, old(draws), useSeed, makeHidden) then WALLET_RNG_FAILURE
                   else WALLET_NO_ERROR
      ensures walletLoaded <==> r.WALLET_NO_ERROR? && store.accounts.Length / RECORD_SIZE > 0
      ensures !walletLoaded ==> store.accounts[..] == old(store.accounts[..])
      ensures walletLoaded ==>
                && walletNvAddress == spec * RECORD_SIZE && password == pw
                && NewRecord(current, prim, old(draws), name, useSeed, seed, makeHidden, pw)
                && SameOutside(old(store.accounts[..]), store.accounts[..], walletNvAddress,
                    walletNvAddress + RECORD_SIZE)
                && (makeHidden ==> OpenPartIs(current, old(store.accounts[..]), walletNvAddress))
    {
      hide View, SameOutside, NewRecord, BuildFails, RecordAt, LoadedRight;
      UninitWallet();
      var n := GetNumberOfWallets();
      if n == 0 {
        return WALLET_NO_ERROR;
      }
      if spec >= n {
        return WALLET_INVALID_WALLET_NUM;
      }
      SlotOf(spec, store.accounts.Length);
      walletNvAddress := spec * RECORD_SIZE;
      r := ReadWalletRecord(walletNvAddress);
      OpenPart(store.accounts[..], store.key[..], walletNvAddress);
      if current.Version() != VERSION_NOTHING_THERE {
        return WALLET_ALREADY_EXISTS;
      }
      r := InstallWallet(spec, name, useSeed, seed, makeHidden, pw);
    }

    /** One pass of sanitising: all zeros, all ones, or random bytes, 32 at a time. */
    method SanitisePass(pass: nat, start: nat, length: nat) returns (r: WalletErrors)
      requires Shape() && start + length < TWO32
      modifies `draws, store.accounts, store`accesses
      ensures Shape() && SameOutside(old(store.accounts[..]), store.accounts[..], start, start + length)
      ensures r.WALLET_NO_ERROR? || r.WALLET_RNG_FAILURE? || r.WALLET_WRITE_ERROR?
      ensures r.WALLET_WRITE_ERROR? ==> start + length > store.accounts.Length
      ensures r.WALLET_RNG_FAILURE? ==> draws > old(draws) && prim.randomFails(draws - 1)
      ensures r.WALLET_NO_ERROR? ==>
                && Filled(store.accounts[..], start, length, pass, prim, old(draws))
                && draws == old(draws) + if pass >= 2 then Pieces(length) else 0
    {
      hide Overlay, SameOutside, Filled;
      ghost var was := store.accounts[..];
      Unchanged(was, start, start + length);
      NothingFilled(was, start, pass, prim, draws);
      var address, bytesWritten := start, 0;
      while bytesWritten < length
        invariant bytesWritten <= length && address == start + bytesWritten
        invariant bytesWritten % 32 == 0 || bytesWritten == length
        invariant draws == old(draws) + if pass >= 2 then Pieces(bytesWritten) else 0
        invariant Shape() && SameOutside(was, store.accounts[..], start, start + length)
        invariant Filled(store.accounts[..], start, bytesWritten, pass, prim, old(draws))
      {
        var content: seq<bv8> := if pass == 0 then seq(32, _ => 0) else seq(32, _ => 0xff);
        if pass >= 2 {
          var failed;
          failed, content := GetRandom256();
          if failed {
            return WALLET_RNG_FAILURE;
          }
        }
        var buffer := ToArray(content);
        var bytesToWrite := if length - bytesWritten > 32 then 32 else length - bytesWritten;
        ghost var before := store.accounts[..];
        var nv := store.NonVolatileWrite(buffer, address, bytesToWrite);
        if !nv.NV_NO_ERROR? {
          return WALLET_WRITE_ERROR;
        }
        assert buffer[..bytesToWrite] == content[..bytesToWrite];
        WriteInside(was, before, address, content[..bytesToWrite], start, start + length);
        FilledMore(before, start, bytesWritten, pass, prim, old(draws), content, bytesToWrite);
        address, bytesWritten := address + bytesToWrite, bytesWritten + bytesToWrite;
      }
      return WALLET_NO_ERROR;
    }

    /** Writes VERSION_NOTHING_THERE over every version field that lies in the area, and nothing over anything else. */
    method ClearVersions(start: nat, length: nat) returns (r: WalletErrors)
      requires Shape() && start + length < TWO32
      modifies store.accounts, store`accesses
      ensures Shape() && SameOutside(old(store.accounts[..]), store.accounts[..], start, start + length)
      ensures SameBetween(old(store.accounts[..]), store.accounts[..])
      ensures r.WALLET_NO_ERROR? || r.WALLET_WRITE_ERROR?
      ensures r.WALLET_WRITE_ERROR? ==> start + length > store.accounts.Length
      ensures r.WALLET_NO_ERROR? ==> Cleared(store.accounts[..], start, length, start + length)
    {
      hide Overlay, SameOutside, Cleared, SameBetween;
      ghost var was := store.accounts[..];
      Unchanged(was, start, start + length);
      var address := start / RECORD_SIZE * RECORD_SIZE;
      NoneCleared(was, start, length, address);
      var zero := new bv8[4](_ => 0);
      while address + 4 <= start + length
        invariant address % RECORD_SIZE == 0 && zero[..] == VERSION_NOTHING_THERE
        invariant Shape() && SameOutside(was, store.accounts[..], start, start + length)
        invariant SameBetween(was, store.accounts[..])
        invariant Cleared(store.accounts[..], start, length, address)
        decreases start + length - address
      {
        if address >= start {
          ghost var before := store.accounts[..];
          var nv := store.NonVolatileWrite(zero, address, 4);
          if !nv.NV_NO_ERROR? {
            return WALLET_WRITE_ERROR;
          }
          assert zero[..4] == zero[..];
          WriteInside(was, before, address, zero[..], start, start + length);
          WriteVersion(was, before, address, zero[..]);
          OneMoreCleared(before, start, length, address, zero[..]);
        } else {
          SkippedField(store.accounts[..], start, length, address);
        }
        address := address + RECORD_SIZE;
      }
      AllCleared(store.accounts[..], start, length, address);
      return WALLET_NO_ERROR;
    }

    /**
     Overwrites an area four times and clears the version fields in it. Nothing outside the area changes. On success
     the area holds the random bytes of the last pass, and zeros in the version fields.
     */
    method SanitiseNonVolatileStorage(start: nat, length: nat) returns (r: WalletErrors)
      requires Shape() && start < TWO32 && length < TWO32
      modifies `draws, store.accounts, store`accesses
      ensures Shape() && SameOutside(old(store.accounts[..]), store.accounts[..], start, start + length)
      ensures r.WALLET_NO_ERROR? ==> Cleared(store.accounts[..], start, length, start + length)
      ensures r.WALLET_NO_ERROR? ==>
                && Sanitised(store.accounts[..], start, length, prim, old(draws) + 1 + Pieces(length))
                && draws == old(draws) + 2 + 2 * Pieces(length)
      ensures r.WALLET_NO_ERROR? || r.WALLET_RNG_FAILURE? || r.WALLET_BAD_ADDRESS? || r.WALLET_WRITE_ERROR?
      ensures r.WALLET_BAD_ADDRESS? <==>
                && !prim.randomFails(old(draws))
                && (start > 0x10000000 || length > 0x10000000 || start % 4 != 0 || length % 4 != 0)
      ensures r.WALLET_WRITE_ERROR? ==> start + length > store.accounts.Length
      ensures r.WALLET_RNG_FAILURE? ==> draws > old(draws) && prim.randomFails(draws - 1)
    {
      hide Overlay, SameOutside, Cleared, Filled, SameBetween, Sanitised;
      ghost var was := store.accounts[..];
      Unchanged(was, start, start + length);
      var failed, pool := GetRandom256();
      if failed {
        return WALLET_RNG_FAILURE;
      }
      if start > 0x10000000 || length > 0x10000000 || start % 4 != 0 || length % 4 != 0 {
        return WALLET_BAD_ADDRESS;
      }
      ghost var drawn := draws;
      for pass := 0 to 4
        invariant Shape() && SameOutside(was, store.accounts[..], start, start + length)
        invariant draws == old(draws) + 1 + if pass <= 2 then 0 else (pass - 2) * Pieces(length)
        invariant pass == 4 ==>
                    Filled(store.accounts[..], start, length, 3, prim, old(draws) + 1 + Pieces(length))
      {
        ghost var before := store.accounts[..];
        r := SanitisePass(pass, start, length);
        SameTwice(was, before, store.accounts[..], start, start + length);
        if !r.WALLET_NO_ERROR? {
          return;
        }
      }
      failed, pool := GetRandom256();
      if failed {
        return WALLET_RNG_FAILURE;
      }
      ghost var before := store.accounts[..];
      r := ClearVersions(start, length);
      SameTwice(was, before, store.accounts[..], start, start + length);
      if r.WALLET_NO_ERROR? {
        SanitisedNow(before, store.accounts[..], start, length, prim, old(draws) + 1 + Pieces(length));
      }
    }

    /** Unloads whatever is loaded and wipes one slot. On success nothing but a hidden wallet could be there. */
    method DeleteWallet(spec: nat) returns (r: WalletErrors)
      requires Valid()
      modifies this, store.accounts, store`accesses
      ensures Valid()
      ensures var n, base := store.accounts.Length / RECORD_SIZE, spec * RECORD_SIZE;
              if n == 0 then
                && r.WALLET_NO_ERROR? && store.accounts[..] == old(store.accounts[..])
                && walletLoaded == old(walletLoaded) && walletNvAddress == old(walletNvAddress)
              else if spec >= n then
                && r.WALLET_INVALID_WALLET_NUM? && store.accounts[..] == old(store.accounts[..])
                && walletLoaded == old(walletLoaded) && walletNvAddress == old(walletNvAddress)
              else
                && !walletLoaded && SameOutside(old(store.accounts[..]), store.accounts[..], base, base + RECORD_SIZE)
                && (r.WALLET_NO_ERROR? ==>
                      && Vacant(store.accounts[..], base)
                      && Sanitised(store.accounts[..], base, RECORD_SIZE, prim, old(draws) + 1 + Pieces(RECORD_SIZE)))
                && (!r.WALLET_NO_ERROR? ==>
                      base > 0x10000000 || (r.WALLET_RNG_FAILURE? && draws > old(draws) && prim.randomFails(draws - 1)))
    {
      hide View, SameOutside, Cleared, Sanitised, Slot, Pieces;
      var n := GetNumberOfWallets();
      if n == 0 {
        return WALLET_NO_ERROR;
      }
      if spec >= n {
        return WALLET_INVALID_WALLET_NUM;
      }
      UninitWallet();
      SlotOf(spec, store.accounts.Length);
      var base := spec * RECORD_SIZE;
      SlotInside(base, store.accounts.Length);
      r := SanitiseNonVolatileStorage(base, RECORD_SIZE);
      if r.WALLET_NO_ERROR? {
        ClearedAt(store.accounts[..], base, RECORD_SIZE, base);
      }
    }

    /**
     The handler of FormatWalletArea: if the new entropy pool cannot be stored nothing is done; else wipe the partition
     and force the wallet to unload, whatever came of it.
     */
    method Format(poolFails: bool) returns (r: WalletErrors)
      requires Valid()
      modifies this, store.accounts, store`accesses
      ensures Valid()
      ensures poolFails ==>
                && r.WALLET_RNG_FAILURE? && store.accounts[..] == old(store.accounts[..]) && current == old(current)
                && walletLoaded == old(walletLoaded) && walletNvAddress == old(walletNvAddress)
      ensures !poolFails ==> !walletLoaded
      ensures r.WALLET_NO_ERROR? ==>
                && Cleared(store.accounts[..], 0, store.accounts.Length, store.accounts.Length)
                && Sanitised(store.accounts[..], 0, store.accounts.Length, prim,
                    old(draws) + 1 + Pieces(store.accounts.Length))
    {
      hide View, SameOutside, Cleared, Sanitised, LoadedRight;
      if poolFails {
        return WALLET_RNG_FAILURE;
      }
      r := SanitiseNonVolatileStorage(0, store.accounts.Length);
      UninitWallet();
    }

    /** Commands that work on the loaded wallet and write it back. */
    method StepLoaded(c: Command, ghost base: nat)
      requires Valid() && WellFormed(c) && (c.NewAddress? || c.ChangeKey? || c.ChangeName?)
      requires Slot(base, store.accounts.Length)
      modifies this, store.accounts, store.key, store`accesses
      ensures Valid()
      ensures Vacant(old(store.accounts[..]), base) ==> SameOpenPart(old(store.accounts[..]), store.accounts[..], base)
      ensures old(Elsewhere(base)) ==> Elsewhere(base) && SameSlot(old(store.accounts[..]), store.accounts[..], base)
    {
      hide View, SameOutside, SameOpenPart, SameSlot, Vacant, Slot, SameWallet, Renamed, Read32, LoadedRight;
      ghost var was, r0, at := store.accounts[..], current, walletNvAddress;
      ghost var hidden := isHiddenWallet;
      Untouched(was, base);
      if walletLoaded {
        LoadedOpenPart();
      }
      var r;
      match c {
        case NewAddress =>
          var handle;
          r, handle := MakeNewAddress();
        case ChangeKey(pw) =>
          r := ChangeEncryptionKey(pw);
        case ChangeName(name) =>
          r := ChangeWalletName(name);
      }
      if walletLoaded && store.accounts[..] != was {
        LoadedOpenPart();
        OpenPartKept(was, store.accounts[..], at, base, r0, current, hidden);
        if at != base {
          OtherSlot(was, store.accounts[..], at, base);
        }
      }
    }

    lemma LoadedOpenPart()
      requires Valid() && walletLoaded
      ensures Slot(walletNvAddress, store.accounts.Length)
      ensures OpenPartIs(current, store.accounts[..], walletNvAddress)
      ensures isHiddenWallet <==> Vacant(store.accounts[..], walletNvAddress)
    {
      hide View, RecordAt;
      OpenPart(store.accounts[..], store.key[..], walletNvAddress);
    }

    method StepNew(c: Command, ghost base: nat)
      requires Valid() && WellFormed(c) && c.New? && Slot(base, store.accounts.Length)
      modifies this, store.accounts, store.key, store`accesses
      ensures Valid()
      ensures !Reveals(c, base) ==> SameOpenPart(old(store.accounts[..]), store.accounts[..], base)
      ensures !WorksAt(c, base) ==> Elsewhere(base) && SameSlot(old(store.accounts[..]), store.accounts[..], base)
    {
      hide View, SameOutside, SameOpenPart, SameSlot, Vacant, Slot, Read32, LoadedRight, NewRecord, BuildFails;
      ghost var was := store.accounts[..];
      Untouched(was, base);
      var r := NewWallet(c.number, c.name, c.useSeed, c.seed, c.makeHidden, c.pw);
      if walletLoaded {
        LoadedOpenPart();
        NewOpenPart(was, store.accounts[..], walletNvAddress, base, current, c.makeHidden);
        if walletNvAddress != base {
          OtherSlot(was, store.accounts[..], walletNvAddress, base);
        }
      }
    }

    method StepDelete(c: Command, ghost base: nat)
      requires Valid() && c.Delete? && Slot(base, store.accounts.Length)
      modifies this, store.accounts, store`accesses
      ensures Valid()
      ensures !Reveals(c, base) ==> SameOpenPart(old(store.accounts[..]), store.accounts[..], base)
      ensures old(Elsewhere(base)) && !WorksAt(c, base) ==>
                Elsewhere(base) && SameSlot(old(store.accounts[..]), store.accounts[..], base)
    {
      hide View, SameOutside, SameOpenPart, SameSlot, Vacant, Slot, LoadedRight;
      ghost var was := store.accounts[..];
      Untouched(was, base);
      if c.number < store.accounts.Length / RECORD_SIZE {
        SlotOf(c.number, store.accounts.Length);
      }
      var r := DeleteWallet(c.number);
      if c.number < store.accounts.Length / RECORD_SIZE && c.number * RECORD_SIZE != base {
        OtherOpenPart(was, store.accounts[..], c.number * RECORD_SIZE, base);
        OtherSlot(was, store.accounts[..], c.number * RECORD_SIZE, base);
      }
    }

    /** No wallet is loaded from a slot. */
    ghost predicate Elsewhere(base: nat)
      reads `walletLoaded, `walletNvAddress
    {
      walletLoaded ==> walletNvAddress != base
    }

    /**
     Any command keeps the invariant; and unless it formats, deletes at a slot or openly creates a wallet there, the
     open part of a slot that seems empty stays as it was, so that a hidden wallet stays hidden. A slot that the command
     does not name and that no wallet is loaded from stays as it was, and no wallet is loaded from it afterwards.
     */
    method Step(c: Command, ghost base: nat)
      requires Valid() && WellFormed(c) && Slot(base, store.accounts.Length)
      modifies this, store.accounts, store.key, store`accesses
      ensures Valid()
      ensures Vacant(old(store.accounts[..]), base) && !Reveals(c, base) ==>
                SameOpenPart(old(store.accounts[..]), store.accounts[..], base)
      ensures old(Elsewhere(base)) && !WorksAt(c, base) ==>
                Elsewhere(base) && SameSlot(old(store.accounts[..]), store.accounts[..], base)
    {
      hide View, SameOpenPart, SameSlot, Vacant, Slot, Opens, RecordFor, Cleared, Read32, LoadedRight;
      Untouched(store.accounts[..], base);
      match c {
        case Load(number, pw) =>
          var r := InitWallet(number, pw);
        case Unload =>
          UninitWallet();
        case PrivateKey(ah) =>
          var r, key := GetPrivateKey(ah);
        case New(_, _, _, _, _, _) =>
          StepNew(c, base);
        case Delete(_) =>
          StepDelete(c, base);
        case FormatAll(poolFails) =>
          var r := Format(poolFails);
        case _ =>
          StepLoaded(c, base);
      }
    }

    /**
     Over any run of commands that do not reveal it, a slot that seems empty keeps its open part. Over any run of
     commands that do not work on it, a slot keeps its bytes and what every password opens there.
     */
    method Run(commands: seq<Command>, ghost base: nat)
      requires Valid() && Slot(base, store.accounts.Length)
               && (forall i :: 0 <= i < |commands| ==> WellFormed(commands[i]))
      modifies this, store.accounts, store.key, store`accesses
      ensures Valid()
      ensures Vacant(old(store.accounts[..]), base)
              && (forall i :: 0 <= i < |commands| ==> !Reveals(commands[i], base)) ==>
                SameOpenPart(old(store.accounts[..]), store.accounts[..], base)
      ensures old(Elsewhere(base)) && (forall i :: 0 <= i < |commands| ==> !WorksAt(commands[i], base)) ==>
                && Elsewhere(base) && SameSlot(old(store.accounts[..]), store.accounts[..], base)
                && SameForEveryone(old(store.accounts[..]), store.accounts[..], prim, base)
    {
      hide View, SameOpenPart, SameSlot, Vacant, Slot, Reveals, WorksAt, LoadedRight, SameForEveryone;
      ghost var was := store.accounts[..];
      Untouched(was, base);
      for i := 0 to |commands|
        invariant Valid()
        invariant Vacant(was, base) && (forall k :: 0 <= k < i ==> !Reveals(commands[k], base)) ==>
                    SameOpenPart(was, store.accounts[..], base)
        invariant old(Elsewhere(base)) && (forall k :: 0 <= k < i ==> !WorksAt(commands[k], base)) ==>
                    Elsewhere(base) && SameSlot(was, store.accounts[..], base)
      {
        ghost var before := store.accounts[..];
        Step(commands[i], base);
        OpenPartTwice(was, before, store.accounts[..], base);
        SameSlotTwice(was, before, store.accounts[..], base);
      }
      if SameSlot(was, store.accounts[..], base) {
        SameSlotSameWallets(was, store.accounts[..], prim, base);
      }
    }
  }

  method ToArray(s: seq<bv8>) returns (a: array<bv8>)
    ensures fresh(a) && a[..] == s
  {
    a := new bv8[|s|];
    for i := 0 to |s|
      invariant forall k :: 0 <= k < i ==> a[k] == s[k]
    {
      a[i] := s[i];
    }
  }

  lemma UuidSlice(memory: seq<bv8>, key: CombinedKey, base: nat)
    requires Slot(base, |memory|)
    ensures RecordAt(memory, key, base).Uuid() == memory[base + 48..base + 64]
  {
    hide View;
    assert memory[base..base + 64][48..64] == memory[base + 48..base + 64];
  }

  lemma RecordWritten(a: seq<bv8>, b: seq<bv8>, c: seq<bv8>, key: CombinedKey, base: nat, r: Record)
    requires Slot(base, |a|) && r.Sized() && b == Overlay(a, base, r.unencrypted)
    requires SameOutside(b, c, BlockStart(base + 64), BlockEnd(base + 64, 112) + 16)
    requires Wrote(View(b, key), base + 64, r.encrypted, View(c, key))
    ensures |c| == |a| && RecordAt(c, key, base) == r && SameOutside(a, c, base, base + RECORD_SIZE)
  {
    hide View, BlockStart, BlockEnd, Overlay, SameOutside, Wrote;
    AlignedRange(base + 64, 112);
    OpenPartWritten(a, b, c, base, r.unencrypted);
    WrittenSlice(View(b, key), base + 64, r.encrypted, View(c, key));
  }

  lemma OpenPartWritten(a: seq<bv8>, b: seq<bv8>, c: seq<bv8>, base: nat, u: seq<bv8>)
    requires |u| == 64 && base + 176 <= |a| && b == Overlay(a, base, u) && SameOutside(b, c, base + 64, base + 176)
    ensures SameOutside(a, c, base, base + RECORD_SIZE) && c[base..base + 64] == u
  {
    assert b[base..base + 64] == u;
    assert c[base..base + 64] == b[base..base + 64];
  }

  lemma WrittenSlice(v: seq<bv8>, address: nat, d: seq<bv8>, w: seq<bv8>)
    requires Wrote(v, address, d, w) && d != []
    ensures address + |d| <= |w| && w[address..address + |d|] == d
  {
  }

  /** A record with the checksum that belongs to it. */
  ghost function Sealed(r: Record, prim: Primitives): (t: Record)
    requires r.Sized() && Proper(prim)
    ensures t.Sized()
  {
    r.(encrypted := r.encrypted[..80] + prim.sha256(r.Contents()))
  }

  lemma SealedKeeps(r: Record, prim: Primitives)
    requires r.Sized() && Proper(prim)
    ensures var t := Sealed(r, prim);
            && t.unencrypted == r.unencrypted && t.Version() == r.Version() && t.Uuid() == r.Uuid()
            && t.Seed() == r.Seed() && t.NumAddresses() == r.NumAddresses() && t.encrypted[..80] == r.encrypted[..80]
            && t.Checksum() == prim.sha256(t.Contents())
  {
    var t := Sealed(r, prim);
    assert t.encrypted[..80] == r.encrypted[..80];
    assert t.Contents() == r.Contents();
    assert t.Seed() == t.encrypted[..80][16..80] == r.Seed();
  }

  lemma UuidKept(a: Record, b: Record)
    requires a.Sized() && b.Sized() && a.unencrypted[4..] == b.unencrypted[4..]
    ensures a.Uuid() == b.Uuid()
  {
    assert a.Uuid() == a.unencrypted[4..][44..] && b.Uuid() == b.unencrypted[4..][44..];
  }

  /** Why a seed may give no address for a handle. */
  function AddressError(prim: Primitives, seed: seq<bv8>, ah: nat): WalletErrors {
    if prim.degenerate(seed) then WALLET_RNG_FAILURE
    else if prim.infinite(prim.child(prim.publicKey(seed), seed, ah)) then WALLET_INVALID_HANDLE
    else WALLET_NO_ERROR
  }

  /** Seed, address count, reserved bytes, name and UUID are the same. */
  ghost predicate SameWallet(a: Record, b: Record) {
    && a.Sized() && b.Sized()
    && a.Seed() == b.Seed() && a.NumAddresses() == b.NumAddresses() && a.encrypted[..80] == b.encrypted[..80]
    && a.unencrypted[4..] == b.unencrypted[4..]
  }

  /** Only the name has changed, to the new one. */
  ghost predicate Renamed(a: Record, b: Record, name: seq<bv8>) {
    && a.Sized() && b.Sized()
    && a.Seed() == b.Seed() && a.NumAddresses() == b.NumAddresses() && a.encrypted[..80] == b.encrypted[..80]
    && b.unencrypted == a.unencrypted[..8] + name + a.unencrypted[48..]
  }

  lemma SlotNumber(spec: nat, size: nat)
    requires Slot(spec * RECORD_SIZE, size)
    ensures spec < size / RECORD_SIZE
  {
  }

  /** A sealed record that lies at a slot under a password's key is what that password opens. */
  lemma StoredOpens(memory: seq<bv8>, key: CombinedKey, prim: Primitives, base: nat, pw: seq<bv8>, r: Record)
    requires Slot(base, |memory|) && Proper(prim) && r == RecordAt(memory, key, base) && Genuine(r, prim)
    requires key == DerivedKey(prim, r.Uuid(), pw)
    ensures Opens(memory, prim, base, pw) && RecordFor(memory, prim, base, pw) == r
  {
    hide View, Genuine, RecordAt;
    UuidSlice(memory, key, base);
  }

  /** How a record is marked, given the key it is encrypted with. */
  ghost function Marking(key: seq<bv8>): seq<bv8> {
    if exists k :: 0 <= k < |key| && key[k] != 0 then [3, 0, 0, 0] else [2, 0, 0, 0]
  }

  /** The given seed, or two random numbers one after the other. */
  function NewSeed(prim: Primitives, draws: nat, useSeed: bool, seed: seq<bv8>): seq<bv8> {
    if useSeed then seed else prim.random(draws) + prim.random(draws + 1)
  }

  /**
   Every byte of a new wallet but the checksum. The open part of a hidden one is what was there; else it has a marking,
   the name and a random UUID. Then a count of zero, eight random bytes of padding and the seed.
   */
  ghost predicate NewRecord(r: Record, prim: Primitives, draws: nat, name: seq<bv8>, useSeed: bool, seed: seq<bv8>,
                            makeHidden: bool, pw: seq<bv8>)
  {
    var next := if makeHidden then draws else draws + 1;
    && r.Sized() && Proper(prim)
    && r.encrypted[..80]
       == [0, 0, 0, 0] + prim.random(next)[..8] + [0, 0, 0, 0] + NewSeed(prim, next + 1, useSeed, seed)
    && if makeHidden then r.Version() == [0, 0, 0, 0]
       else
         var uuid := prim.random(draws)[..16];
         r.unencrypted == Marking(DerivedKey(prim, uuid, pw)) + [0, 0, 0, 0] + name + uuid
  }

  /** So a new wallet has no addresses, the seed and name that were asked for, and is hidden or not as asked. */
  lemma NewRecordFields(r: Record, prim: Primitives, draws: nat, name: seq<bv8>, useSeed: bool, seed: seq<bv8>,
                        makeHidden: bool, pw: seq<bv8>)
    requires NewRecord(r, prim, draws, name, useSeed, seed, makeHidden, pw) && |name| == NAME_LENGTH
    requires useSeed ==> |seed| == SEED_LENGTH
    ensures r.NumAddresses() == 0 && r.IsHidden() == makeHidden
    ensures r.Seed() == NewSeed(prim, if makeHidden then draws + 1 else draws + 2, useSeed, seed)
    ensures !makeHidden ==> r.unencrypted[8..48] == name && r.Uuid() == prim.random(draws)[..16]
  {
    hide DerivedKey, Marking, NewSeed;
    var next := if makeHidden then draws else draws + 1;
    FrontFields(r, prim.random(next)[..8], NewSeed(prim, next + 1, useSeed, seed));
    if !makeHidden {
      var uuid := prim.random(draws)[..16];
      MarkingIs(DerivedKey(prim, uuid, pw));
      OpenFields(r, Marking(DerivedKey(prim, uuid, pw)), name, uuid);
    }
  }

  lemma FrontFields(r: Record, padding: seq<bv8>, seed: seq<bv8>)
    requires r.Sized() && |padding| == 8
    requires r.encrypted[..80] == [0, 0, 0, 0] + padding + [0, 0, 0, 0] + seed
    ensures r.NumAddresses() == 0 && r.Seed() == seed
  {
    hide Read32, Put32;
    var front := r.encrypted[..80];
    assert r.encrypted[..4] == front[..4];
    assert r.encrypted == [0, 0, 0, 0] + r.encrypted[4..];
    PutZero();
    Read32Put32(0, r.encrypted[4..]);
    assert r.Seed() == front[16..] == seed;
  }

  lemma OpenFields(r: Record, version: seq<bv8>, name: seq<bv8>, uuid: seq<bv8>)
    requires r.Sized() && |version| == 4 && |name| == NAME_LENGTH
    requires r.unencrypted == version + [0, 0, 0, 0] + name + uuid
    ensures r.Version() == version && r.unencrypted[8..48] == name && r.Uuid() == uuid
  {
  }

  lemma MarkingIs(key: seq<bv8>)
    ensures Marking(key) == VERSION_UNENCRYPTED || Marking(key) == VERSION_IS_ENCRYPTED
    ensures Marking(key) != VERSION_NOTHING_THERE && |Marking(key)| == 4
  {
  }

  lemma PutZero()
    ensures Put32(0) == [0, 0, 0, 0]
  {
  }

  /** Which draws a new wallet needs: a UUID unless hidden, padding, and a seed unless given. */
  predicate BuildFails(prim: Primitives, draws: nat, useSeed: bool, makeHidden: bool) {
    var first := if makeHidden then draws else draws + 1;
    || (!makeHidden && prim.randomFails(draws))
    || prim.randomFails(first)
    || (!useSeed && (prim.randomFails(first + 1) || prim.randomFails(first + 2)))
  }

  lemma SealedIsNew(r: Record, prim: Primitives, draws: nat, name: seq<bv8>, useSeed: bool, seed: seq<bv8>,
                    makeHidden: bool, pw: seq<bv8>)
    requires NewRecord(r, prim, draws, name, useSeed, seed, makeHidden, pw) && |name| == NAME_LENGTH
    requires useSeed ==> |seed| == SEED_LENGTH
    ensures var t := Sealed(r, prim);
            && NewRecord(t, prim, draws, name, useSeed, seed, makeHidden, pw) && Genuine(t, prim)
            && t.Uuid() == r.Uuid() && t.unencrypted == r.unencrypted
  {
    SealedKeeps(r, prim);
    hide Sealed, Read32, DerivedKey, Marking, NewSeed;
    MarkingIs(DerivedKey(prim, prim.random(draws)[..16], pw));
  }

  /** No wallet, or a hidden one, is at a slot. */
  ghost predicate Vacant(memory: seq<bv8>, base: nat) {
    base + 4 <= |memory| && memory[base..base + 4] == VERSION_NOTHING_THERE
  }

  ghost predicate OpenPartIs(r: Record, memory: seq<bv8>, base: nat) {
    base + 64 <= |memory| && r.unencrypted == memory[base..base + 64]
  }

  lemma OpenPart(memory: seq<bv8>, key: CombinedKey, base: nat)
    requires Slot(base, |memory|)
    ensures OpenPartIs(RecordAt(memory, key, base), memory, base)
    ensures RecordAt(memory, key, base).Version() == VERSION_NOTHING_THERE <==> Vacant(memory, base)
  {
    hide View;
    assert memory[base..base + 64][..4] == memory[base..base + 4];
  }

  /** Every version field in [start, start + length) that begins before `upTo` says that nothing is there. */
  ghost predicate Cleared(memory: seq<bv8>, start: nat, length: nat, upTo: nat) {
    forall a: nat :: start <= a < upTo && a % RECORD_SIZE == 0 && a + 4 <= start + length && a + 4 <= |memory| ==>
      Field(memory, a) == VERSION_NOTHING_THERE
  }

  ghost function Field(memory: seq<bv8>, address: nat): seq<bv8>
    requires address + 4 <= |memory|
  {
    memory[address..address + 4]
  }

  lemma Unchanged(m: seq<bv8>, from: nat, to: nat)
    ensures SameOutside(m, m, from, to) && SameBetween(m, m)
  {
  }

  lemma SameTwice(a: seq<bv8>, b: seq<bv8>, c: seq<bv8>, from: nat, to: nat)
    requires SameOutside(a, b, from, to) && SameOutside(b, c, from, to)
    ensures SameOutside(a, c, from, to)
  {
  }

  lemma WriteInside(a: seq<bv8>, b: seq<bv8>, address: nat, d: seq<bv8>, from: nat, to: nat)
    requires SameOutside(a, b, from, to) && from <= address && address + |d| <= to && address + |d| <= |b|
    ensures SameOutside(a, Overlay(b, address, d), from, to)
  {
  }

  /** How many 32-byte pieces cover a length. */
  function Pieces(length: nat): nat {
    (length + 31) / 32
  }

  /** What a pass writes at an offset into the area. */
  function PassByte(pass: nat, prim: Primitives, draws: nat, offset: nat): bv8 {
    if pass == 0 then 0
    else if pass == 1 then 0xff
    else
      var piece := prim.random(draws + offset / 32);
      if offset % 32 < |piece| then piece[offset % 32] else 0
  }

  ghost predicate Filled(memory: seq<bv8>, start: nat, length: nat, pass: nat, prim: Primitives, draws: nat) {
    && (length > 0 ==> start + length <= |memory|)
    && forall a :: start <= a < start + length ==> memory[a] == PassByte(pass, prim, draws, a - start)
  }

  lemma NothingFilled(memory: seq<bv8>, start: nat, pass: nat, prim: Primitives, draws: nat)
    ensures Filled(memory, start, 0, pass, prim, draws)
  {
  }

  lemma FilledMore(memory: seq<bv8>, start: nat, done: nat, pass: nat, prim: Primitives, draws: nat,
                   content: seq<bv8>, count: nat)
    requires Filled(memory, start, done, pass, prim, draws) && done % 32 == 0 && count <= 32 == |content|
    requires start + done + count <= |memory|
    requires content == if pass == 0 then seq(32, _ => 0) else if pass == 1 then seq(32, _ => 0xff)
                        else prim.random(draws + done / 32)
    ensures Filled(Overlay(memory, start + done, content[..count]), start, done + count, pass, prim, draws)
  {
    var next := Overlay(memory, start + done, content[..count]);
    forall a | start <= a < start + done + count
      ensures next[a] == PassByte(pass, prim, draws, a - start)
    {
      var offset := a - start;
      if offset >= done {
        assert next[a] == content[offset - done];
        PieceOf(offset, done);
      }
    }
  }

  lemma PieceOf(offset: nat, done: nat)
    requires done % 32 == 0 && done <= offset < done + 32
    ensures offset / 32 == done / 32 && offset % 32 == offset - done
  {
  }

  /** Nothing changed but bytes of version fields. */
  ghost predicate SameBetween(a: seq<bv8>, b: seq<bv8>) {
    |a| == |b| && forall k :: 0 <= k < |a| && k % RECORD_SIZE >= 4 ==> a[k] == b[k]
  }

  lemma WriteVersion(a: seq<bv8>, b: seq<bv8>, address: nat, d: seq<bv8>)
    requires SameBetween(a, b) && address % RECORD_SIZE == 0 && |d| == 4 && address + 4 <= |b|
    ensures SameBetween(a, Overlay(b, address, d))
  {
    var c := Overlay(b, address, d);
    forall k | 0 <= k < |a| && k % RECORD_SIZE >= 4
      ensures a[k] == c[k]
    {
      if address <= k < address + 4 {
        InVersion(address, k);
      }
    }
  }

  lemma InVersion(address: nat, k: nat)
    requires address % RECORD_SIZE == 0 && address <= k < address + RECORD_SIZE
    ensures k % RECORD_SIZE == k - address && k - k % RECORD_SIZE == address
  {
  }

  /** Zeros in version fields, and random bytes everywhere else. */
  ghost predicate Sanitised(memory: seq<bv8>, start: nat, length: nat, prim: Primitives, draws: nat) {
    && (length > 0 ==> start + length <= |memory|)
    && forall a :: start <= a < start + length ==>
         memory[a] == if a % RECORD_SIZE < 4 then 0 else PassByte(3, prim, draws, a - start)
  }

  lemma SanitisedNow(a: seq<bv8>, b: seq<bv8>, start: nat, length: nat, prim: Primitives, draws: nat)
    requires Filled(a, start, length, 3, prim, draws) && SameBetween(a, b) && start % 4 == 0 && length % 4 == 0
    requires Cleared(b, start, length, start + length)
    ensures Sanitised(b, start, length, prim, draws)
  {
    hide PassByte, Cleared;
    forall k | start <= k < start + length && k % RECORD_SIZE < 4
      ensures b[k] == 0
    {
      var field := k - k % RECORD_SIZE;
      WholeField(k, field, start, length);
      ClearedAt(b, start, length, field);
      assert b[k] == b[field..field + 4][k - field];
    }
  }

  /** Areas of whole words contain each version field whole or not at all. */
  lemma WholeField(k: nat, field: nat, start: nat, length: nat)
    requires start <= k < start + length && start % 4 == 0 && length % 4 == 0
    requires field == k - k % RECORD_SIZE && k - field < 4
    ensures field % RECORD_SIZE == 0 && start <= field && field + 4 <= start + length
  {
    var i := k / RECORD_SIZE;
    FieldStart(k, field, i);
    WordsInside(k, 44 * i, start / 4, length / 4);
  }

  lemma FieldStart(k: nat, field: nat, i: nat)
    requires field == k - k % RECORD_SIZE && i == k / RECORD_SIZE
    ensures field % RECORD_SIZE == 0 && field == 4 * (44 * i)
  {
    assert field == RECORD_SIZE * i;
  }

  lemma WordsInside(k: nat, word: nat, first: nat, count: nat)
    requires 4 * first <= k < 4 * first + 4 * count && 4 * word <= k < 4 * word + 4
    ensures first <= word && word + 1 <= first + count
  {
  }

  lemma NoneCleared(memory: seq<bv8>, start: nat, length: nat, address: nat)
    requires address <= start
    ensures Cleared(memory, start, length, address)
  {
  }

  lemma OneMoreCleared(memory: seq<bv8>, start: nat, length: nat, address: nat, d: seq<bv8>)
    requires Cleared(memory, start, length, address) && address % RECORD_SIZE == 0 && start <= address
    requires d == VERSION_NOTHING_THERE && address + 4 <= |memory|
    ensures Cleared(Overlay(memory, address, d), start, length, address + RECORD_SIZE)
  {
    var next := Overlay(memory, address, d);
    forall a: nat | start <= a < address + RECORD_SIZE && a % RECORD_SIZE == 0 && a + 4 <= start + length
        && a + 4 <= |memory|
      ensures Field(next, a) == VERSION_NOTHING_THERE
    {
      if a < address {
        MultiplesApart(a, address);
        assert Field(next, a) == Field(memory, a);
      } else {
        MultipleIs(a, address);
      }
    }
  }

  lemma MultiplesApart(a: nat, b: nat)
    requires a < b && a % RECORD_SIZE == 0 && b % RECORD_SIZE == 0
    ensures a + RECORD_SIZE <= b
  {
    assert a == RECORD_SIZE * (a / RECORD_SIZE) && b == RECORD_SIZE * (b / RECORD_SIZE);
  }

  lemma MultipleIs(a: nat, b: nat)
    requires b <= a < b + RECORD_SIZE && a % RECORD_SIZE == 0 && b % RECORD_SIZE == 0
    ensures a == b
  {
    assert a == RECORD_SIZE * (a / RECORD_SIZE) && b == RECORD_SIZE * (b / RECORD_SIZE);
  }

  /** A field that begins before the area is left alone, and the next one may begin in it. */
  lemma SkippedField(memory: seq<bv8>, start: nat, length: nat, address: nat)
    requires address < start && address % RECORD_SIZE == 0
    ensures Cleared(memory, start, length, address + RECORD_SIZE)
  {
    forall a: nat | start <= a < address + RECORD_SIZE
      ensures a % RECORD_SIZE != 0
    {
      if a % RECORD_SIZE == 0 {
        MultipleIs(a, address);
      }
    }
  }

  lemma AllCleared(memory: seq<bv8>, start: nat, length: nat, address: nat)
    requires Cleared(memory, start, length, address) && address + 4 > start + length
    ensures Cleared(memory, start, length, start + length)
  {
  }

  lemma ClearedAt(memory: seq<bv8>, start: nat, length: nat, a: nat)
    requires Cleared(memory, start, length, start + length) && start <= a && a % RECORD_SIZE == 0
    requires a + 4 <= start + length && a + 4 <= |memory|
    ensures memory[a..a + 4] == VERSION_NOTHING_THERE
  {
    assert Field(memory, a) == VERSION_NOTHING_THERE;
  }

  /** What the packets ask of the wallet. */
  datatype Command =
    | Load(number: nat, pw: seq<bv8>)
    | Unload
    | PrivateKey(ah: nat)
    | New(number: nat, name: seq<bv8>, useSeed: bool, seed: seq<bv8>, makeHidden: bool, pw: seq<bv8>)
    | NewAddress
    | ChangeKey(pw: seq<bv8>)
    | ChangeName(name: seq<bv8>)
    | Delete(number: nat)
    | FormatAll(poolFails: bool)

  /** Names and seeds have the sizes that the decoder guarantees. */
  predicate WellFormed(c: Command) {
    && (c.New? ==> |c.name| == NAME_LENGTH && (c.useSeed ==> |c.seed| == SEED_LENGTH))
    && (c.ChangeName? ==> |c.name| == NAME_LENGTH)
  }

  /** The commands that are meant to change the open part of a slot that seems empty. */
  predicate Reveals(c: Command, base: nat) {
    || (c.FormatAll? && !c.poolFails)
    || (c.Delete? && c.number * RECORD_SIZE == base)
    || (c.New? && c.number * RECORD_SIZE == base && !c.makeHidden)
  }

  ghost predicate SameOpenPart(a: seq<bv8>, b: seq<bv8>, base: nat) {
    |a| == |b| && base + 64 <= |a| && a[base..base + 64] == b[base..base + 64]
  }

  /** The commands that name a slot, and formatting, which works on all of them. */
  predicate WorksAt(c: Command, base: nat) {
    || (c.FormatAll? && !c.poolFails)
    || (c.Load? && c.number * RECORD_SIZE == base)
    || (c.New? && c.number * RECORD_SIZE == base)
    || (c.Delete? && c.number * RECORD_SIZE == base)
  }

  ghost predicate SameSlot(a: seq<bv8>, b: seq<bv8>, base: nat) {
    |a| == |b| && base + RECORD_SIZE <= |a| && a[base..base + RECORD_SIZE] == b[base..base + RECORD_SIZE]
  }

  lemma SameSlotTwice(a: seq<bv8>, b: seq<bv8>, c: seq<bv8>, base: nat)
    ensures SameSlot(a, b, base) && SameSlot(b, c, base) ==> SameSlot(a, c, base)
  {
  }

  lemma OtherSlot(a: seq<bv8>, b: seq<bv8>, at: nat, base: nat)
    requires Slot(at, |a|) && Slot(base, |a|) && at != base && SameOutside(a, b, at, at + RECORD_SIZE)
    ensures SameSlot(a, b, base)
  {
    SlotsApart(at, base, |a|);
  }

  /** Every password finds the same record at a slot. */
  ghost predicate SameForEveryone(a: seq<bv8>, b: seq<bv8>, prim: Primitives, base: nat) {
    && Slot(base, |a|) && |a| == |b| && Proper(prim)
    && forall pw :: RecordFor(a, prim, base, pw) == RecordFor(b, prim, base, pw)
  }

  lemma SameSlotSameWallets(a: seq<bv8>, b: seq<bv8>, prim: Primitives, base: nat)
    requires Slot(base, |a|) && Proper(prim) && SameSlot(a, b, base)
    ensures SameForEveryone(a, b, prim, base)
  {
    hide View, RecordAt;
    forall pw
      ensures RecordFor(a, prim, base, pw) == RecordFor(b, prim, base, pw)
    {
      SlotRecord(a, b, prim, base, pw);
    }
  }

  lemma UuidPart(s: seq<bv8>, base: nat)
    requires base + 176 <= |s|
    ensures s[base + 48..base + 64] == s[base..base + 176][48..64]
  {
    var u, t := s[base + 48..base + 64], s[base..base + 176][48..64];
    assert |u| == |t|;
    forall k | 0 <= k < 16
      ensures u[k] == t[k]
    {
      assert u[k] == s[base + 48 + k];
    }
  }

  lemma SlotRecord(a: seq<bv8>, b: seq<bv8>, prim: Primitives, base: nat, password: seq<bv8>)
    requires |a| == |b| && Slot(base, |a|) && Proper(prim) && a[base..base + 176] == b[base..base + 176]
    ensures RecordFor(a, prim, base, password) == RecordFor(b, prim, base, password)
  {
    hide View;
    UuidPart(a, base);
    UuidPart(b, base);
    RecordIsLocal(a, b, DerivedKey(prim, a[base + 48..base + 64], password), base);
  }

  lemma Untouched(m: seq<bv8>, base: nat)
    requires Slot(base, |m|)
    ensures SameOpenPart(m, m, base) && SameSlot(m, m, base)
  {
  }

  lemma OtherOpenPart(a: seq<bv8>, b: seq<bv8>, at: nat, base: nat)
    requires Slot(at, |a|) && Slot(base, |a|) && at != base && SameOutside(a, b, at, at + RECORD_SIZE)
    ensures SameOpenPart(a, b, base)
  {
    SlotsApart(at, base, |a|);
  }

  lemma NewOpenPart(a: seq<bv8>, b: seq<bv8>, at: nat, base: nat, r: Record, makeHidden: bool)
    requires Slot(at, |a|) && Slot(base, |a|) && SameOutside(a, b, at, at + RECORD_SIZE) && OpenPartIs(r, b, at)
    requires makeHidden ==> OpenPartIs(r, a, at)
    ensures at != base || makeHidden ==> SameOpenPart(a, b, base)
  {
    if at != base {
      OtherOpenPart(a, b, at, base);
    }
  }

  lemma OpenPartKept(a: seq<bv8>, b: seq<bv8>, at: nat, base: nat, r: Record, t: Record, hidden: bool)
    requires Slot(at, |a|) && Slot(base, |a|) && SameOutside(a, b, at, at + RECORD_SIZE)
    requires OpenPartIs(r, a, at) && OpenPartIs(t, b, at) && (hidden <==> Vacant(a, at))
    requires hidden ==> t.unencrypted == r.unencrypted
    ensures Vacant(a, base) ==> SameOpenPart(a, b, base)
  {
    if at != base {
      OtherOpenPart(a, b, at, base);
    }
  }

  lemma OpenPartTwice(a: seq<bv8>, b: seq<bv8>, c: seq<bv8>, base: nat)
    ensures SameOpenPart(a, b, base) && SameOpenPart(b, c, base) ==> SameOpenPart(a, c, base)
    ensures SameOpenPart(a, b, base) && Vacant(a, base) ==> Vacant(b, base)
  {
    if SameOpenPart(a, b, base) {
      assert a[base..base + 64][..4] == a[base..base + 4] && b[base..base + 64][..4] == b[base..base + 4];
    }
  }
}
