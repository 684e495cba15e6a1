/**
 The streaming parser of transaction.c: one read cursor over the stream, two hash transcripts fed as bytes pass,
 the fee in an 8-byte buffer. Each method is proved against its function in TransactionFormat.
 */
module TransactionParser {
  import opened Arith
  import opened Bytes
  import opened Bignum
  import opened TransactionFormat
  import opened TransactionLaws

  /** NoError, or the code parseTransaction returns. */
  datatype Status = NoError | Error(error: TransactionError)

  /** The status that goes with a parse result. */
  function StatusOf<T>(r: Parsed<T>): Status {
    if r.Ok? then NoError else Error(r.error)
  }

  /** What reading changes: the data not yet read and the two transcripts. */
  datatype Snapshot = Snapshot(rest: seq<Byte>, signature: seq<Byte>, transaction: seq<Byte>)

  /** The effect of reading k bytes, fed to the signature hash and to the transaction hash as told. */
  ghost function Read(st: Snapshot, k: nat, feed: bool, feedBoth: bool): Snapshot
    requires k <= |st.rest|
  {
    Snapshot(st.rest[k..],
             st.signature + (if feed then st.rest[..k] else []),
             st.transaction + (if feed && feedBoth then st.rest[..k] else []))
  }

  lemma ReadRead(st: Snapshot, a: nat, b: nat, feed: bool, feedBoth: bool)
    requires a + b <= |st.rest|
    ensures Read(Read(st, a, feed, feedBoth), b, feed, feedBoth) == Read(st, a + b, feed, feedBoth)
  {
    assert st.rest[a..][b..] == st.rest[a + b..];
    assert st.rest[..a] + st.rest[a..][..b] == st.rest[..a + b];
  }

  class Parser {
    /** The bytes the stream device delivers, one per call, and how many it has delivered. */
    const stream: seq<Byte>
    var taken: nat
    /** The number of bytes delivered before the transaction data began. */
    ghost var base: nat

    var index: nat
    var length: nat
    var hashesValid: bool
    var suppressTransactionHash: bool
    /** What has been fed to the three hash states since each was begun. */
    var signatureHash: seq<Byte>
    var transactionHash: seq<Byte>
    var referenceHash: seq<Byte>
    const fee: array<Byte>
    /** The display: output lines so far, and the fee line if one was set. */
    var shown: seq<Shown>
    var feeShown: nat
    const device: Device

    constructor (stream0: seq<Byte>, device0: Device)
      ensures stream == stream0 && device == device0 && taken == 0 && shown == []
      ensures fresh(fee) && fee.Length == 8
    {
      stream, device := stream0, device0;
      taken, base, index, length := 0, 0, 0, 0;
      hashesValid, suppressTransactionHash := false, false;
      signatureHash, transactionHash, referenceHash := [], [], [];
      fee := new Byte[8](_ => 0);
      shown, feeShown := [], 0;
    }

    ghost predicate Valid()
      reads `taken, `base, `index, `length
    {
      && fee.Length == 8
      && taken == base + index && index <= length <= 0xffffffff && base + length <= |stream|
    }

    /** The transaction data not yet read, and the transcripts of what has been. */
    ghost function State(): (st: Snapshot)
      requires Valid()
      reads `taken, `base, `index, `length, `signatureHash, `transactionHash
      ensures |st.rest| == length - index
    {
      Snapshot(stream[base + index..base + length], signatureHash, transactionHash)
    }

    /** Fetches one byte and feeds it to the hashes that are listening. */
    method GetOneByte() returns (oneByte: Byte)
      requires Valid() && index < length
      modifies `taken, `index, `signatureHash, `transactionHash
      ensures Valid() && index == old(index) + 1
      ensures oneByte == old(State()).rest[0]
      ensures State() == Read(old(State()), 1, hashesValid, !suppressTransactionHash)
    {
      oneByte := stream[taken];
      taken := taken + 1;
      if hashesValid {
        signatureHash := signatureHash + [oneByte];
        if !suppressTransactionHash {
          transactionHash := transactionHash + [oneByte];
        }
      }
      index := index + 1;
      assert stream[base + index - 1..base + length][..1] == [oneByte];
      assert stream[base + index - 1..base + length][1..] == stream[base + index..base + length];
    }

    /** Reads `count` bytes into the buffer, or reports that they are not there and reads none. */
    method GetTransactionBytes(buffer: array<Byte>, count: Byte) returns (err: bool)
      requires Valid() && count <= buffer.Length
      modifies `taken, `index, `signatureHash, `transactionHash, buffer
      ensures Valid()
      ensures err == (|old(State()).rest| < count)
      ensures err ==> State() == old(State())
      ensures !err ==> buffer[..count] == old(State()).rest[..count]
      ensures !err ==> State() == Read(old(State()), count, hashesValid, !suppressTransactionHash)
    {
      ghost var st := State();
      if index > 0xffffffff - count {
        return true;
      }
      if index + count > length {
        return true;
      }
      ghost var feed, both, start := hashesValid, !suppressTransactionHash, index;
      hide Read, State;
      ReadNone(st, feed, both);
      for i := 0 to count
        invariant Valid() && index == start + i
        invariant buffer[..i] == st.rest[..i]
        invariant State() == Read(st, i, feed, both)
      {
        ReadFirst(st, i, feed, both);
        buffer[i] := GetOneByte();
        assert buffer[..i + 1] == buffer[..i] + [buffer[i]];
        assert st.rest[..i + 1] == st.rest[..i] + [st.rest[i]];
      }
      err := false;
    }

    /** Reads four bytes that must have the given value. */
    method ExpectWord(value: nat) returns (status: Status)
      requires Valid()
      modifies `taken, `index, `signatureHash, `transactionHash
      ensures Valid()
      ensures status == StatusOf(Expect(old(State()).rest, value))
      ensures status.NoError? ==> |old(State()).rest| >= 4
      ensures status.NoError? ==> State() == Read(old(State()), 4, hashesValid, !suppressTransactionHash)
    {
      hide Valid, State, Read, Val;
      var temp := new Byte[4];
      var err := GetTransactionBytes(temp, 4);
      if err {
        return Error(INVALID_FORMAT);
      }
      if Val(temp[..4]) != value {
        return Error(NON_STANDARD);
      }
      return NoError;
    }

    /** A variable-sized integer of at most 32 bits. */
    method GetVarInt() returns (err: bool, out: nat, ghost v: VarInt)
      requires Valid()
      modifies `taken, `index, `signatureHash, `transactionHash
      ensures Valid()
      ensures err == ParseVarInt(old(State()).rest).Fail?
      ensures !err ==> v == ParseVarInt(old(State()).rest).value && out == v.value
      ensures !err ==> |v.code| <= |old(State()).rest|
      ensures !err ==> State() == Read(old(State()), |v.code|, hashesValid, !suppressTransactionHash)
    {
      hide Valid, State, Read, Val;
      ghost var st, feed, both := State(), hashesValid, !suppressTransactionHash;
      v, out := VarInt(0, []), 0;
      var temp := new Byte[4];
      err := GetTransactionBytes(temp, 1);
      if err {
        return;
      }
      var first := temp[..1][0];
      if first < 0xfd {
        out := first;
        v := VarInt(first, st.rest[..1]);
      } else if first == 0xfd {
        ReadAfterOne(st, 2, feed, both);
        err := GetTransactionBytes(temp, 2);
        if err {
          return;
        }
        out := Val(temp[..2]);
        v := VarInt(out, st.rest[..3]);
      } else if first == 0xfe {
        ReadAfterOne(st, 4, feed, both);
        err := GetTransactionBytes(temp, 4);
        if err {
          return;
        }
        out := Val(temp[..4]);
        v := VarInt(out, st.rest[..5]);
      } else {
        err := true;
      }
    }

    /** Skips a script one byte at a time. */
    method SkipScript(scriptLength: nat) returns (status: Status)
      requires Valid()
      modifies `taken, `index, `signatureHash, `transactionHash
      ensures Valid()
      ensures status == StatusOf(Take(old(State()).rest, scriptLength))
      ensures status.NoError? ==> State() == Read(old(State()), scriptLength, hashesValid, !suppressTransactionHash)
    {
      hide Valid, State, Read;
      ghost var st, feed, both := State(), hashesValid, !suppressTransactionHash;
      ReadNone(st, feed, both);
      var temp := new Byte[1];
      for k := 0 to scriptLength
        invariant Valid() && k <= |st.rest| && State() == Read(st, k, feed, both)
      {
        ReadSize(st, k, feed, both);
        var err := GetTransactionBytes(temp, 1);
        if err {
          return Error(INVALID_FORMAT);
        }
        ReadRead(st, k, 1, feed, both);
      }
      return NoError;
    }

    /** The outpoint an input spends; for the spending transaction it goes into the reference comparison. */
    method ReadOutpoint(isRef: bool) returns (err: bool)
      requires Valid() && hashesValid && !suppressTransactionHash
      modifies `taken, `index, `signatureHash, `transactionHash, `referenceHash
      ensures Valid()
      ensures err == (|old(State()).rest| < 36)
      ensures !err ==> State() == Read(old(State()), 36, true, true)
      ensures !err ==>
                var s := old(State()).rest;
                referenceHash == old(referenceHash) + if isRef then [] else s[32..36] + s[..32]
    {
      hide Valid, State, Read;
      ghost var st := State();
      var temp := new Byte[32];
      var number := new Byte[4];
      err := GetTransactionBytes(temp, 32);
      if err {
        return;
      }
      ReadSize(st, 32, true, true);
      err := GetTransactionBytes(number, 4);
      if err {
        return;
      }
      ReadRead(st, 32, 4, true, true);
      assert st.rest[32..][..4] == st.rest[32..36];
      if !isRef {
        referenceHash := referenceHash + (number[..4] + temp[..32]);
      }
    }

    /** The script of an input, kept out of the transaction hash, and the sequence number, which is not. */
    method ReadInputScript() returns (status: Status)
      requires Valid() && hashesValid && !suppressTransactionHash
      modifies `taken, `index, `signatureHash, `transactionHash, `suppressTransactionHash
      ensures Valid()
      ensures status == StatusOf(ParseInputScript(old(State()).rest))
      ensures status.NoError? ==> !suppressTransactionHash
      ensures status.NoError? ==>
                var r := ParseInputScript(old(State()).rest);
                State() == ScriptRead(old(State()), r.value.0, r.value.1, r.rest)
    {
      hide Valid, State, Read, ScriptRead, ParseVarInt, Expect;
      ghost var st := State();
      suppressTransactionHash := true;
      var scriptLength, err;
      ghost var v;
      err, scriptLength, v := GetVarInt();
      if err {
        VarIntError(st.rest);
        return Error(INVALID_FORMAT);
      }
      VarIntSize(st.rest);
      ReadSize(st, |v.code|, true, false);
      ghost var st1 := State();
      status := SkipScript(scriptLength);
      if status.Error? {
        return;
      }
      suppressTransactionHash := false;
      ReadSize(st1, scriptLength, true, false);
      ghost var st2 := State();
      status := ExpectWord(SEQUENCE);
      if status.NoError? {
        ScriptReadSteps(st, v, st1, st2, State());
      }
    }

    /** One input. */
    method OneInput(isRef: bool) returns (status: Status)
      requires Valid() && hashesValid && !suppressTransactionHash
      modifies `taken, `index, `signatureHash, `transactionHash, `referenceHash, `suppressTransactionHash
      ensures Valid()
      ensures status == StatusOf(ParseInput(old(State()).rest))
      ensures status.NoError? ==> !suppressTransactionHash
      ensures status.NoError? ==>
                var r := ParseInput(old(State()).rest);
                && State() == InputRead(old(State()), r.value, r.rest)
                && referenceHash == old(referenceHash) + if isRef then [] else r.value.index + r.value.txid
    {
      hide Valid, State, Read, ScriptRead, InputRead, ParseInputScript;
      ghost var st := State();
      var err := ReadOutpoint(isRef);
      OutpointParsed(st.rest);
      if err {
        return Error(INVALID_FORMAT);
      }
      ghost var st1 := State();
      ReadSize(st, 36, true, true);
      status := ReadInputScript();
      if status.NoError? {
        InputReadSteps(st, st1, State());
      }
    }

    /** The inputs, one after the other. */
    method AllInputs(count: nat, isRef: bool) returns (status: Status)
      requires Valid() && hashesValid && !suppressTransactionHash
      modifies `taken, `index, `signatureHash, `transactionHash, `referenceHash, `suppressTransactionHash
      ensures Valid()
      ensures status == StatusOf(ParseInputs(old(State()).rest, count))
      ensures status.NoError? ==> !suppressTransactionHash
      ensures status.NoError? ==>
                var r := ParseInputs(old(State()).rest, count);
                && State() == InputsRead(old(State()), r.value, r.rest)
                && referenceHash == old(referenceHash) + if isRef then [] else Outpoints(r.value)
    {
      hide Valid, State, InputRead, InputsRead, ParseInput, ParseInputs, Outpoints;
      ghost var st, reference := State(), referenceHash;
      ghost var done: seq<Input> := [];
      InputsNone(st, reference, count, isRef);
      for i := 0 to count
        invariant Valid() && !suppressTransactionHash
        invariant InputsUpTo(st, reference, count, isRef, done, i, State(), referenceHash)
      {
        hide InputsUpTo;
        ghost var before, ref := State(), referenceHash;
        status := OneInput(isRef);
        InputsStep(st, reference, count, isRef, done, i, before, ref);
        if status.Error? {
          return;
        }
        done := done + [ParseInput(before.rest).value];
      }
      InputsAll(st, reference, count, isRef, done, State(), referenceHash);
      status := NoError;
    }

    /** The fee and the lines shown, as numbers. */
    ghost function LedgerNow(): Ledger
      reads `shown, fee
    {
      Ledger(Val(fee[..]), shown)
    }

    /** Adds a selected amount to the fee or subtracts a spent one, in 8-byte arithmetic. */
    method Book(temp: array<Byte>, isRef: bool, selected: bool) returns (overflow: bool)
      requires fee.Length == 8 && temp.Length >= 8 && temp != fee
      modifies fee
      ensures overflow == Overflows(isRef, selected, Val(temp[..8]), old(Val(fee[..])))
      ensures !overflow ==> Val(fee[..]) == Booked(isRef, selected, Val(temp[..8]), old(Val(fee[..])))
    {
      EightBytes(fee[..], temp[..8]);
      assert fee[..8] == fee[..];
      hide Val, Pow256;
      overflow := false;
      if isRef {
        if selected {
          var carry := BigAddVariableSizeNoModulo(fee, fee, temp, 8);
          EightBytes(fee[..], temp[..8]);
          overflow := carry != 0;
        }
      } else {
        var borrow := BigSubtractVariableSizeNoModulo(fee, fee, temp, 8);
        overflow := borrow != 0;
      }
      assert fee[..8] == fee[..];
    }

    /** A standard output script, piece by piece, and the address it pays to. */
    method ReadPayScript(scriptLength: nat) returns (status: Status, version: Byte, hash: seq<Byte>)
      requires Valid() && hashesValid && !suppressTransactionHash
      modifies `taken, `index, `signatureHash, `transactionHash
      ensures Valid()
      ensures status == StatusOf(ParsePayScript(old(State()).rest, scriptLength))
      ensures status.NoError? ==>
                && scriptLength <= |old(State()).rest| && State() == Read(old(State()), scriptLength, true, true)
                && (version, hash) == Payee(ParsePayScript(old(State()).rest, scriptLength).value)
    {
      hide Valid, State, Read, ParsePayScript;
      ghost var st := State();
      PayScriptPieces(st.rest, scriptLength);
      version, hash := 0, [];
      if scriptLength != 0x19 && scriptLength != 0x17 {
        return Error(NON_STANDARD), version, hash;
      }
      var head: seq<Byte> := if scriptLength == 0x19 then [0x76, 0xa9, 0x14] else [0xa9, 0x14];
      var tail: seq<Byte> := if scriptLength == 0x19 then [0x88, 0xac] else [0x87];
      version := if scriptLength == 0x19 then ADDRESS_VERSION_PUBKEY else ADDRESS_VERSION_P2SH;
      var temp := new Byte[20];
      var err := GetTransactionBytes(temp, |head|);
      if err {
        return Error(INVALID_FORMAT), version, hash;
      }
      if temp[..|head|] != head {
        return Error(NON_STANDARD), version, hash;
      }
      ReadSize(st, |head|, true, true);
      err := GetTransactionBytes(temp, 20);
      if err {
        return Error(INVALID_FORMAT), version, hash;
      }
      ReadRead(st, |head|, 20, true, true);
      ReadSize(st, |head| + 20, true, true);
      hash := temp[..20];
      err := GetTransactionBytes(temp, |tail|);
      if err {
        return Error(INVALID_FORMAT), version, hash;
      }
      if temp[..|tail|] != tail {
        return Error(NON_STANDARD), version, hash;
      }
      ReadRead(st, |head| + 20, |tail|, true, true);
      return NoError, version, hash;
    }

    /** The script of an output: skipped in a reference, matched against a template and shown otherwise. */
    method ReadOutputScript(isRef: bool, amount: nat) returns (status: Status)
      requires Valid() && hashesValid && !suppressTransactionHash
      modifies `taken, `index, `signatureHash, `transactionHash, `shown
      ensures Valid()
      ensures status == StatusOf(ParseOutputScript(old(State()).rest, isRef, amount, old(shown), device.capacity))
      ensures status.NoError? ==>
                var r := ParseOutputScript(old(State()).rest, isRef, amount, old(shown), device.capacity);
                State() == ReadUpTo(old(State()), r.rest) && shown == r.value.2
    {
      hide Valid, State, Read, ReadUpTo, ParseVarInt, ParsePayScript, Payee;
      ghost var st := State();
      var err, scriptLength;
      ghost var v;
      err, scriptLength, v := GetVarInt();
      if err {
        VarIntError(st.rest);
        return Error(INVALID_FORMAT);
      }
      VarIntSize(st.rest);
      ReadSize(st, |v.code|, true, true);
      if isRef {
        status := SkipScript(scriptLength);
        if status.NoError? {
          ReadTwice(st, |v.code|, scriptLength);
        }
      } else {
        var version, hash;
        ghost var s1 := State().rest;
        status, version, hash := ReadPayScript(scriptLength);
        if status.Error? {
          return;
        }
        ReadTwice(st, |v.code|, scriptLength);
        PayScriptRest(s1, scriptLength);
        if |shown| >= device.capacity {
          return Error(TOO_MANY_OUTPUTS);
        }
        shown := shown + [Shown(amount, version, hash)];
      }
    }

    /** One output: its amount checked and booked, then its script. */
    method OneOutput(isRef: bool, selected: bool) returns (status: Status)
      requires Valid() && hashesValid && !suppressTransactionHash
      modifies `taken, `index, `signatureHash, `transactionHash, `shown, fee
      ensures Valid()
      ensures status == StatusOf(ParseOutput(old(State()).rest, isRef, selected, old(LedgerNow()), device.capacity))
      ensures status.NoError? ==>
                var r := ParseOutput(old(State()).rest, isRef, selected, old(LedgerNow()), device.capacity);
                State() == ReadUpTo(old(State()), r.rest) && LedgerNow() == r.value.1
    {
      hide Valid, State, Read, ReadUpTo, ParseOutput, ParseOutputScript, Overflows, Booked, Val;
      ghost var st, ledger := State(), LedgerNow();
      OutputParts(st.rest, isRef, selected, ledger, device.capacity);
      var amount;
      status, amount := ReadAmount(isRef, selected);
      if status.Error? {
        return;
      }
      status := ReadOutputScript(isRef, amount);
      if status.NoError? {
        ghost var r := ParseOutputScript(st.rest[8..], isRef, amount, ledger.shown, device.capacity);
        ReadUpToTwice(st, 8, r.rest);
      }
    }

    /** The amount of an output, checked against the money supply and booked. */
    method ReadAmount(isRef: bool, selected: bool) returns (status: Status, amount: nat)
      requires Valid() && hashesValid && !suppressTransactionHash
      modifies `taken, `index, `signatureHash, `transactionHash, fee
      ensures Valid()
      ensures var s := old(State()).rest;
              status == if |s| < 8 then Error(INVALID_FORMAT)
                        else if Val(s[..8]) > MAX_MONEY || Overflows(isRef, selected, Val(s[..8]), old(Val(fee[..])))
                        then Error(INVALID_AMOUNT) else NoError
      ensures status.NoError? ==>
                && 8 <= |old(State()).rest| && amount == Val(old(State()).rest[..8])
                && State() == Read(old(State()), 8, true, true) && State().rest == old(State()).rest[8..]
                && Val(fee[..]) == Booked(isRef, selected, amount, old(Val(fee[..])))
    {
      FeeWidth();
      hide Valid, State, Read, Overflows, Booked, Val;
      amount := 0;
      ghost var st := State();
      var temp := new Byte[8];
      var err := GetTransactionBytes(temp, 8);
      if err {
        return Error(INVALID_FORMAT), amount;
      }
      ReadSize(st, 8, true, true);
      var tooLarge := ExceedsMaxMoney(temp);
      if tooLarge {
        return Error(INVALID_AMOUNT), amount;
      }
      var overflow := Book(temp, isRef, selected);
      if overflow {
        return Error(INVALID_AMOUNT), amount;
      }
      return NoError, Val(temp[..8]);
    }

    method ExceedsMaxMoney(temp: array<Byte>) returns (tooLarge: bool)
      requires temp.Length >= 8
      ensures tooLarge == (Val(temp[..8]) > MAX_MONEY)
    {
      hide Val;
      var maxMoney := new Byte[8] [0x00, 0x40, 0x07, 0x5A, 0xF0, 0x75, 0x07, 0x00];
      MaxMoneyBytes(maxMoney[..8]);
      var order := BigCompareVariableSize(temp, maxMoney, 8);
      tooLarge := order == BIGCMP_GREATER;
    }

    /** The outputs, one after the other; `select` picks the one a reference contributes. */
    method AllOutputs(count: nat, isRef: bool, select: nat) returns (status: Status)
      requires Valid() && hashesValid && !suppressTransactionHash
      modifies `taken, `index, `signatureHash, `transactionHash, `shown, fee
      ensures Valid()
      ensures status == StatusOf(ParseOutputs(old(State()).rest, count, isRef, select, old(LedgerNow()),
              device.capacity))
      ensures status.NoError? ==>
                var r := ParseOutputs(old(State()).rest, count, isRef, select, old(LedgerNow()), device.capacity);
                State() == ReadUpTo(old(State()), r.rest) && LedgerNow() == r.value.1
    {
      hide Valid, State, ReadUpTo, ParseOutput, ParseOutputs, LedgerNow;
      ghost var st, ledger := State(), LedgerNow();
      OutputsNone(st, count, isRef, select, ledger, device.capacity);
      for i := 0 to count
        invariant Valid()
        invariant OutputsUpTo(st, count, isRef, select, ledger, device.capacity, i, State(), LedgerNow())
      {
        hide OutputsUpTo;
        OutputsStep(st, count, isRef, select, ledger, device.capacity, i, State(), LedgerNow());
        status := OneOutput(isRef, i == select);
        if status.Error? {
          return;
        }
      }
      OutputsAll(st, count, isRef, select, ledger, device.capacity, State(), LedgerNow());
      status := NoError;
    }

    /** The flag byte and the selected output number, which are not part of the transaction and not hashed. */
    method ReadHeader() returns (status: Status, flag: Byte, select: seq<Byte>)
      requires Valid()
      modifies `taken, `index, `signatureHash, `transactionHash, `hashesValid
      ensures Valid()
      ensures status == StatusOf(ParseHeader(old(State()).rest))
      ensures status.NoError? ==>
                var r := ParseHeader(old(State()).rest);
                (flag, select) == r.value && State().rest == r.rest
    {
      hide Valid, State, Read;
      ghost var st := State();
      hashesValid := false;
      flag, select := 0, [];
      var temp := new Byte[4];
      var err := GetTransactionBytes(temp, 1);
      if err {
        return Error(INVALID_FORMAT), flag, select;
      }
      ReadSize(st, 1, false, !suppressTransactionHash);
      ghost var st1 := State();
      flag := temp[..1][0];
      if flag != 0 {
        err := GetTransactionBytes(temp, 4);
        if err {
          return Error(INVALID_FORMAT), flag, select;
        }
        ReadSize(st1, 4, false, !suppressTransactionHash);
        select := temp[..4];
      }
      status := NoError;
    }

    /** Version and inputs. */
    method ReadFront(isRef: bool) returns (status: Status)
      requires Valid() && hashesValid && !suppressTransactionHash
      modifies `taken, `index, `signatureHash, `transactionHash, `referenceHash, `suppressTransactionHash
      ensures Valid()
      ensures status == StatusOf(ParseFront(old(State()).rest))
      ensures status.NoError? ==> !suppressTransactionHash
      ensures status.NoError? ==>
                var r := ParseFront(old(State()).rest);
                && State() == FrontRead(old(State()), r.value.0, r.value.1, r.rest)
                && referenceHash == old(referenceHash) + if isRef then [] else Outpoints(r.value.1)
    {
      hide Valid, State, Read, InputsRead, FrontRead, ParseVarInt, Expect, ParseInputs, Outpoints;
      ghost var st := State();
      status := ExpectWord(1);
      if status.Error? {
        return;
      }
      ghost var st1 := State();
      ExpectRest(st, 1);
      var err, numInputs;
      ghost var v;
      err, numInputs, v := GetVarInt();
      if err {
        VarIntError(st1.rest);
        return Error(INVALID_FORMAT);
      }
      VarIntSize(st1.rest);
      ReadSize(st1, |v.code|, true, true);
      ghost var st2 := State();
      if numInputs == 0 {
        return Error(INVALID_FORMAT);
      }
      if numInputs > MAX_INPUTS {
        return Error(TOO_MANY_INPUTS);
      }
      status := AllInputs(numInputs, isRef);
      if status.NoError? {
        FrontReadSteps(st, st1, st2, v, State());
      }
    }

    /** Outputs, lock time, hash type and the check for trailing data. */
    method ReadBack(isRef: bool, select: seq<Byte>) returns (status: Status)
      requires Valid() && hashesValid && !suppressTransactionHash
      modifies `taken, `index, `signatureHash, `transactionHash, `shown, fee
      ensures Valid()
      ensures status == StatusOf(ParseBack(old(State()).rest, isRef, select, old(LedgerNow()), device.capacity))
      ensures status.NoError? ==>
                var r := ParseBack(old(State()).rest, isRef, select, old(LedgerNow()), device.capacity);
                State() == ReadUpTo(old(State()), r.rest) && State().rest == r.rest && LedgerNow() == r.value.2
    {
      hide Valid, State, Read, ReadUpTo, ParseVarInt, Expect, ParseOutputs, LedgerNow, Val;
      ghost var st, ledger := State(), LedgerNow();
      var err, numOutputs;
      ghost var v;
      err, numOutputs, v := GetVarInt();
      if err {
        VarIntError(st.rest);
        return Error(INVALID_FORMAT);
      }
      VarIntSize(st.rest);
      ReadSize(st, |v.code|, true, true);
      if numOutputs == 0 {
        return Error(INVALID_FORMAT);
      }
      if numOutputs > MAX_OUTPUTS {
        return Error(TOO_MANY_OUTPUTS);
      }
      if isRef && Val(select) >= numOutputs {
        return Error(INVALID_REFERENCE);
      }
      ghost var st1 := State();
      status := AllOutputs(numOutputs, isRef, Val(select));
      if status.Error? {
        return;
      }
      ghost var outputs := ParseOutputs(st1.rest, numOutputs, isRef, Val(select), ledger, device.capacity);
      OutputsRest(st1, numOutputs, isRef, Val(select), ledger, device.capacity);
      ReadUpToTwice(st, |v.code|, outputs.rest);
      status := ReadEnd(isRef);
      if status.NoError? {
        EndRest(st, outputs.rest, isRef);
      }
    }

    /** Lock time and, for a spending transaction, hash type and end of data. */
    method ReadEnd(isRef: bool) returns (status: Status)
      requires Valid() && hashesValid && !suppressTransactionHash
      modifies `taken, `index, `signatureHash, `transactionHash
      ensures Valid()
      ensures status == StatusOf(ParseEnd(old(State()).rest, isRef))
      ensures status.NoError? ==> |old(State()).rest| >= EndSize(isRef)
      ensures status.NoError? ==> State() == Read(old(State()), EndSize(isRef), true, true)
    {
      hide Valid, State, Read, Expect;
      ghost var st := State();
      status := ExpectWord(0);
      if status.Error? {
        return;
      }
      ExpectRest(st, 0);
      if !isRef {
        ghost var st1 := State();
        status := ExpectWord(1);
        if status.Error? {
          return;
        }
        ExpectRest(st1, 1);
        ReadRead(st, 4, 4, true, true);
        ReadSize(st, 8, true, true);
        if !IsEndOfTransactionData() {
          return Error(INVALID_FORMAT);
        }
      }
    }

    predicate IsEndOfTransactionData()
      reads `index, `length
    {
      index >= length
    }

    /** Begins both hashes; from here on every byte read is fed to them. */
    method BeginHashes()
      requires Valid()
      modifies `signatureHash, `transactionHash, `hashesValid, `suppressTransactionHash
      ensures Valid() && hashesValid && !suppressTransactionHash
      ensures State() == Snapshot(old(State()).rest, [], [])
    {
      signatureHash, transactionHash := [], [];
      hashesValid := true;
      suppressTransactionHash := false;
    }

    /** Puts the fee on the display unless it is zero. */
    method ShowFee()
      requires fee.Length == 8
      modifies `feeShown
      ensures feeShown == if Val(fee[..]) == 0 then old(feeShown) else Val(fee[..])
    {
      assert fee[..8] == fee[..];
      var zero := BigIsZeroVariableSize(fee, 8);
      if zero == 0 {
        feeShown := Val(fee[..]);
      }
    }

    /** A transaction after its header, from the start of both hashes. */
    method ReadBody(flag: Byte, select: seq<Byte>, referenceDigest: seq<Byte>, ghost references: seq<Byte>)
      returns (status: Status)
      requires Valid() && hashesValid && !suppressTransactionHash
      requires State().signature == [] && State().transaction == []
      requires flag == 0 ==> referenceHash == [] && referenceDigest == device.hash(references)
      modifies `taken, `index, `signatureHash, `transactionHash, `referenceHash, `suppressTransactionHash, `shown, fee
      ensures Valid()
      ensures status == StatusOf(ParseBody(old(State()).rest, flag, select, Progress(references, old(LedgerNow())),
              device))
      ensures status.NoError? ==>
                var r := ParseBody(old(State()).rest, flag, select, Progress(references, old(LedgerNow())), device);
                && State() == Snapshot(r.rest, SignatureTranscript(r.value.0), TransactionTranscript(r.value.0))
                && LedgerNow() == r.value.1
                && (flag != 0 ==> referenceHash == old(referenceHash))
    {
      hide Valid, State, ReadUpTo, FrontRead, ParseFront, ParseBack, Outpoints, SignatureTranscript,
           TransactionTranscript, LedgerNow;
      ghost var st, ledger := State(), LedgerNow();
      status := ReadFront(flag != 0);
      if status.Error? {
        return;
      }
      ghost var front := ParseFront(st.rest);
      if flag == 0 {
        assert [] + Outpoints(front.value.1) == Outpoints(front.value.1);
        if device.hash(referenceHash) != referenceDigest {
          return Error(INVALID_REFERENCE);
        }
      }
      ghost var st1 := State();
      FrontReadRest(st, front.value.0, front.value.1, front.rest);
      status := ReadBack(flag != 0, select);
      if status.NoError? {
        TranscriptsComplete(st, st1, flag, select, ledger, device.capacity);
      }
    }

    /** One transaction of the stream. */
    method ParseTransactionInternal()
      returns (status: Status, isRef: bool, signatureDigest: seq<Byte>, transactionDigest: seq<Byte>)
      requires Valid()
      modifies this, fee
      ensures Valid() && base == old(base) && length == old(length)
      ensures status == StatusOf(ParseTransaction(old(State()).rest, length,
                                                  Progress(old(referenceHash), old(LedgerNow())), device))
      ensures status.NoError? ==>
                var r := ParseTransaction(old(State()).rest, length, Progress(old(referenceHash), old(LedgerNow())),
                    device);
                && State().rest == r.rest && LedgerNow() == r.value.1 && isRef == (r.value.0.isRef != 0)
                && signatureDigest == device.hash(SignatureTranscript(r.value.0))
                && transactionDigest == device.hash(TransactionTranscript(r.value.0))
                && (isRef ==> referenceHash == old(referenceHash) + Reference(r.value.0, device))
                && (!isRef && r.value.1.fee != 0 ==> feeShown == r.value.1.fee)
    {
      hide Valid, State, ParseHeader, ParseBody, SignatureTranscript, TransactionTranscript, Val;
      FeeWidth();
      isRef, signatureDigest, transactionDigest := false, [], [];
      if length > MAX_TRANSACTION_SIZE {
        return Error(TOO_LARGE), isRef, signatureDigest, transactionDigest;
      }
      ghost var st, references, ledger := State(), referenceHash, LedgerNow();
      var flag, select, referenceDigest: seq<Byte> := 0, [], [];
      status, flag, select := ReadHeader();
      if status.Error? {
        return;
      }
      isRef := flag != 0;
      if isRef {
        referenceHash := referenceHash + select;
      } else {
        referenceDigest := device.hash(referenceHash);
        referenceHash := [];
      }
      BeginHashes();
      ghost var s1 := State().rest;
      status := ReadBody(flag, select, referenceDigest, references);
      if status.Error? {
        return;
      }
      BodyFlag(s1, flag, select, Progress(references, ledger), device);
      if !isRef {
        ShowFee();
      }
      StateTranscripts();
      signatureDigest := device.hash(signatureHash);
      transactionDigest := device.hash(transactionHash);
      if isRef {
        referenceHash := referenceHash + Reversed(signatureDigest);
        assert references + select + Reversed(signatureDigest) == references + (select + Reversed(signatureDigest));
      }
    }

    lemma FeeWidth()
      requires Valid()
      ensures fee.Length == 8
    {
    }

    /** The transcripts are those of the current state. */
    lemma StateTranscripts()
      requires Valid()
      ensures State().signature == signatureHash && State().transaction == transactionHash
    {
    }

    /** Points the cursor at the next `total` bytes of the stream and clears the fee. */
    method Begin(total: nat)
      requires fee.Length == 8 && total <= 0xffffffff && taken + total <= |stream|
      modifies this, fee
      ensures Valid() && base == old(taken) && length == total && shown == old(shown) && referenceHash == []
      ensures State().rest == stream[old(taken)..old(taken) + total]
      ensures LedgerNow() == Ledger(0, shown)
    {
      hashesValid := false;
      base := taken;
      index := 0;
      length := total;
      forall k | 0 <= k < 8 {
        fee[k] := 0;
      }
      ValZero(fee[..]);
      referenceHash := [];
      hashesValid := true;
    }

    /** Reads whatever is left of the transaction data. */
    method Drain()
      requires Valid()
      modifies `taken, `index, `signatureHash, `transactionHash, `hashesValid
      ensures Valid() && index == length
    {
      hashesValid := false;
      var junk := new Byte[1];
      while !IsEndOfTransactionData()
        invariant Valid()
        decreases length - index
      {
        ghost var left := State();
        var err := GetTransactionBytes(junk, 1);
        if err {
          break;
        }
      }
    }

    /**
     Parses referenced transactions up to and including the spending one. On every outcome exactly `total`
     bytes are taken from the stream.
     */
    method ParseTransactions(total: nat)
        returns (status: Status, signatureDigest: seq<Byte>, transactionDigest: seq<Byte>)
      requires fee.Length == 8 && total <= 0xffffffff && taken + total <= |stream|
      modifies this, fee
      ensures taken == old(taken) + total
      ensures status == StatusOf(ParseStream(stream[old(taken)..old(taken) + total], total,
                                             Progress([], Ledger(0, old(shown))), device))
      ensures status.NoError? ==>
                var st := ParseStream(stream[old(taken)..old(taken) + total], total,
                                      Progress([], Ledger(0, old(shown))), device).value;
                && signatureDigest == device.hash(SignatureTranscript(st.spend))
                && transactionDigest == device.hash(TransactionTranscript(st.spend))
                && LedgerNow() == st.ledger
                && (st.ledger.fee != 0 ==> feeShown == st.ledger.fee)
    {
      ghost var start, s := taken, stream[taken..taken + total];
      Begin(total);
      ghost var progress := Progress([], LedgerNow());
      ghost var whole := ParseStream(s, total, progress, device);
      hide Valid, State, LedgerNow, ParseStream, ParseTransaction, SignatureTranscript, TransactionTranscript;
      var isRef := true;
      status, signatureDigest, transactionDigest := NoError, [], [];
      while status.NoError? && isRef
        invariant Valid() && base == start && length == total
        invariant StreamUpTo(whole, status, isRef, State().rest, total, Progress(referenceHash, LedgerNow()), device,
                             signatureDigest, transactionDigest, feeShown)
        decreases if status.NoError? && isRef then 1 else 0, |State().rest|
      {
        StreamStep(whole, State().rest, total, Progress(referenceHash, LedgerNow()), device,
                   signatureDigest, transactionDigest, feeShown);
        status, isRef, signatureDigest, transactionDigest := ParseTransactionInternal();
      }
      Drain();
      Cursor();
    }

    lemma Cursor()
      requires Valid()
      ensures taken == base + index
    {
    }
  }

  /** Where the loop over the stream stands: still on references, or finished as the whole parse finishes. */
  ghost predicate StreamUpTo(whole: Parsed<Stream>, status: Status, isRef: bool, rest: seq<Byte>, total: nat,
                             progress: Progress, device: Device, signatureDigest: seq<Byte>,
                             transactionDigest: seq<Byte>, feeShown: nat)
  {
    if status.Error? then whole == Fail(status.error)
    else if isRef then
      var later := ParseStream(rest, total, progress, device);
      if later.Fail? then whole == Fail(later.error)
      else whole.Ok? && whole.value.spend == later.value.spend && whole.value.ledger == later.value.ledger
    else
      && whole.Ok? && progress.ledger == whole.value.ledger
      && signatureDigest == device.hash(SignatureTranscript(whole.value.spend))
      && transactionDigest == device.hash(TransactionTranscript(whole.value.spend))
      && (whole.value.ledger.fee != 0 ==> feeShown == whole.value.ledger.fee)
  }

  /** One more transaction of the stream, whatever comes of it. */
  lemma StreamStep(whole: Parsed<Stream>, rest: seq<Byte>, total: nat, progress: Progress, device: Device,
                   signatureDigest: seq<Byte>, transactionDigest: seq<Byte>, feeShown: nat)
    requires StreamUpTo(whole, NoError, true, rest, total, progress, device, signatureDigest, transactionDigest,
             feeShown)
    ensures var r := ParseTransaction(rest, total, progress, device);
            if r.Fail? then whole == Fail(r.error)
            else
              var (tx, ledger) := r.value;
              if tx.isRef == 0 then whole.Ok? && whole.value.spend == tx && whole.value.ledger == ledger
              else
                && |r.rest| < |rest|
                && var next := ParseStream(r.rest, total, Progress(progress.references + Reference(tx, device), ledger),
                    device);
                   if next.Fail? then whole == Fail(next.error)
                   else whole.Ok? && whole.value.spend == next.value.spend && whole.value.ledger == next.value.ledger
  {
    hide ParseTransaction, Reference, SignatureTranscript, TransactionTranscript;
  }

  lemma FrontReadRest(st: Snapshot, count: VarInt, inputs: seq<Input>, rest: seq<Byte>)
    ensures FrontRead(st, count, inputs, rest).rest == rest
  {
  }

  lemma BodyFlag(s: seq<Byte>, flag: Byte, select: seq<Byte>, progress: Progress, device: Device)
    requires ParseBody(s, flag, select, progress, device).Ok?
    ensures var tx := ParseBody(s, flag, select, progress, device).value.0; tx.isRef == flag && tx.select == select
  {
  }

  /** The back of a transaction adds its printed tail to both transcripts. */
  lemma BackRead(st: Snapshot, tx: Transaction, rest: seq<Byte>)
    requires st.rest == PrintTail(tx) + rest
    ensures ReadUpTo(st, rest) == Snapshot(rest, st.signature + PrintTail(tx), st.transaction + PrintTail(tx))
  {
    hide PrintTail;
    var tail := PrintTail(tx);
    assert st.rest[..|tail|] == tail && st.rest[|tail|..] == rest;
  }

  lemma TailPrinted(s: seq<Byte>, flag: Byte, select: seq<Byte>, ledger: Ledger, capacity: nat,
      front: (VarInt, seq<Input>))
    requires ParseBack(s, flag != 0, select, ledger, capacity).Ok?
    ensures var r := ParseBack(s, flag != 0, select, ledger, capacity);
            s == PrintTail(Transaction(flag, select, front.0, front.1, r.value.0, r.value.1)) + r.rest
  {
    hide ParseBack, PrintOutputs, ValidOutputs, Settles, Payable, ValidVarInt, Val, Word;
    BackSound(s, flag != 0, select, ledger, capacity);
  }

  /** After front and back the transcripts are those of the whole transaction. */
  lemma TranscriptsComplete(st1: Snapshot, st2: Snapshot, flag: Byte, select: seq<Byte>, ledger: Ledger, capacity: nat)
    requires st1.signature == [] && st1.transaction == [] && ParseFront(st1.rest).Ok?
    requires var r := ParseFront(st1.rest); st2 == FrontRead(st1, r.value.0, r.value.1, r.rest)
    requires ParseBack(st2.rest, flag != 0, select, ledger, capacity).Ok?
    ensures var (f, r) := (ParseFront(st1.rest).value, ParseBack(st2.rest, flag != 0, select, ledger, capacity));
            var tx := Transaction(flag, select, f.0, f.1, r.value.0, r.value.1);
            ReadUpTo(st2, r.rest) == Snapshot(r.rest, SignatureTranscript(tx), TransactionTranscript(tx))
  {
    hide ParseFront, ParseBack, PrintInputs, PrintBareInputs, PrintTail, Word, ReadUpTo;
    var r := ParseBack(st2.rest, flag != 0, select, ledger, capacity);
    var f := ParseFront(st1.rest).value;
    var tx := Transaction(flag, select, f.0, f.1, r.value.0, r.value.1);
    TailPrinted(st2.rest, flag, select, ledger, capacity, f);
    BackRead(st2, tx, r.rest);
    var head := Word(1) + f.0.code;
    assert [] + (head + PrintInputs(f.1)) == head + PrintInputs(f.1);
    assert [] + (head + PrintBareInputs(f.1)) == head + PrintBareInputs(f.1);
  }

  function EndSize(isRef: bool): nat {
    if isRef then 4 else 8
  }

  /** The part of ParseBack after the outputs. */
  function ParseEnd(s: seq<Byte>, isRef: bool): Parsed<()> {
    var (_, s1) :- Expect(s, 0);
    var (_, s2) :- ExpectHashType(s1, isRef);
    if !isRef && s2 != [] then Fail(INVALID_FORMAT) else Ok((), s2)
  }

  lemma EndRest(st: Snapshot, rest: seq<Byte>, isRef: bool)
    requires |rest| <= |st.rest| && ReadUpTo(st, rest).rest == rest && |rest| >= EndSize(isRef)
    requires ParseEnd(rest, isRef).Ok?
    ensures var r := ParseEnd(rest, isRef);
            && r.rest == rest[EndSize(isRef)..]
            && Read(ReadUpTo(st, rest), EndSize(isRef), true, true) == ReadUpTo(st, r.rest)
            && ReadUpTo(st, r.rest).rest == r.rest
  {
    ReadRead(st, |st.rest| - |rest|, EndSize(isRef), true, true);
  }

  lemma ExpectRest(st: Snapshot, value: nat)
    requires value < 0x1_0000_0000 && Expect(st.rest, value).Ok? && 4 <= |st.rest|
    ensures Read(st, 4, true, true).rest == Expect(st.rest, value).rest == st.rest[4..]
    ensures st.rest[..4] == Word(value)
  {
    ExpectSound(st.rest, value);
  }

  lemma OutputsRest(st: Snapshot, count: nat, isRef: bool, select: int, ledger: Ledger, capacity: nat)
    requires ParseOutputs(st.rest, count, isRef, select, ledger, capacity).Ok?
    ensures var r := ParseOutputs(st.rest, count, isRef, select, ledger, capacity);
            |r.rest| <= |st.rest| && ReadUpTo(st, r.rest).rest == r.rest
  {
    OutputsSound(st.rest, count, isRef, select, ledger, capacity);
    hide ParseOutputs, PrintOutputs, ValidOutputs, Settles, Payable;
    var r := ParseOutputs(st.rest, count, isRef, select, ledger, capacity);
    var printed := PrintOutputs(r.value.0);
    assert st.rest == printed + r.rest;
    assert st.rest[|printed|..] == r.rest;
  }

  /** The snapshot after version and inputs. */
  ghost function FrontRead(st: Snapshot, count: VarInt, inputs: seq<Input>, rest: seq<Byte>): Snapshot {
    Snapshot(rest,
             st.signature + (Word(1) + count.code + PrintInputs(inputs)),
             st.transaction + (Word(1) + count.code + PrintBareInputs(inputs)))
  }

  lemma FrontReadSteps(st: Snapshot, st1: Snapshot, st2: Snapshot, v: VarInt, st3: Snapshot)
    requires Expect(st.rest, 1).Ok? && 4 <= |st.rest| && st1 == Read(st, 4, true, true)
    requires ParseVarInt(st1.rest).Ok? && v == ParseVarInt(st1.rest).value
    requires |v.code| <= |st1.rest| && st2 == Read(st1, |v.code|, true, true)
    requires 0 < v.value <= MAX_INPUTS && ParseInputs(st2.rest, v.value).Ok?
    requires var r := ParseInputs(st2.rest, v.value); st3 == InputsRead(st2, r.value, r.rest)
    ensures ParseFront(st.rest).Ok?
    ensures var r := ParseFront(st.rest); st3 == FrontRead(st, r.value.0, r.value.1, r.rest)
  {
    hide ParseVarInt, Expect, ParseInputs, Word, PrintInputs, PrintBareInputs;
    ExpectRest(st, 1);
    VarIntSize(st1.rest);
    var inputs := ParseInputs(st2.rest, v.value).value;
    var p, b := PrintInputs(inputs), PrintBareInputs(inputs);
    assert st.signature + Word(1) + v.code + p == st.signature + (Word(1) + v.code + p);
    assert st.transaction + Word(1) + v.code + b == st.transaction + (Word(1) + v.code + b);
  }

  /** i outputs read and booked: the outcome is that of the rest of the outputs from here. */
  ghost predicate OutputsUpTo(st: Snapshot, count: nat, isRef: bool, select: int, ledger: Ledger, capacity: nat,
                              i: nat, now: Snapshot, ledgerNow: Ledger)
  {
    && i <= count && |now.rest| <= |st.rest| && now == ReadUpTo(st, now.rest)
    && var whole := ParseOutputs(st.rest, count, isRef, select, ledger, capacity);
       var later := ParseOutputs(now.rest, count - i, isRef, select - i, ledgerNow, capacity);
       if later.Fail? then whole == Fail(later.error)
       else whole.Ok? && whole.rest == later.rest && whole.value.1 == later.value.1
  }

  lemma OutputsNone(st: Snapshot, count: nat, isRef: bool, select: int, ledger: Ledger, capacity: nat)
    ensures OutputsUpTo(st, count, isRef, select, ledger, capacity, 0, st, ledger)
  {
    hide ParseOutputs;
    ReadNone(st, true, true);
  }

  lemma OutputsStep(st: Snapshot, count: nat, isRef: bool, select: int, ledger: Ledger, capacity: nat,
                    i: nat, now: Snapshot, ledgerNow: Ledger)
    requires i < count && OutputsUpTo(st, count, isRef, select, ledger, capacity, i, now, ledgerNow)
    ensures var r := ParseOutput(now.rest, isRef, i == select, ledgerNow, capacity);
            if r.Fail? then ParseOutputs(st.rest, count, isRef, select, ledger, capacity) == Fail(r.error)
            else OutputsUpTo(st, count, isRef, select, ledger, capacity, i + 1, ReadUpTo(now, r.rest), r.value.1)
  {
    hide ParseOutput, Read;
    assert (i == select) == (select - i == 0);
    var r := ParseOutput(now.rest, isRef, i == select, ledgerNow, capacity);
    if r.Ok? {
      ReadUpToRest(st, now, r.rest, i == select, ledgerNow, isRef, capacity);
      ReadUpToTwice(st, |st.rest| - |now.rest|, r.rest);
    }
  }

  /** The bytes left after an output are a suffix of those before it. */
  lemma ReadUpToRest(st: Snapshot, now: Snapshot, rest: seq<Byte>, selected: bool, ledger: Ledger, isRef: bool,
      capacity: nat)
    requires ParseOutput(now.rest, isRef, selected, ledger, capacity).Ok?
    requires rest == ParseOutput(now.rest, isRef, selected, ledger, capacity).rest
    ensures ReadUpTo(now, rest).rest == rest
  {
    OutputSound(now.rest, isRef, selected, ledger, capacity);
    hide ParseOutput, PrintOutput, ValidOutput;
    var o := ParseOutput(now.rest, isRef, selected, ledger, capacity).value.0;
    assert now.rest == PrintOutput(o) + rest;
    assert now.rest[|PrintOutput(o)|..] == rest;
  }

  lemma OutputsAll(st: Snapshot, count: nat, isRef: bool, select: int, ledger: Ledger, capacity: nat,
                   now: Snapshot, ledgerNow: Ledger)
    requires OutputsUpTo(st, count, isRef, select, ledger, capacity, count, now, ledgerNow)
    ensures var r := ParseOutputs(st.rest, count, isRef, select, ledger, capacity);
            r.Ok? && r.rest == now.rest && r.value.1 == ledgerNow && |now.rest| <= |st.rest|
            && now == ReadUpTo(st, now.rest)
  {
  }

  /** The snapshot when everything up to `rest` has been fed to both hashes. */
  ghost function ReadUpTo(st: Snapshot, rest: seq<Byte>): Snapshot
    requires |rest| <= |st.rest|
  {
    Read(st, |st.rest| - |rest|, true, true)
  }

  lemma ReadTwice(st: Snapshot, a: nat, b: nat)
    requires a + b <= |st.rest|
    ensures Read(Read(st, a, true, true), b, true, true) == ReadUpTo(st, st.rest[a..][b..])
  {
    ReadRead(st, a, b, true, true);
  }

  lemma ReadUpToTwice(st: Snapshot, a: nat, rest: seq<Byte>)
    requires a <= |st.rest| && |rest| <= |st.rest| - a
    ensures |Read(st, a, true, true).rest| == |st.rest| - a
    ensures ReadUpTo(Read(st, a, true, true), rest) == ReadUpTo(st, rest)
  {
    ReadRead(st, a, |st.rest| - a - |rest|, true, true);
  }

  lemma PayScriptRest(s: seq<Byte>, length: nat)
    requires ParsePayScript(s, length).Ok?
    ensures length <= |s| && ParsePayScript(s, length).rest == s[length..]
  {
    hide ParsePayScript;
  }

  lemma MaxMoneyBytes(s: seq<Byte>)
    requires s == [0x00, 0x40, 0x07, 0x5A, 0xF0, 0x75, 0x07, 0x00]
    ensures Val(s) == MAX_MONEY
  {
    assert Pow256(4) == 0x1_0000_0000;
    hide Val, Pow256;
    var low: seq<Byte>, high: seq<Byte> := [0x00, 0x40, 0x07, 0x5A], [0xF0, 0x75, 0x07, 0x00];
    assert s == low + high;
    ValConcat(low, high);
    ValFour(0x00, 0x40, 0x07, 0x5A);
    ValFour(0xF0, 0x75, 0x07, 0x00);
  }

  lemma EightBytes(a: seq<Byte>, b: seq<Byte>)
    requires |a| == |b| == 8
    ensures Val(a) < TWO64 && Val(b) < TWO64 && Pow256(8) == TWO64
  {
    assert Pow256(8) == TWO64;
    hide Val, Pow256;
    ValBound(a);
    ValBound(b);
  }

  /** Which of the three reads of a standard script fails, and what the script is if none does. */
  lemma PayScriptPieces(s: seq<Byte>, length: nat)
    ensures length != 0x19 && length != 0x17 ==> ParsePayScript(s, length) == Fail(NON_STANDARD)
    ensures length == 0x19 || length == 0x17 ==>
              var h, t := if length == 0x19 then 3 else 2, if length == 0x19 then 2 else 1;
              var head: seq<Byte> := if length == 0x19 then [0x76, 0xa9, 0x14] else [0xa9, 0x14];
              var tail: seq<Byte> := if length == 0x19 then [0x88, 0xac] else [0x87];
              var r := ParsePayScript(s, length);
              if |s| < h then r == Fail(INVALID_FORMAT)
              else if s[..h] != head then r == Fail(NON_STANDARD)
              else if |s[h..]| < 20 then r == Fail(INVALID_FORMAT)
              else if |s[h + 20..]| < t then r == Fail(INVALID_FORMAT)
              else if s[h + 20..][..t] != tail then r == Fail(NON_STANDARD)
              else r == Ok(s[..length], s[length..])
                   && Payee(s[..length])
                      == (if length == 0x19 then ADDRESS_VERSION_PUBKEY else ADDRESS_VERSION_P2SH, s[h..][..20])
  {
    if length == 0x19 || length == 0x17 {
      var h := if length == 0x19 then 3 else 2;
      if |s| >= h + 20 {
        assert s[h..][20..] == s[h + 20..];
        if |s| >= length {
          var t := length - h - 20;
          assert s[..h] + s[h..][..20] + s[h + 20..][..t] == s[..length];
          assert s[h + 20..][t..] == s[length..];
          assert s[..length][h..h + 20] == s[h..][..20];
        }
      }
    }
  }

  /** A list parse continued after the items already read. */
  function Prefixed<T>(done: seq<T>, r: Parsed<seq<T>>): Parsed<seq<T>> {
    if r.Fail? then r else Ok(done + r.value, r.rest)
  }

  ghost function InputsRead(st: Snapshot, inputs: seq<Input>, rest: seq<Byte>): Snapshot {
    Snapshot(rest, st.signature + PrintInputs(inputs), st.transaction + PrintBareInputs(inputs))
  }

  /** i inputs read: the transcripts hold them, and the rest of the parse is the parse of the rest. */
  ghost predicate InputsUpTo(st: Snapshot, reference: seq<Byte>, count: nat, isRef: bool,
                             done: seq<Input>, i: nat, now: Snapshot, referenceNow: seq<Byte>)
  {
    && i <= count && |done| == i
    && ParseInputs(st.rest, count) == Prefixed(done, ParseInputs(now.rest, count - i))
    && now == InputsRead(st, done, now.rest)
    && referenceNow == reference + if isRef then [] else Outpoints(done)
  }

  lemma InputsNone(st: Snapshot, reference: seq<Byte>, count: nat, isRef: bool)
    ensures InputsUpTo(st, reference, count, isRef, [], 0, st, reference)
  {
    hide ParseInputs;
    var r := ParseInputs(st.rest, count);
    if r.Ok? {
      assert [] + r.value == r.value;
    }
  }

  lemma InputsStep(st: Snapshot, reference: seq<Byte>, count: nat, isRef: bool,
                   done: seq<Input>, i: nat, now: Snapshot, referenceNow: seq<Byte>)
    requires i < count && InputsUpTo(st, reference, count, isRef, done, i, now, referenceNow)
    ensures var r := ParseInput(now.rest);
            if r.Fail? then ParseInputs(st.rest, count) == Fail(r.error)
            else InputsUpTo(st, reference, count, isRef, done + [r.value], i + 1, InputRead(now, r.value, r.rest),
                            referenceNow + if isRef then [] else r.value.index + r.value.txid)
  {
    hide ParseInput, PrintInput, PrintInputs, PrintBareInputs, Outpoints, Word;
    var r := ParseInput(now.rest);
    InputsParseStep(now.rest, count - i);
    if r.Ok? {
      var later := ParseInputs(r.rest, count - i - 1);
      if later.Ok? {
        assert done + ([r.value] + later.value) == done + [r.value] + later.value;
      }
      hide ParseInputs;
      InputsSnoc(done, r.value);
      Associate(st.signature, PrintInputs(done), PrintInput(r.value));
      Associate(st.transaction, PrintBareInputs(done), r.value.txid + r.value.index + Word(SEQUENCE));
      Associate(reference, Outpoints(done), r.value.index + r.value.txid);
    }
  }

  lemma Associate(a: seq<Byte>, b: seq<Byte>, c: seq<Byte>)
    ensures a + b + c == a + (b + c)
  {
  }

  lemma InputsParseStep(s: seq<Byte>, count: nat)
    requires count > 0
    ensures var r := ParseInput(s);
            if r.Fail? then ParseInputs(s, count) == Fail(r.error)
            else
              var later := ParseInputs(r.rest, count - 1);
              ParseInputs(s, count) == if later.Fail? then Fail(later.error)
                  else Ok([r.value] + later.value, later.rest)
  {
    hide ParseInput;
  }

  lemma InputsSnoc(inputs: seq<Input>, last: Input)
    ensures PrintInputs(inputs + [last]) == PrintInputs(inputs) + PrintInput(last)
    ensures PrintBareInputs(inputs + [last]) == PrintBareInputs(inputs) + (last.txid + last.index + Word(SEQUENCE))
    ensures Outpoints(inputs + [last]) == Outpoints(inputs) + (last.index + last.txid)
  {
    hide *;
    PrintInputsSnoc(inputs, last);
    BareInputsSnoc(inputs, last);
    OutpointsSnoc(inputs, last);
  }

  lemma {:induction false} PrintInputsSnoc(inputs: seq<Input>, last: Input)
    ensures PrintInputs(inputs + [last]) == PrintInputs(inputs) + PrintInput(last)
  {
    hide PrintInput;
    if inputs == [] {
      assert [last][1..] == [] && [] + [last] == [last];
    } else {
      PrintInputsSnoc(inputs[1..], last);
      assert (inputs + [last])[1..] == inputs[1..] + [last];
    }
  }

  lemma {:induction false} BareInputsSnoc(inputs: seq<Input>, last: Input)
    ensures PrintBareInputs(inputs + [last]) == PrintBareInputs(inputs) + (last.txid + last.index + Word(SEQUENCE))
  {
    hide Word;
    if inputs == [] {
      assert [last][1..] == [] && [] + [last] == [last];
    } else {
      BareInputsSnoc(inputs[1..], last);
      assert (inputs + [last])[1..] == inputs[1..] + [last];
    }
  }

  lemma {:induction false} OutpointsSnoc(inputs: seq<Input>, last: Input)
    ensures Outpoints(inputs + [last]) == Outpoints(inputs) + (last.index + last.txid)
  {
    if inputs == [] {
      assert [last][1..] == [] && [] + [last] == [last];
    } else {
      OutpointsSnoc(inputs[1..], last);
      assert (inputs + [last])[1..] == inputs[1..] + [last];
    }
  }

  /** An output is its amount, checked and booked, and its script. */
  lemma OutputParts(s: seq<Byte>, isRef: bool, selected: bool, ledger: Ledger, capacity: nat)
    ensures var r := ParseOutput(s, isRef, selected, ledger, capacity);
            if |s| < 8 then r == Fail(INVALID_FORMAT)
            else if Val(s[..8]) > MAX_MONEY || Overflows(isRef, selected, Val(s[..8]), ledger.fee) then
              r == Fail(INVALID_AMOUNT)
            else
              var t := ParseOutputScript(s[8..], isRef, Val(s[..8]), ledger.shown, capacity);
              if t.Fail? then r == Fail(t.error)
              else
                && r.Ok? && r.rest == t.rest
                && r.value.1 == Ledger(Booked(isRef, selected, Val(s[..8]), ledger.fee), t.value.2)
  {
    hide ParseOutputScript, Overflows, Booked, Val;
  }

  lemma InputsAll(st: Snapshot, reference: seq<Byte>, count: nat, isRef: bool,
                  done: seq<Input>, now: Snapshot, referenceNow: seq<Byte>)
    requires InputsUpTo(st, reference, count, isRef, done, count, now, referenceNow)
    ensures ParseInputs(st.rest, count) == Ok(done, now.rest)
    ensures now == InputsRead(st, done, now.rest)
    ensures referenceNow == reference + if isRef then [] else Outpoints(done)
  {
    assert done + [] == done;
  }

  lemma VarIntError(s: seq<Byte>)
    requires ParseVarInt(s).Fail?
    ensures ParseVarInt(s).error == INVALID_FORMAT
  {
  }

  lemma VarIntSize(s: seq<Byte>)
    requires ParseVarInt(s).Ok?
    ensures var v := ParseVarInt(s).value;
            |v.code| <= |s| && s[..|v.code|] == v.code && s[|v.code|..] == ParseVarInt(s).rest
  {
  }

  /** Reading an input is reading its 36 bytes of outpoint, then its script. */
  lemma OutpointParsed(s: seq<Byte>)
    ensures |s| < 36 ==> ParseInput(s) == Fail(INVALID_FORMAT)
    ensures |s| >= 36 ==>
              var r := ParseInputScript(s[36..]);
              ParseInput(s) == if r.Fail? then Fail(r.error)
                  else Ok(Input(s[..32], s[32..36], r.value.0, r.value.1), r.rest)
  {
    hide ParseInputScript;
    if |s| >= 36 {
      assert s[32..][..4] == s[32..36] && s[32..][4..] == s[36..];
    }
  }

  /** The snapshot after an input's script and sequence number. */
  ghost function ScriptRead(st: Snapshot, length: VarInt, script: seq<Byte>, rest: seq<Byte>): Snapshot {
    Snapshot(rest, st.signature + (length.code + script + Word(SEQUENCE)), st.transaction + Word(SEQUENCE))
  }

  lemma ScriptReadSteps(st: Snapshot, v: VarInt, st1: Snapshot, st2: Snapshot, st3: Snapshot)
    requires ParseVarInt(st.rest).Ok? && v == ParseVarInt(st.rest).value
    requires |v.code| <= |st.rest| && st1 == Read(st, |v.code|, true, false)
    requires v.value <= |st1.rest| && st2 == Read(st1, v.value, true, false)
    requires Expect(st2.rest, SEQUENCE).Ok? && 4 <= |st2.rest| && st3 == Read(st2, 4, true, true)
    ensures ParseInputScript(st.rest).Ok?
    ensures var r := ParseInputScript(st.rest); st3 == ScriptRead(st, r.value.0, r.value.1, r.rest)
  {
    hide ParseVarInt, Expect, Word;
    VarIntSize(st.rest);
    ExpectSound(st2.rest, SEQUENCE);
    var w, script := Word(SEQUENCE), st1.rest[..v.value];
    assert st2.rest[..4] == w && st2.rest[4..] == Expect(st2.rest, SEQUENCE).rest;
    assert st.signature + v.code + script + w == st.signature + (v.code + script + w);
  }

  /** The snapshot after an input: all of it in the signature transcript, its script missing from the other. */
  ghost function InputRead(st: Snapshot, input: Input, rest: seq<Byte>): Snapshot {
    Snapshot(rest, st.signature + PrintInput(input),
             st.transaction + (input.txid + input.index + Word(SEQUENCE)))
  }

  lemma InputReadSteps(st: Snapshot, st1: Snapshot, st2: Snapshot)
    requires 36 <= |st.rest| && st1 == Read(st, 36, true, true)
    requires ParseInputScript(st1.rest).Ok?
    requires var r := ParseInputScript(st1.rest); st2 == ScriptRead(st1, r.value.0, r.value.1, r.rest)
    ensures ParseInput(st.rest).Ok? && st2 == InputRead(st, ParseInput(st.rest).value, ParseInput(st.rest).rest)
  {
    hide ParseInputScript, ParseInput, Word;
    OutpointParsed(st.rest);
    var r := ParseInputScript(st1.rest).value;
    var a, b := st.rest[..32], st.rest[32..36];
    var c := r.0.code + r.1 + Word(SEQUENCE);
    assert st.rest[..36] == a + b;
    assert st.signature + (a + b) + c == st.signature + (a + b + r.0.code + r.1 + Word(SEQUENCE));
    assert st.transaction + (a + b) + Word(SEQUENCE) == st.transaction + (a + b + Word(SEQUENCE));
  }

  lemma ReadNone(st: Snapshot, feed: bool, both: bool)
    ensures Read(st, 0, feed, both) == st
  {
    assert st.rest[0..] == st.rest;
  }

  lemma ReadSize(st: Snapshot, k: nat, feed: bool, both: bool)
    requires k <= |st.rest|
    ensures Read(st, k, feed, both).rest == st.rest[k..]
  {
  }

  lemma ReadAfterOne(st: Snapshot, k: nat, feed: bool, both: bool)
    requires 1 <= |st.rest|
    ensures var next := Read(st, 1, feed, both);
            && next.rest == st.rest[1..]
            && (1 + k <= |st.rest| ==>
                  && next.rest[..k] == st.rest[1..1 + k]
                  && Read(next, k, feed, both) == Read(st, 1 + k, feed, both))
  {
    if 1 + k <= |st.rest| {
      ReadRead(st, 1, k, feed, both);
    }
  }

  lemma ReadFirst(st: Snapshot, i: nat, feed: bool, both: bool)
    requires i < |st.rest|
    ensures var next := Read(st, i, feed, both);
            next.rest == st.rest[i..] && Read(next, 1, feed, both) == Read(st, i + 1, feed, both)
  {
    ReadRead(st, i, 1, feed, both);
  }
}
