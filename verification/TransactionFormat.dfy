/**
 The transaction stream that transaction.c accepts, as functions on byte strings: a parser with the code's
 order of checks, a printer, and the two facts that make them inverse to each other.
 */
module TransactionFormat {
  import opened Arith
  import opened Bytes

  datatype TransactionError =
    INVALID_FORMAT | TOO_MANY_INPUTS | TOO_MANY_OUTPUTS | TOO_LARGE | NON_STANDARD | INVALID_AMOUNT | INVALID_REFERENCE

  const MAX_TRANSACTION_SIZE: nat := 2000000
  const MAX_INPUTS: nat := 5000
  const MAX_OUTPUTS: nat := 2000
  /** 21 million bitcoins, in units of 10^-8. */
  const MAX_MONEY: nat := 2100000000000000

  const ADDRESS_VERSION_PUBKEY: Byte := 0x00
  const ADDRESS_VERSION_P2SH: Byte := 0x05

  /** A parse: the value and the bytes not yet read, or the error the firmware reports. */
  datatype Parsed<T> = Ok(value: T, rest: seq<Byte>) | Fail(error: TransactionError) {
    predicate IsFailure() {
      Fail?
    }

    function PropagateFailure<U>(): Parsed<U>
      requires Fail?
    {
      Fail(error)
    }

    function Extract(): (T, seq<Byte>)
      requires Ok?
    {
      (value, rest)
    }
  }

  /** A variable-sized integer and the 1, 3 or 5 bytes it was written in; shorter forms are not enforced. */
  datatype VarInt = VarInt(value: nat, code: seq<Byte>)

  datatype Input = Input(txid: seq<Byte>, index: seq<Byte>, scriptLength: VarInt, script: seq<Byte>)

  datatype Output = Output(amount: seq<Byte>, scriptLength: VarInt, script: seq<Byte>)

  /** isRef is the leading byte; `select` the output number that follows it when it is not zero. */
  datatype Transaction = Transaction(isRef: Byte, select: seq<Byte>, numInputs: VarInt, inputs: seq<Input>,
                                     numOutputs: VarInt, outputs: seq<Output>)

  /** One line shown to the user: the amount and what the address text is computed from. */
  datatype Shown = Shown(amount: nat, version: Byte, hash: seq<Byte>)

  // ----- parsing -----

  function Take(s: seq<Byte>, k: nat): (r: Parsed<seq<Byte>>)
    ensures r.Ok? ==> |r.rest| == |s| - k && s == r.value + r.rest
  {
    if |s| < k then Fail(INVALID_FORMAT) else Ok(s[..k], s[k..])
  }

  function ParseVarInt(s: seq<Byte>): (r: Parsed<VarInt>)
    ensures r.Ok? ==> |r.rest| < |s|
  {
    if |s| < 1 then Fail(INVALID_FORMAT)
    else if s[0] < 0xfd then Ok(VarInt(s[0], s[..1]), s[1..])
    else if s[0] == 0xfd then
      if |s| < 3 then Fail(INVALID_FORMAT) else Ok(VarInt(Val(s[1..3]), s[..3]), s[3..])
    else if s[0] == 0xfe then
      if |s| < 5 then Fail(INVALID_FORMAT) else Ok(VarInt(Val(s[1..5]), s[..5]), s[5..])
    else Fail(INVALID_FORMAT)
  }

  /** A four-byte constant: version, sequence number, lock time or hash type. */
  function Expect(s: seq<Byte>, value: nat): (r: Parsed<()>)
    ensures r.Ok? ==> |r.rest| < |s|
  {
    var (word, rest) :- Take(s, 4);
    if Val(word) == value then Ok((), rest) else Fail(NON_STANDARD)
  }

  const SEQUENCE: nat := 0xFFFFFFFF

  /** An input's script with its length, and the sequence number that must follow. */
  function ParseInputScript(s: seq<Byte>): (r: Parsed<(VarInt, seq<Byte>)>)
    ensures r.Ok? ==> |r.rest| < |s|
  {
    var (length, s1) :- ParseVarInt(s);
    var (script, s2) :- Take(s1, length.value);
    var (_, s3) :- Expect(s2, SEQUENCE);
    Ok((length, script), s3)
  }

  function ParseInput(s: seq<Byte>): (r: Parsed<Input>)
    ensures r.Ok? ==> |r.rest| < |s|
  {
    var (txid, s1) :- Take(s, 32);
    var (index, s2) :- Take(s1, 4);
    var (script, s3) :- ParseInputScript(s2);
    Ok(Input(txid, index, script.0, script.1), s3)
  }

  function ParseInputs(s: seq<Byte>, count: nat): (r: Parsed<seq<Input>>)
    ensures r.Ok? ==> |r.rest| <= |s| && |r.value| == count
  {
    if count == 0 then Ok([], s)
    else
      var (first, s1) :- ParseInput(s);
      var (others, s2) :- ParseInputs(s1, count - 1);
      Ok([first] + others, s2)
  }

  /** The address a standard output script pays to: pay to public key hash, or pay to script hash. */
  function Payee(script: seq<Byte>): (r: (Byte, seq<Byte>))
    requires IsTemplate(script)
  {
    if |script| == 0x19 then (ADDRESS_VERSION_PUBKEY, script[3..23]) else (ADDRESS_VERSION_P2SH, script[2..22])
  }

  predicate IsTemplate(script: seq<Byte>) {
    || (|script| == 0x19 && script[..3] == [0x76, 0xa9, 0x14] && script[23..] == [0x88, 0xac])
    || (|script| == 0x17 && script[..2] == [0xa9, 0x14] && script[22..] == [0x87])
  }

  /** The script of a spending output, read piece by piece with the code's order of errors. */
  function ParsePayScript(s: seq<Byte>, length: nat): (r: Parsed<seq<Byte>>)
    ensures r.Ok? ==> IsTemplate(r.value) && |r.value| == length && s == r.value + r.rest
  {
    if length == 0x19 then
      var (head, s1) :- Take(s, 3);
      if head != [0x76, 0xa9, 0x14] then Fail(NON_STANDARD)
      else
        var (hash, s2) :- Take(s1, 20);
        var (tail, s3) :- Take(s2, 2);
        if tail != [0x88, 0xac] then Fail(NON_STANDARD) else Ok(head + hash + tail, s3)
    else if length == 0x17 then
      var (head, s1) :- Take(s, 2);
      if head != [0xa9, 0x14] then Fail(NON_STANDARD)
      else
        var (hash, s2) :- Take(s1, 20);
        var (tail, s3) :- Take(s2, 1);
        if tail != [0x87] then Fail(NON_STANDARD) else Ok(head + hash + tail, s3)
    else Fail(NON_STANDARD)
  }

  /** What parsing outputs changes: the fee so far and the lines shown so far. */
  datatype Ledger = Ledger(fee: nat, shown: seq<Shown>)

  /** Booking an amount fails when the 64-bit fee would carry or borrow. */
  predicate Overflows(isRef: bool, selected: bool, amount: nat, fee: nat) {
    if isRef then selected && fee + amount >= TWO64 else amount > fee
  }

  /** The selected output of a reference is added to the fee, a spent output subtracted. */
  function Booked(isRef: bool, selected: bool, amount: nat, fee: nat): (r: nat)
    requires !Overflows(isRef, selected, amount, fee)
  {
    if isRef then (if selected then fee + amount else fee) else fee - amount
  }

  /** The script of an output with its length, and the lines shown after it. */
  function ParseOutputScript(s: seq<Byte>, isRef: bool, amount: nat, shown: seq<Shown>, capacity: nat)
    : (r: Parsed<(VarInt, seq<Byte>, seq<Shown>)>)
    ensures r.Ok? ==> |r.rest| < |s|
  {
    var (length, s1) :- ParseVarInt(s);
    if isRef then
      var (script, s2) :- Take(s1, length.value);
      Ok((length, script, shown), s2)
    else
      var (script, s2) :- ParsePayScript(s1, length.value);
      if |shown| >= capacity then Fail(TOO_MANY_OUTPUTS)
      else Ok((length, script, shown + [Shown(amount, Payee(script).0, Payee(script).1)]), s2)
  }

  function ParseOutput(s: seq<Byte>, isRef: bool, selected: bool, ledger: Ledger, capacity: nat)
    : (r: Parsed<(Output, Ledger)>)
    ensures r.Ok? ==> |r.rest| < |s|
  {
    var (amount, s1) :- Take(s, 8);
    if Val(amount) > MAX_MONEY || Overflows(isRef, selected, Val(amount), ledger.fee) then Fail(INVALID_AMOUNT)
    else
      var (script, s2) :- ParseOutputScript(s1, isRef, Val(amount), ledger.shown, capacity);
      var fee := Booked(isRef, selected, Val(amount), ledger.fee);
      Ok((Output(amount, script.0, script.1), Ledger(fee, script.2)), s2)
  }

  /** `select` counts down to the selected output; it is ignored when the outputs are spent. */
  function ParseOutputs(s: seq<Byte>, count: nat, isRef: bool, select: int, ledger: Ledger, capacity: nat)
    : (r: Parsed<(seq<Output>, Ledger)>)
    ensures r.Ok? ==> |r.rest| <= |s| && |r.value.0| == count
  {
    if count == 0 then Ok(([], ledger), s)
    else
      var (first, s1) :- ParseOutput(s, isRef, select == 0, ledger, capacity);
      var (others, s2) :- ParseOutputs(s1, count - 1, isRef, select - 1, first.1, capacity);
      Ok(([first.0] + others.0, others.1), s2)
  }

  /** The references a spending transaction makes, as they are hashed: output number, then transaction id. */
  function Outpoints(inputs: seq<Input>): seq<Byte> {
    if inputs == [] then [] else inputs[0].index + inputs[0].txid + Outpoints(inputs[1..])
  }

  /** State carried from one transaction of the stream to the next. */
  datatype Progress = Progress(references: seq<Byte>, ledger: Ledger)

  /** Double SHA-256 and the room on the display. */
  datatype Device = Device(hash: seq<Byte> -> seq<Byte>, capacity: nat)

  /** The leading flag byte and, for a reference, the number of the output it contributes. */
  function ParseHeader(s: seq<Byte>): (r: Parsed<(Byte, seq<Byte>)>)
    ensures r.Ok? ==> |r.rest| < |s|
  {
    var (flag, s1) :- Take(s, 1);
    var (select, s2) :- Take(s1, if flag[0] != 0 then 4 else 0);
    Ok((flag[0], select), s2)
  }

  /** Version and inputs. */
  function ParseFront(s: seq<Byte>): (r: Parsed<(VarInt, seq<Input>)>)
    ensures r.Ok? ==> |r.rest| < |s|
  {
    var (_, s1) :- Expect(s, 1);
    var (numInputs, s2) :- ParseVarInt(s1);
    if numInputs.value == 0 then Fail(INVALID_FORMAT)
    else if numInputs.value > MAX_INPUTS then Fail(TOO_MANY_INPUTS)
    else
      var (inputs, s3) :- ParseInputs(s2, numInputs.value);
      Ok((numInputs, inputs), s3)
  }

  /** The hash type, which only a spending transaction carries. */
  function ExpectHashType(s: seq<Byte>, isRef: bool): (r: Parsed<()>)
    ensures r.Ok? ==> |r.rest| <= |s|
  {
    if isRef then Ok((), s) else Expect(s, 1)
  }

  /** Outputs, lock time and, for a spending transaction, the hash type and the end of the data. */
  function ParseBack(s: seq<Byte>, isRef: bool, select: seq<Byte>, ledger: Ledger, capacity: nat)
    : (r: Parsed<(VarInt, seq<Output>, Ledger)>)
    ensures r.Ok? ==> |r.rest| < |s|
  {
    var (numOutputs, s1) :- ParseVarInt(s);
    if numOutputs.value == 0 then Fail(INVALID_FORMAT)
    else if numOutputs.value > MAX_OUTPUTS then Fail(TOO_MANY_OUTPUTS)
    else if isRef && Val(select) >= numOutputs.value then Fail(INVALID_REFERENCE)
    else
      var (outputs, s2) :- ParseOutputs(s1, numOutputs.value, isRef, Val(select), ledger, capacity);
      var (_, s3) :- Expect(s2, 0);
      var (_, s4) :- ExpectHashType(s3, isRef);
      if !isRef && s4 != [] then Fail(INVALID_FORMAT) else Ok((numOutputs, outputs.0, outputs.1), s4)
  }

  /** A transaction after its header: inputs, their comparison with the references, outputs. */
  function ParseBody(s: seq<Byte>, flag: Byte, select: seq<Byte>, progress: Progress, device: Device)
    : (r: Parsed<(Transaction, Ledger)>)
    ensures r.Ok? ==> |r.rest| < |s|
  {
    var (front, s1) :- ParseFront(s);
    if flag == 0 && device.hash(Outpoints(front.1)) != device.hash(progress.references) then Fail(INVALID_REFERENCE)
    else
      var (back, s2) :- ParseBack(s1, flag != 0, select, progress.ledger, device.capacity);
      Ok((Transaction(flag, select, front.0, front.1, back.0, back.1), back.2), s2)
  }

  function ParseTransaction(s: seq<Byte>, total: nat, progress: Progress, device: Device)
    : (r: Parsed<(Transaction, Ledger)>)
    ensures r.Ok? ==> |r.rest| < |s|
  {
    if total > MAX_TRANSACTION_SIZE then Fail(TOO_LARGE)
    else
      var (head, s1) :- ParseHeader(s);
      ParseBody(s1, head.0, head.1, progress, device)
  }

  /** The transactions referenced, the one that spends them, and what the user is shown. */
  datatype Stream = Stream(refs: seq<Transaction>, spend: Transaction, ledger: Ledger)

  function ParseStream(s: seq<Byte>, total: nat, progress: Progress, device: Device): Parsed<Stream>
    decreases |s|
  {
    var (first, s1) :- ParseTransaction(s, total, progress, device);
    var (tx, ledger) := first;
    if tx.isRef == 0 then Ok(Stream([], tx, ledger), s1)
    else
      var next := Progress(progress.references + Reference(tx, device), ledger);
      var (later, s2) :- ParseStream(s1, total, next, device);
      Ok(later.(refs := [tx] + later.refs), s2)
  }

  /** What a referenced transaction contributes to the comparison: its output number and its id. */
  function Reference(tx: Transaction, device: Device): seq<Byte> {
    tx.select + Reversed(device.hash(SignatureTranscript(tx)))
  }

  // ----- printing -----

  function Word(x: nat): (w: seq<Byte>)
    ensures |w| == 4
  {
    ToBytes(x, 4)
  }

  function PrintInput(input: Input): seq<Byte> {
    input.txid + input.index + input.scriptLength.code + input.script + Word(0xFFFFFFFF)
  }

  function PrintInputs(inputs: seq<Input>): seq<Byte> {
    if inputs == [] then [] else PrintInput(inputs[0]) + PrintInputs(inputs[1..])
  }

  /** An input as the transaction hash sees it: without its script and the script's length. */
  function PrintBareInputs(inputs: seq<Input>): seq<Byte> {
    if inputs == [] then []
    else inputs[0].txid + inputs[0].index + Word(0xFFFFFFFF) + PrintBareInputs(inputs[1..])
  }

  function PrintOutput(output: Output): seq<Byte> {
    output.amount + output.scriptLength.code + output.script
  }

  function PrintOutputs(outputs: seq<Output>): seq<Byte> {
    if outputs == [] then [] else PrintOutput(outputs[0]) + PrintOutputs(outputs[1..])
  }

  function PrintHead(tx: Transaction): seq<Byte> {
    [tx.isRef] + tx.select
  }

  /** Everything after the inputs. */
  function PrintTail(tx: Transaction): seq<Byte> {
    tx.numOutputs.code + PrintOutputs(tx.outputs) + Word(0) + if tx.isRef == 0 then Word(1) else []
  }

  /** The bytes fed to the signature hash. */
  function SignatureTranscript(tx: Transaction): seq<Byte> {
    Word(1) + tx.numInputs.code + PrintInputs(tx.inputs) + PrintTail(tx)
  }

  /** The bytes fed to the transaction hash. */
  function TransactionTranscript(tx: Transaction): seq<Byte> {
    Word(1) + tx.numInputs.code + PrintBareInputs(tx.inputs) + PrintTail(tx)
  }

  function Print(tx: Transaction): seq<Byte> {
    PrintHead(tx) + SignatureTranscript(tx)
  }

  function PrintAll(txs: seq<Transaction>): seq<Byte> {
    if txs == [] then [] else Print(txs[0]) + PrintAll(txs[1..])
  }
}
