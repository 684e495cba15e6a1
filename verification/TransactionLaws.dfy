/** What acceptance of a transaction stream means: parser and printer are inverse, fees and references add up. */
module TransactionLaws {
  import opened Arith
  import opened Bytes
  import opened TransactionFormat

  ghost predicate ValidVarInt(v: VarInt) {
    || (|v.code| == 1 && v.code[0] < 0xfd && v.value == v.code[0])
    || (|v.code| == 3 && v.code[0] == 0xfd && v.value == Val(v.code[1..3]))
    || (|v.code| == 5 && v.code[0] == 0xfe && v.value == Val(v.code[1..5]))
  }

  ghost predicate ValidInput(i: Input) {
    |i.txid| == 32 && |i.index| == 4 && ValidVarInt(i.scriptLength) && |i.script| == i.scriptLength.value
  }

  ghost predicate ValidOutput(o: Output, isRef: bool) {
    && |o.amount| == 8 && Val(o.amount) <= 2_100_000_000_000_000
    && ValidVarInt(o.scriptLength) && |o.script| == o.scriptLength.value
    && (!isRef ==> IsTemplate(o.script))
  }

  ghost predicate ValidInputs(inputs: seq<Input>) {
    forall i :: 0 <= i < |inputs| ==> ValidInput(inputs[i])
  }

  ghost predicate ValidOutputs(outputs: seq<Output>, isRef: bool) {
    forall i :: 0 <= i < |outputs| ==> ValidOutput(outputs[i], isRef)
  }

  /** A standard transaction within the firmware's limits. */
  ghost predicate Standard(tx: Transaction) {
    && |tx.select| == (if tx.isRef == 0 then 0 else 4)
    && ValidVarInt(tx.numInputs) && tx.numInputs.value == |tx.inputs| && 1 <= |tx.inputs| <= 5000
    && ValidVarInt(tx.numOutputs) && tx.numOutputs.value == |tx.outputs| && 1 <= |tx.outputs| <= 2000
    && ValidInputs(tx.inputs) && ValidOutputs(tx.outputs, tx.isRef != 0)
    && (tx.isRef != 0 ==> Val(tx.select) < |tx.outputs|)
  }

  // ----- amounts -----

  function Amount(o: Output): nat {
    Val(o.amount)
  }

  /** The total an output list pays. */
  function Total(outputs: seq<Output>): nat {
    if outputs == [] then 0 else Amount(outputs[0]) + Total(outputs[1..])
  }

  function Display(o: Output): Shown
    requires IsTemplate(o.script)
  {
    Shown(Amount(o), Payee(o.script).0, Payee(o.script).1)
  }

  function DisplayAll(outputs: seq<Output>): seq<Shown>
    requires forall i :: 0 <= i < |outputs| ==> IsTemplate(outputs[i].script)
  {
    if outputs == [] then [] else [Display(outputs[0])] + DisplayAll(outputs[1..])
  }

  /** The amount a referenced transaction contributes: that of its selected output. */
  ghost function Spendable(tx: Transaction): nat
    requires Standard(tx) && tx.isRef != 0
  {
    Amount(tx.outputs[Val(tx.select)])
  }

  ghost predicate AllReferences(refs: seq<Transaction>) {
    forall i :: 0 <= i < |refs| ==> Standard(refs[i]) && refs[i].isRef != 0
  }

  ghost function SpendableAll(refs: seq<Transaction>): nat
    requires AllReferences(refs)
  {
    if refs == [] then 0 else Spendable(refs[0]) + SpendableAll(refs[1..])
  }

  /** The comparison bytes of all referenced transactions. */
  ghost function ReferenceAll(refs: seq<Transaction>, device: Device): seq<Byte> {
    if refs == [] then [] else Reference(refs[0], device) + ReferenceAll(refs[1..], device)
  }

  // ----- pieces -----

  lemma VarIntSound(s: seq<Byte>)
    requires ParseVarInt(s).Ok?
    ensures var v := ParseVarInt(s).value; ValidVarInt(v) && s == v.code + ParseVarInt(s).rest
  {
    if s[0] >= 0xfd {
      assert s[..3][1..3] == s[1..3];
      if s[0] == 0xfe {
        assert s[..5][1..5] == s[1..5];
      }
    }
  }

  lemma VarIntComplete(v: VarInt, rest: seq<Byte>)
    requires ValidVarInt(v)
    ensures ParseVarInt(v.code + rest) == Ok(v, rest)
  {
    var s := v.code + rest;
    assert s[|v.code|..] == rest && s[..|v.code|] == v.code;
    if |v.code| == 3 {
      assert s[1..3] == v.code[1..3];
    } else if |v.code| == 5 {
      assert s[1..5] == v.code[1..5];
    }
  }

  lemma TakeComplete(a: seq<Byte>, rest: seq<Byte>)
    ensures Take(a + rest, |a|) == Ok(a, rest)
  {
    assert (a + rest)[..|a|] == a && (a + rest)[|a|..] == rest;
  }

  lemma ExpectSound(s: seq<Byte>, value: nat)
    requires value < 0x1_0000_0000 && Expect(s, value).Ok?
    ensures s == Word(value) + Expect(s, value).rest
  {
    WordValue(value);
    ValInjective(s[..4], Word(value));
  }

  lemma ExpectComplete(value: nat, rest: seq<Byte>)
    requires value < 0x1_0000_0000
    ensures Expect(Word(value) + rest, value) == Ok((), rest)
  {
    WordValue(value);
    TakeComplete(Word(value), rest);
  }

  lemma WordValue(value: nat)
    requires value < 0x1_0000_0000
    ensures Val(Word(value)) == value
  {
    assert Pow256(4) == 0x1_0000_0000;
    ValToBytes(value, 4);
  }

  lemma InputSound(s: seq<Byte>)
    requires ParseInput(s).Ok?
    ensures ValidInput(ParseInput(s).value)
    ensures s == PrintInput(ParseInput(s).value) + ParseInput(s).rest
  {
    hide ParseVarInt, Expect, Word, Take;
    var (txid, s1) := (Take(s, 32).value, Take(s, 32).rest);
    var (index, s2) := (Take(s1, 4).value, Take(s1, 4).rest);
    VarIntSound(s2);
    var (length, s3) := (ParseVarInt(s2).value, ParseVarInt(s2).rest);
    var s4 := Take(s3, length.value).rest;
    ExpectSound(s4, SEQUENCE);
  }

  lemma InputComplete(i: Input, rest: seq<Byte>)
    requires ValidInput(i)
    ensures ParseInput(PrintInput(i) + rest) == Ok(i, rest)
  {
    hide ParseVarInt, Expect, Word, Take;
    var s4 := Word(SEQUENCE) + rest;
    var s3 := i.script + s4;
    var s2 := i.scriptLength.code + s3;
    var s1 := i.index + s2;
    assert PrintInput(i) + rest == i.txid + s1;
    TakeComplete(i.txid, s1);
    TakeComplete(i.index, s2);
    VarIntComplete(i.scriptLength, s3);
    TakeComplete(i.script, s4);
    ExpectComplete(SEQUENCE, rest);
  }

  lemma {:induction false} InputsSound(s: seq<Byte>, count: nat)
    requires ParseInputs(s, count).Ok?
    ensures ValidInputs(ParseInputs(s, count).value)
    ensures s == PrintInputs(ParseInputs(s, count).value) + ParseInputs(s, count).rest
    decreases count
  {
    hide ParseInput, PrintInput;
    if count > 0 {
      InputSound(s);
      var s1 := ParseInput(s).rest;
      InputsSound(s1, count - 1);
      var all := ParseInputs(s, count).value;
      assert all[1..] == ParseInputs(s1, count - 1).value;
    }
  }

  lemma {:induction false} InputsComplete(inputs: seq<Input>, rest: seq<Byte>)
    requires ValidInputs(inputs)
    ensures ParseInputs(PrintInputs(inputs) + rest, |inputs|) == Ok(inputs, rest)
  {
    hide ParseInput, PrintInput;
    if inputs != [] {
      var tail := inputs[1..];
      InputsComplete(tail, rest);
      InputComplete(inputs[0], PrintInputs(tail) + rest);
      assert PrintInputs(inputs) + rest == PrintInput(inputs[0]) + (PrintInputs(tail) + rest);
      assert [inputs[0]] + tail == inputs;
    } else {
      assert PrintInputs(inputs) + rest == rest;
    }
  }

  lemma PayScriptComplete(script: seq<Byte>, rest: seq<Byte>)
    requires IsTemplate(script)
    ensures ParsePayScript(script + rest, |script|) == Ok(script, rest)
  {
    var h := if |script| == 0x19 then 3 else 2;
    var head, hash, tail := script[..h], script[h..h + 20], script[h + 20..];
    assert script + rest == head + (hash + (tail + rest));
    TakeComplete(head, hash + (tail + rest));
    TakeComplete(hash, tail + rest);
    TakeComplete(tail, rest);
    assert head + hash + tail == script;
  }

  /** The lines shown after an output: one more when it is a spent one. */
  function ShownAfter(o: Output, isRef: bool, shown: seq<Shown>): seq<Shown>
    requires !isRef ==> IsTemplate(o.script)
  {
    if isRef then shown else shown + [Display(o)]
  }

  lemma OutputSound(s: seq<Byte>, isRef: bool, selected: bool, ledger: Ledger, capacity: nat)
    requires ParseOutput(s, isRef, selected, ledger, capacity).Ok?
    ensures var r := ParseOutput(s, isRef, selected, ledger, capacity); var (o, after) := r.value;
            && ValidOutput(o, isRef) && s == PrintOutput(o) + r.rest
            && !Overflows(isRef, selected, Amount(o), ledger.fee)
            && after == Ledger(Booked(isRef, selected, Amount(o), ledger.fee), ShownAfter(o, isRef, ledger.shown))
            && (isRef || |ledger.shown| < capacity)
  {
    hide ParseVarInt, ParsePayScript, Take;
    var s1 := Take(s, 8).rest;
    VarIntSound(s1);
  }

  lemma OutputComplete(o: Output, rest: seq<Byte>, isRef: bool, selected: bool, ledger: Ledger, capacity: nat)
    requires ValidOutput(o, isRef) && !Overflows(isRef, selected, Amount(o), ledger.fee)
    requires isRef || |ledger.shown| < capacity
    ensures ParseOutput(PrintOutput(o) + rest, isRef, selected, ledger, capacity)
            == Ok((o, Ledger(Booked(isRef, selected, Amount(o), ledger.fee), ShownAfter(o, isRef, ledger.shown))), rest)
  {
    hide ParseVarInt, ParsePayScript, Take;
    var s2 := o.script + rest;
    var s1 := o.scriptLength.code + s2;
    assert PrintOutput(o) + rest == o.amount + s1;
    TakeComplete(o.amount, s1);
    VarIntComplete(o.scriptLength, s2);
    TakeComplete(o.script, rest);
    if !isRef {
      PayScriptComplete(o.script, rest);
    }
  }

  /** What a whole output list does to the ledger. */
  ghost predicate Settles(outputs: seq<Output>, isRef: bool, select: int, before: Ledger, after: Ledger)
    requires ValidOutputs(outputs, isRef)
  {
    if isRef then
      && after.shown == before.shown
      && after.fee == before.fee + if 0 <= select < |outputs| then Amount(outputs[select]) else 0
    else
      && after.shown == before.shown + DisplayAll(outputs)
      && after.fee + Total(outputs) == before.fee
  }

  /** The conditions under which an output list is booked without error. */
  ghost predicate Payable(outputs: seq<Output>, isRef: bool, select: int, ledger: Ledger, capacity: nat)
    requires ValidOutputs(outputs, isRef)
  {
    if isRef then 0 <= select < |outputs| ==> ledger.fee + Amount(outputs[select]) < TWO64
    else Total(outputs) <= ledger.fee && |ledger.shown| + |outputs| <= capacity
  }

  lemma PayableCons(outputs: seq<Output>, isRef: bool, select: int, ledger: Ledger, capacity: nat)
    requires outputs != [] && ValidOutputs(outputs, isRef)
    ensures Payable(outputs, isRef, select, ledger, capacity) <==>
            && !Overflows(isRef, select == 0, Amount(outputs[0]), ledger.fee)
            && (isRef || (IsTemplate(outputs[0].script) && |ledger.shown| < capacity))
            && Payable(outputs[1..], isRef, select - 1,
                       Ledger(Booked(isRef, select == 0, Amount(outputs[0]), ledger.fee),
                              ShownAfter(outputs[0], isRef, ledger.shown)), capacity)
  {
    if isRef && 0 < select < |outputs| {
      assert outputs[1..][select - 1] == outputs[select];
    }
  }

  /** The outcome of parsing an output list, spelled out. */
  ghost predicate OutputsParsed(s: seq<Byte>, isRef: bool, select: int, ledger: Ledger,
                                outputs: seq<Output>, after: Ledger, rest: seq<Byte>, capacity: nat)
  {
    && ValidOutputs(outputs, isRef) && s == PrintOutputs(outputs) + rest
    && Settles(outputs, isRef, select, ledger, after)
    && (isRef || |ledger.shown| <= capacity ==> Payable(outputs, isRef, select, ledger, capacity))
  }

  lemma {:induction false} OutputsSound(s: seq<Byte>, count: nat, isRef: bool, select: int, ledger: Ledger,
      capacity: nat)
    requires ParseOutputs(s, count, isRef, select, ledger, capacity).Ok?
    ensures var r := ParseOutputs(s, count, isRef, select, ledger, capacity);
            OutputsParsed(s, isRef, select, ledger, r.value.0, r.value.1, r.rest, capacity)
    decreases count
  {
    hide ParseOutput, OutputsParsed, ValidOutput, PrintOutput, Overflows, Booked, ShownAfter, IsTemplate, Val;
    if count == 0 {
      OutputsNil(s, isRef, select, ledger, capacity);
    } else {
      OutputSound(s, isRef, select == 0, ledger, capacity);
      var first := ParseOutput(s, isRef, select == 0, ledger, capacity);
      var (o, middle) := first.value;
      OutputsSound(first.rest, count - 1, isRef, select - 1, middle, capacity);
      var others := ParseOutputs(first.rest, count - 1, isRef, select - 1, middle, capacity);
      OutputsCons(s, isRef, select, ledger, o, middle, first.rest, others.value.0, others.value.1, others.rest,
                  capacity);
    }
  }

  lemma OutputsNil(s: seq<Byte>, isRef: bool, select: int, ledger: Ledger, capacity: nat)
    ensures OutputsParsed(s, isRef, select, ledger, [], ledger, s, capacity)
  {
  }

  lemma ShownGrows(o: Output, isRef: bool, shown: seq<Shown>)
    requires ValidOutput(o, isRef)
    ensures |ShownAfter(o, isRef, shown)| == |shown| + if isRef then 0 else 1
    ensures !isRef ==> IsTemplate(o.script)
  {
  }

  lemma OutputsCons(s: seq<Byte>, isRef: bool, select: int, ledger: Ledger, o: Output, middle: Ledger, s1: seq<Byte>,
                    outputs: seq<Output>, after: Ledger, rest: seq<Byte>, capacity: nat)
    requires isRef || |ledger.shown| < capacity
    requires ValidOutput(o, isRef) && s == PrintOutput(o) + s1
    requires !Overflows(isRef, select == 0, Amount(o), ledger.fee)
    requires middle == Ledger(Booked(isRef, select == 0, Amount(o), ledger.fee), ShownAfter(o, isRef, ledger.shown))
    requires OutputsParsed(s1, isRef, select - 1, middle, outputs, after, rest, capacity)
    ensures OutputsParsed(s, isRef, select, ledger, [o] + outputs, after, rest, capacity)
  {
    ShownGrows(o, isRef, ledger.shown);
    hide PrintOutput, ValidOutput, Settles, Overflows, Booked, ShownAfter, Payable;
    var all := [o] + outputs;
    assert all[1..] == outputs;
    SettlesCons(all, isRef, select, ledger, middle, after);
    PayableCons(all, isRef, select, ledger, capacity);
  }

  lemma SettlesCons(outputs: seq<Output>, isRef: bool, select: int, before: Ledger, middle: Ledger, after: Ledger)
    requires outputs != [] && ValidOutputs(outputs, isRef)
    requires !Overflows(isRef, select == 0, Amount(outputs[0]), before.fee)
    requires middle == Ledger(Booked(isRef, select == 0, Amount(outputs[0]), before.fee),
                              ShownAfter(outputs[0], isRef, before.shown))
    ensures Settles(outputs[1..], isRef, select - 1, middle, after) <==> Settles(outputs, isRef, select, before, after)
  {
    if isRef {
      if 0 < select < |outputs| {
        assert outputs[1..][select - 1] == outputs[select];
      }
    } else {
      assert before.shown + [Display(outputs[0])] + DisplayAll(outputs[1..])
          == before.shown + ([Display(outputs[0])] + DisplayAll(outputs[1..]));
      if Settles(outputs, isRef, select, before, after) {
      }
    }
  }

  lemma {:induction false} OutputsComplete(outputs: seq<Output>, rest: seq<Byte>, isRef: bool, select: int,
                                           ledger: Ledger, capacity: nat)
    requires ValidOutputs(outputs, isRef) && Payable(outputs, isRef, select, ledger, capacity)
    ensures var r := ParseOutputs(PrintOutputs(outputs) + rest, |outputs|, isRef, select, ledger, capacity);
            r.Ok? && r.value.0 == outputs && r.rest == rest
    decreases |outputs|
  {
    hide ParseOutput, ValidOutput, PrintOutput, Overflows, Booked, ShownAfter, IsTemplate, Val, Payable;
    if outputs != [] {
      var o, tail := outputs[0], outputs[1..];
      PayableCons(outputs, isRef, select, ledger, capacity);
      var middle := Ledger(Booked(isRef, select == 0, Amount(o), ledger.fee), ShownAfter(o, isRef, ledger.shown));
      OutputComplete(o, PrintOutputs(tail) + rest, isRef, select == 0, ledger, capacity);
      OutputsComplete(tail, rest, isRef, select - 1, middle, capacity);
      assert PrintOutputs(outputs) + rest == PrintOutput(o) + (PrintOutputs(tail) + rest);
      assert [o] + tail == outputs;
    } else {
      assert PrintOutputs(outputs) + rest == rest;
    }
  }

  // ----- one transaction -----

  /** The checks on a transaction that depend on what came before it in the stream. */
  ghost predicate Admissible(tx: Transaction, progress: Progress, device: Device)
    requires Standard(tx)
  {
    && (tx.isRef == 0 ==> device.hash(Outpoints(tx.inputs)) == device.hash(progress.references))
    && Payable(tx.outputs, tx.isRef != 0, Val(tx.select), progress.ledger, device.capacity)
  }

  ghost predicate Settled(tx: Transaction, progress: Progress, after: Ledger)
    requires Standard(tx)
  {
    Settles(tx.outputs, tx.isRef != 0, Val(tx.select), progress.ledger, after)
  }

  /** Everything after the inputs, read back. */
  lemma BackSound(s: seq<Byte>, isRef: bool, select: seq<Byte>, ledger: Ledger, capacity: nat)
    requires ParseBack(s, isRef, select, ledger, capacity).Ok?
    ensures var r := ParseBack(s, isRef, select, ledger, capacity); var (count, outputs, after) := r.value;
            && ValidVarInt(count) && count.value == |outputs| && 1 <= |outputs| <= MAX_OUTPUTS
            && ValidOutputs(outputs, isRef) && Settles(outputs, isRef, Val(select), ledger, after)
            && (isRef || |ledger.shown| <= capacity ==> Payable(outputs, isRef, Val(select), ledger, capacity))
            && (isRef ==> Val(select) < |outputs|) && (!isRef ==> r.rest == [])
            && s == count.code + PrintOutputs(outputs) + Word(0) + (if isRef then [] else Word(1)) + r.rest
  {
    hide ParseVarInt, ParseOutputs, Expect, Word, ValidOutputs, Settles, Val, Payable, ValidVarInt, PrintOutputs;
    VarIntSound(s);
    var (count, s1) := (ParseVarInt(s).value, ParseVarInt(s).rest);
    OutputsSound(s1, count.value, isRef, Val(select), ledger, capacity);
    var outputs := ParseOutputs(s1, count.value, isRef, Val(select), ledger, capacity);
    ExpectSound(outputs.rest, 0);
    if !isRef {
      ExpectSound(Expect(outputs.rest, 0).rest, 1);
    }
  }

  lemma BackComplete(count: VarInt, outputs: seq<Output>, rest: seq<Byte>, isRef: bool, select: seq<Byte>,
                     ledger: Ledger, capacity: nat)
    requires ValidVarInt(count) && count.value == |outputs| && 1 <= |outputs| <= MAX_OUTPUTS
    requires ValidOutputs(outputs, isRef) && Payable(outputs, isRef, Val(select), ledger, capacity)
    requires (isRef ==> Val(select) < |outputs|) && (!isRef ==> rest == [])
    ensures var s := count.code + PrintOutputs(outputs) + Word(0) + (if isRef then [] else Word(1)) + rest;
            var r := ParseBack(s, isRef, select, ledger, capacity);
            r.Ok? && r.value.0 == count && r.value.1 == outputs && r.rest == rest
  {
    hide ParseVarInt, ParseOutputs, Expect, ExpectHashType, Word, PrintOutputs, ValidOutputs, ValidVarInt, Val, Payable;
    var s4 := (if isRef then [] else Word(1)) + rest;
    var s3 := Word(0) + s4;
    var s2 := PrintOutputs(outputs) + s3;
    assert count.code + PrintOutputs(outputs) + Word(0) + (if isRef then [] else Word(1)) + rest == count.code + s2;
    VarIntComplete(count, s2);
    OutputsComplete(outputs, s3, isRef, Val(select), ledger, capacity);
    ExpectComplete(0, s4);
    HashTypeComplete(isRef, rest);
  }

  lemma HashTypeComplete(isRef: bool, rest: seq<Byte>)
    ensures ExpectHashType((if isRef then [] else Word(1)) + rest, isRef) == Ok((), rest)
  {
    if isRef {
      assert [] + rest == rest;
    } else {
      ExpectComplete(1, rest);
    }
  }

  /** Version and inputs, read back. */
  lemma FrontSound(s: seq<Byte>)
    requires ParseFront(s).Ok?
    ensures var r := ParseFront(s); var (count, inputs) := r.value;
            && ValidVarInt(count) && count.value == |inputs| && 1 <= |inputs| <= MAX_INPUTS && ValidInputs(inputs)
            && s == Word(1) + count.code + PrintInputs(inputs) + r.rest
  {
    hide ParseVarInt, ParseInputs, Expect, Word, PrintInputs, ValidInputs, ValidVarInt;
    ExpectSound(s, 1);
    var s1 := Expect(s, 1).rest;
    VarIntSound(s1);
    var n := ParseVarInt(s1);
    InputsSound(n.rest, n.value.value);
  }

  lemma FrontComplete(count: VarInt, inputs: seq<Input>, rest: seq<Byte>)
    requires ValidVarInt(count) && count.value == |inputs| && 1 <= |inputs| <= MAX_INPUTS && ValidInputs(inputs)
    ensures ParseFront(Word(1) + count.code + PrintInputs(inputs) + rest) == Ok((count, inputs), rest)
  {
    hide ParseVarInt, ParseInputs, Expect, Word, PrintInputs, ValidInputs, ValidVarInt;
    var s2 := PrintInputs(inputs) + rest;
    var s1 := count.code + s2;
    assert Word(1) + count.code + PrintInputs(inputs) + rest == Word(1) + s1;
    ExpectComplete(1, s1);
    VarIntComplete(count, s2);
    InputsComplete(inputs, rest);
  }

  lemma HeaderComplete(flag: Byte, select: seq<Byte>, rest: seq<Byte>)
    requires |select| == if flag == 0 then 0 else 4
    ensures ParseHeader([flag] + select + rest) == Ok((flag, select), rest)
  {
    assert [flag] + select + rest == [flag] + (select + rest);
    TakeComplete([flag], select + rest);
    TakeComplete(select, rest);
  }

  lemma HeaderSound(s: seq<Byte>)
    requires ParseHeader(s).Ok?
    ensures var r := ParseHeader(s); var (flag, select) := r.value;
            |select| == (if flag == 0 then 0 else 4) && s == [flag] + select + r.rest
  {
    assert s[..1] == [s[0]];
  }

  lemma TransactionSound(s: seq<Byte>, total: nat, progress: Progress, device: Device)
    requires ParseTransaction(s, total, progress, device).Ok? && |progress.ledger.shown| <= device.capacity
    ensures var r := ParseTransaction(s, total, progress, device); var (tx, after) := r.value;
            && Standard(tx) && s == Print(tx) + r.rest && Settled(tx, progress, after)
            && total <= MAX_TRANSACTION_SIZE && (tx.isRef == 0 ==> r.rest == [])
            && Admissible(tx, progress, device)
  {
    hide ParseHeader, ParseFront, ParseBack, Word, PrintInputs, ValidInputs, PrintOutputs, ValidOutputs, Settles,
         ValidVarInt, Val, Payable;
    HeaderSound(s);
    var head := ParseHeader(s);
    FrontSound(head.rest);
    var front := ParseFront(head.rest);
    BackSound(front.rest, head.value.0 != 0, head.value.1, progress.ledger, device.capacity);
  }

  lemma TransactionComplete(tx: Transaction, rest: seq<Byte>, total: nat, progress: Progress, device: Device)
    requires Standard(tx) && Admissible(tx, progress, device)
    requires total <= MAX_TRANSACTION_SIZE && (tx.isRef == 0 ==> rest == [])
    ensures var r := ParseTransaction(Print(tx) + rest, total, progress, device);
            r.Ok? && r.value.0 == tx && r.rest == rest
  {
    hide ParseHeader, ParseFront, ParseBack, Word, PrintInputs, ValidInputs, PrintOutputs, ValidOutputs, ValidVarInt,
         Val, Payable;
    var isRef := tx.isRef != 0;
    var s2 := tx.numOutputs.code + PrintOutputs(tx.outputs) + Word(0) + (if isRef then [] else Word(1)) + rest;
    var s1 := Word(1) + tx.numInputs.code + PrintInputs(tx.inputs) + s2;
    assert Print(tx) + rest == [tx.isRef] + tx.select + s1;
    HeaderComplete(tx.isRef, tx.select, s1);
    FrontComplete(tx.numInputs, tx.inputs, s2);
    BackComplete(tx.numOutputs, tx.outputs, rest, isRef, tx.select, progress.ledger, device.capacity);
  }

  // ----- whole streams -----

  /** A stream's books: the fee is what the references contribute minus what is paid out, as natural numbers. */
  ghost predicate Balanced(st: Stream, before: Ledger)
    requires AllReferences(st.refs) && Standard(st.spend) && st.spend.isRef == 0
  {
    && st.ledger.fee + Total(st.spend.outputs) == before.fee + SpendableAll(st.refs)
    && st.ledger.shown == before.shown + DisplayAll(st.spend.outputs)
  }

  /** Well-formed stream contents: standard references followed by a standard spending transaction. */
  ghost predicate StandardStream(st: Stream) {
    AllReferences(st.refs) && Standard(st.spend) && st.spend.isRef == 0
  }

  /** What the firmware demands of a stream, beyond each transaction being standard. */
  ghost predicate Acceptable(st: Stream, total: nat, progress: Progress, device: Device)
    requires StandardStream(st)
  {
    && total <= 2_000_000
    && progress.ledger.fee + SpendableAll(st.refs) < TWO64
    && Total(st.spend.outputs) <= progress.ledger.fee + SpendableAll(st.refs)
    && |progress.ledger.shown| + |st.spend.outputs| <= device.capacity
    && device.hash(Outpoints(st.spend.inputs)) == device.hash(progress.references + ReferenceAll(st.refs, device))
  }

  /** Acceptance: the bytes are the printed transactions, the books balance, the reference hashes agree. */
  lemma {:induction false} StreamSound(s: seq<Byte>, total: nat, progress: Progress, device: Device)
    requires ParseStream(s, total, progress, device).Ok?
    requires |progress.ledger.shown| <= device.capacity && progress.ledger.fee < TWO64
    ensures var r := ParseStream(s, total, progress, device); var st := r.value;
            && r.rest == [] && StandardStream(st) && Acceptable(st, total, progress, device)
            && s == PrintAll(st.refs) + Print(st.spend)
            && Balanced(st, progress.ledger)
    decreases |s|
  {
    hide ParseTransaction, Print, Standard, Reference, Outpoints, Settled, Admissible, Acceptable;
    TransactionSound(s, total, progress, device);
    var first := ParseTransaction(s, total, progress, device);
    var (tx, ledger) := first.value;
    if tx.isRef == 0 {
      SpendAlone(tx, ledger, total, progress, device, s);
    } else {
      ReferenceLedger(tx, progress, ledger, device);
      var next := Progress(progress.references + Reference(tx, device), ledger);
      StreamSound(first.rest, total, next, device);
      var later := ParseStream(first.rest, total, next, device).value;
      StreamCons(tx, ledger, later, total, progress, device, s, first.rest);
    }
  }

  lemma ReferenceLedger(tx: Transaction, progress: Progress, ledger: Ledger, device: Device)
    requires Standard(tx) && tx.isRef != 0 && Settled(tx, progress, ledger) && Admissible(tx, progress, device)
    ensures ledger == Ledger(progress.ledger.fee + Spendable(tx), progress.ledger.shown) && ledger.fee < TWO64
  {
  }

  lemma SpendAlone(tx: Transaction, ledger: Ledger, total: nat, progress: Progress, device: Device, s: seq<Byte>)
    requires Standard(tx) && tx.isRef == 0 && Settled(tx, progress, ledger) && s == Print(tx) + []
    requires Admissible(tx, progress, device) && total <= MAX_TRANSACTION_SIZE && progress.ledger.fee < TWO64
    ensures var st := Stream([], tx, ledger);
            && StandardStream(st) && s == PrintAll(st.refs) + Print(st.spend) && Balanced(st, progress.ledger)
            && Acceptable(st, total, progress, device)
  {
    hide Print;
    assert [] + Print(tx) == Print(tx) + [];
    assert progress.references + [] == progress.references;
  }

  lemma StreamCons(tx: Transaction, ledger: Ledger, later: Stream, total: nat, progress: Progress, device: Device,
                   s: seq<Byte>, s1: seq<Byte>)
    requires Standard(tx) && tx.isRef != 0 && s == Print(tx) + s1
    requires ledger == Ledger(progress.ledger.fee + Spendable(tx), progress.ledger.shown)
    requires StandardStream(later) && s1 == PrintAll(later.refs) + Print(later.spend) && Balanced(later, ledger)
    requires Acceptable(later, total, Progress(progress.references + Reference(tx, device), ledger), device)
    ensures var st := later.(refs := [tx] + later.refs);
            && StandardStream(st) && s == PrintAll(st.refs) + Print(st.spend) && Balanced(st, progress.ledger)
            && Acceptable(st, total, progress, device)
  {
    hide Print, Reference, Total, DisplayAll, ValidOutputs, ValidInputs, Val, Outpoints;
    var refs := [tx] + later.refs;
    assert refs[1..] == later.refs;
    assert SpendableAll(refs) == Spendable(tx) + SpendableAll(later.refs);
    assert progress.references + Reference(tx, device) + ReferenceAll(later.refs, device)
        == progress.references + (Reference(tx, device) + ReferenceAll(later.refs, device));
  }

  /** Every acceptable stream is accepted, and read as what was printed. */
  lemma {:induction false} StreamComplete(st: Stream, total: nat, progress: Progress, device: Device)
    requires StandardStream(st) && Acceptable(st, total, progress, device)
    ensures var r := ParseStream(PrintAll(st.refs) + Print(st.spend), total, progress, device);
            r.Ok? && r.value.refs == st.refs && r.value.spend == st.spend
    decreases |st.refs|
  {
    hide ParseTransaction, Print, Standard, Reference, Outpoints, Settled, Admissible, Acceptable;
    if st.refs == [] {
      assert PrintAll(st.refs) + Print(st.spend) == Print(st.spend) + [];
      SpendAdmissible(st, total, progress, device);
      TransactionComplete(st.spend, [], total, progress, device);
    } else {
      var tx, later := st.refs[0], st.(refs := st.refs[1..]);
      var s1 := PrintAll(later.refs) + Print(st.spend);
      assert PrintAll(st.refs) + Print(st.spend) == Print(tx) + s1;
      ReferenceAdmissible(st, total, progress, device);
      TransactionComplete(tx, s1, total, progress, device);
      TransactionSound(Print(tx) + s1, total, progress, device);
      var ledger := ParseTransaction(Print(tx) + s1, total, progress, device).value.1;
      ReferenceLedger(tx, progress, ledger, device);
      StreamComplete(later, total, Progress(progress.references + Reference(tx, device), ledger), device);
      assert [tx] + later.refs == st.refs;
    }
  }

  lemma SpendAdmissible(st: Stream, total: nat, progress: Progress, device: Device)
    requires StandardStream(st) && Acceptable(st, total, progress, device) && st.refs == []
    ensures Admissible(st.spend, progress, device) && total <= MAX_TRANSACTION_SIZE
  {
    assert progress.references + [] == progress.references;
  }

  lemma ReferenceAdmissible(st: Stream, total: nat, progress: Progress, device: Device)
    requires StandardStream(st) && Acceptable(st, total, progress, device) && st.refs != []
    ensures var tx, later := st.refs[0], st.(refs := st.refs[1..]);
            && Standard(tx) && tx.isRef != 0 && Admissible(tx, progress, device) && total <= MAX_TRANSACTION_SIZE
            && |progress.ledger.shown| <= device.capacity && StandardStream(later)
            && Acceptable(later, total,
                          Progress(progress.references + Reference(tx, device),
                                   Ledger(progress.ledger.fee + Spendable(tx), progress.ledger.shown)), device)
  {
    hide Reference, Outpoints, Total;
    var tx, later := st.refs[0], st.(refs := st.refs[1..]);
    assert SpendableAll(st.refs) == Spendable(tx) + SpendableAll(later.refs);
    assert progress.references + Reference(tx, device) + ReferenceAll(later.refs, device)
        == progress.references + (Reference(tx, device) + ReferenceAll(later.refs, device));
  }
}
