/**
 What the hashes of an accepted stream pin down. SHA-256 cannot be injective, so each result names the two
 byte strings that would have to collide for it to fail.
 */
module TransactionBinding {
  import opened Bytes
  import opened TransactionFormat
  import opened TransactionLaws

  /** Two different byte strings with one digest. */
  ghost predicate Collision(device: Device, a: seq<Byte>, b: seq<Byte>) {
    a != b && device.hash(a) == device.hash(b)
  }

  ghost predicate DigestWidth(device: Device) {
    forall x: seq<Byte> :: |device.hash(x)| == 32
  }

  const START: Progress := Progress([], Ledger(0, []))

  // ----- references -----

  /** The i-th referenced transaction is the one the i-th input spends from, at that input's output number. */
  ghost predicate Matches(inputs: seq<Input>, refs: seq<Transaction>, device: Device) {
    && |inputs| == |refs|
    && forall i :: 0 <= i < |refs| ==>
         && inputs[i].index == refs[i].select
         && inputs[i].txid == Reversed(device.hash(SignatureTranscript(refs[i])))
  }

  /** Equal comparison bytes are equal item by item, since every item has 36 bytes. */
  lemma {:induction false} EqualReferences(inputs: seq<Input>, refs: seq<Transaction>, device: Device)
    requires ValidInputs(inputs) && AllReferences(refs) && DigestWidth(device)
    requires Outpoints(inputs) == ReferenceAll(refs, device)
    ensures Matches(inputs, refs, device)
    decreases |inputs|
  {
    hide Standard, ValidVarInt, SignatureTranscript;
    OutpointsSize(inputs);
    ReferencesSize(refs, device);
    if inputs != [] && refs != [] {
      var i, t := inputs[0], refs[0];
      var id := Reversed(device.hash(SignatureTranscript(t)));
      SelectWidth(t);
      EqualHeads(i.index, i.txid, Outpoints(inputs[1..]), t.select, id, ReferenceAll(refs[1..], device));
      EqualReferences(inputs[1..], refs[1..], device);
      MatchesCons(inputs, refs, device);
    }
  }

  lemma SelectWidth(t: Transaction)
    requires Standard(t) && t.isRef != 0
    ensures |t.select| == 4
  {
  }

  lemma MatchesCons(inputs: seq<Input>, refs: seq<Transaction>, device: Device)
    requires inputs != [] && refs != [] && Matches(inputs[1..], refs[1..], device)
    requires inputs[0].index == refs[0].select
    requires inputs[0].txid == Reversed(device.hash(SignatureTranscript(refs[0])))
    ensures Matches(inputs, refs, device)
  {
    hide SignatureTranscript;
    forall i | 0 <= i < |refs|
      ensures inputs[i].index == refs[i].select
      ensures inputs[i].txid == Reversed(device.hash(SignatureTranscript(refs[i])))
    {
      if i > 0 {
        assert inputs[i] == inputs[1..][i - 1] && refs[i] == refs[1..][i - 1];
      }
    }
  }

  lemma EqualHeads(a: seq<Byte>, b: seq<Byte>, c: seq<Byte>, a': seq<Byte>, b': seq<Byte>, c': seq<Byte>)
    requires |a| == |a'| && |b| == |b'| && a + b + c == a' + b' + c'
    ensures a == a' && b == b' && c == c'
  {
    var s, n, m := a + b + c, |a|, |a| + |b|;
    assert a == s[..n] && b == s[n..m] && c == s[m..];
    var t := a' + b' + c';
    assert a' == t[..n] && b' == t[n..m] && c' == t[m..];
  }

  lemma {:induction false} OutpointsSize(inputs: seq<Input>)
    requires ValidInputs(inputs)
    ensures |Outpoints(inputs)| == 36 * |inputs|
  {
    if inputs != [] {
      assert ValidInput(inputs[0]);
      OutpointsSize(inputs[1..]);
    }
  }

  lemma {:induction false} ReferencesSize(refs: seq<Transaction>, device: Device)
    requires AllReferences(refs) && DigestWidth(device)
    ensures |ReferenceAll(refs, device)| == 36 * |refs|
  {
    hide SignatureTranscript;
    if refs != [] {
      assert Standard(refs[0]);
      ReferencesSize(refs[1..], device);
    }
  }

  /** The references of an accepted stream are the spending transaction's inputs, in order, or SHA-256 collided. */
  lemma ReferencesMatch(st: Stream, total: nat, device: Device)
    requires StandardStream(st) && DigestWidth(device) && Acceptable(st, total, START, device)
    ensures Matches(st.spend.inputs, st.refs, device)
            || Collision(device, Outpoints(st.spend.inputs), ReferenceAll(st.refs, device))
  {
    hide Matches;
    assert [] + ReferenceAll(st.refs, device) == ReferenceAll(st.refs, device);
    if Outpoints(st.spend.inputs) == ReferenceAll(st.refs, device) {
      EqualReferences(st.spend.inputs, st.refs, device);
    }
  }

  // ----- transcripts -----

  /** Two inputs that differ at most in their scripts. */
  ghost predicate SameOutpoints(a: seq<Input>, b: seq<Input>) {
    |a| == |b| && forall i :: 0 <= i < |a| ==> a[i].txid == b[i].txid && a[i].index == b[i].index
  }

  lemma VarIntUnique(a: VarInt, b: VarInt, r: seq<Byte>, t: seq<Byte>)
    requires ValidVarInt(a) && ValidVarInt(b) && a.code + r == b.code + t
    ensures a == b && r == t
  {
    VarIntComplete(a, r);
    VarIntComplete(b, t);
  }

  lemma {:induction false} BareInputsUnique(a: seq<Input>, b: seq<Input>, r: seq<Byte>, t: seq<Byte>)
    requires |a| == |b| && ValidInputs(a) && ValidInputs(b)
    requires PrintBareInputs(a) + r == PrintBareInputs(b) + t
    ensures SameOutpoints(a, b) && r == t
    decreases |a|
  {
    hide ValidVarInt, Word, SameOutpoints, PrintBareInputs;
    if a == [] {
      NoBareInputs();
      assert [] + r == r && [] + t == t;
      assert SameOutpoints([], []) by {
        NoOutpoints();
      }
    } else {
      assert ValidInput(a[0]) && ValidInput(b[0]);
      var u := BareFirst(a, r);
      var v := BareFirst(b, t);
      EqualHeads(a[0].txid, a[0].index, u, b[0].txid, b[0].index, v);
      EqualHeads([], Word(SEQUENCE), PrintBareInputs(a[1..]) + r, [], Word(SEQUENCE), PrintBareInputs(b[1..]) + t);
      BareInputsUnique(a[1..], b[1..], r, t);
      SameOutpointsCons(a, b);
    }
  }

  lemma NoBareInputs()
    ensures PrintBareInputs([]) == []
  {
  }

  lemma NoOutpoints()
    ensures SameOutpoints([], [])
  {
  }

  /** What follows the outpoint of the first input. */
  lemma BareFirst(a: seq<Input>, r: seq<Byte>) returns (u: seq<Byte>)
    requires a != []
    ensures PrintBareInputs(a) + r == a[0].txid + a[0].index + u
    ensures u == [] + Word(SEQUENCE) + (PrintBareInputs(a[1..]) + r)
  {
    hide Word;
    u := [] + Word(SEQUENCE) + (PrintBareInputs(a[1..]) + r);
  }

  lemma SameOutpointsCons(a: seq<Input>, b: seq<Input>)
    requires a != [] && b != [] && SameOutpoints(a[1..], b[1..])
    requires a[0].txid == b[0].txid && a[0].index == b[0].index
    ensures SameOutpoints(a, b)
  {
    forall i | 0 <= i < |a|
      ensures a[i].txid == b[i].txid && a[i].index == b[i].index
    {
      if i > 0 {
        assert a[i] == a[1..][i - 1] && b[i] == b[1..][i - 1];
      }
    }
  }

  lemma OutputUnique(a: Output, b: Output, isRef: bool, r: seq<Byte>, t: seq<Byte>)
    requires ValidOutput(a, isRef) && ValidOutput(b, isRef)
    requires PrintOutput(a) + r == PrintOutput(b) + t
    ensures a == b && r == t
  {
    hide ValidVarInt, IsTemplate;
    var u, v := a.script + r, b.script + t;
    assert PrintOutput(a) + r == [] + a.amount + (a.scriptLength.code + u);
    assert PrintOutput(b) + t == [] + b.amount + (b.scriptLength.code + v);
    EqualHeads([], a.amount, a.scriptLength.code + u, [], b.amount, b.scriptLength.code + v);
    VarIntUnique(a.scriptLength, b.scriptLength, u, v);
    assert u == [] + a.script + r && v == [] + b.script + t;
    EqualHeads([], a.script, r, [], b.script, t);
  }

  lemma {:induction false} OutputsUnique(a: seq<Output>, b: seq<Output>, isRef: bool, r: seq<Byte>, t: seq<Byte>)
    requires |a| == |b| && ValidOutputs(a, isRef) && ValidOutputs(b, isRef)
    requires PrintOutputs(a) + r == PrintOutputs(b) + t
    ensures a == b && r == t
    decreases |a|
  {
    hide ValidOutput, PrintOutput;
    if a == [] {
      assert PrintOutputs(a) + r == r && PrintOutputs(b) + t == t;
    } else {
      var u, v := PrintOutputs(a[1..]) + r, PrintOutputs(b[1..]) + t;
      assert PrintOutputs(a) + r == PrintOutput(a[0]) + u && PrintOutputs(b) + t == PrintOutput(b[0]) + v;
      OutputUnique(a[0], b[0], isRef, u, v);
      OutputsUnique(a[1..], b[1..], isRef, r, t);
      assert a == [a[0]] + a[1..] && b == [b[0]] + b[1..];
    }
  }

  lemma TailUnique(a: Transaction, b: Transaction)
    requires Standard(a) && Standard(b) && (a.isRef == 0 <==> b.isRef == 0)
    requires PrintTail(a) == PrintTail(b)
    ensures a.numOutputs == b.numOutputs && a.outputs == b.outputs
  {
    hide ValidVarInt, ValidInputs, ValidOutputs, Word, PrintOutputs, Val;
    var e, f := Word(0) + (if a.isRef == 0 then Word(1) else []), Word(0) + (if b.isRef == 0 then Word(1) else []);
    assert PrintTail(a) == a.numOutputs.code + (PrintOutputs(a.outputs) + e);
    assert PrintTail(b) == b.numOutputs.code + (PrintOutputs(b.outputs) + f);
    VarIntUnique(a.numOutputs, b.numOutputs, PrintOutputs(a.outputs) + e, PrintOutputs(b.outputs) + f);
    OutputsUnique(a.outputs, b.outputs, a.isRef != 0, e, f);
  }

  /** Two spending transactions that differ at most in the scripts of their inputs. */
  ghost predicate SameButScripts(a: Transaction, b: Transaction) {
    && a.numInputs == b.numInputs && SameOutpoints(a.inputs, b.inputs)
    && a.numOutputs == b.numOutputs && a.outputs == b.outputs
  }

  /** The bytes of the transaction hash determine which outputs are spent and what is paid to whom. */
  lemma TranscriptUnique(a: Transaction, b: Transaction)
    requires Standard(a) && Standard(b) && a.isRef == 0 && b.isRef == 0
    requires TransactionTranscript(a) == TransactionTranscript(b)
    ensures SameButScripts(a, b)
  {
    hide ValidVarInt, ValidOutputs, ValidInputs, Word, PrintTail, PrintBareInputs, Val, SameOutpoints;
    var u, v := PrintBareInputs(a.inputs) + PrintTail(a), PrintBareInputs(b.inputs) + PrintTail(b);
    assert TransactionTranscript(a) == [] + Word(1) + (a.numInputs.code + u);
    assert TransactionTranscript(b) == [] + Word(1) + (b.numInputs.code + v);
    EqualHeads([], Word(1), a.numInputs.code + u, [], Word(1), b.numInputs.code + v);
    VarIntUnique(a.numInputs, b.numInputs, u, v);
    BareInputsUnique(a.inputs, b.inputs, PrintTail(a), PrintTail(b));
    TailUnique(a, b);
  }

  lemma {:induction false} ScriptsNotPrinted(a: seq<Input>, b: seq<Input>)
    requires SameOutpoints(a, b)
    ensures PrintBareInputs(a) == PrintBareInputs(b) && Outpoints(a) == Outpoints(b)
  {
    if a == [] {
      assert b == [];
    } else {
      assert a[0].txid == b[0].txid && a[0].index == b[0].index;
      assert SameOutpoints(a[1..], b[1..]);
      ScriptsNotPrinted(a[1..], b[1..]);
    }
  }

  /** The transaction hash is fed the same bytes for two spending transactions iff they differ in input scripts only. */
  lemma TranscriptIgnoresScripts(a: Transaction, b: Transaction)
    requires Standard(a) && Standard(b) && a.isRef == 0 && b.isRef == 0
    ensures TransactionTranscript(a) == TransactionTranscript(b) <==> SameButScripts(a, b)
  {
    hide Standard, SameOutpoints;
    if TransactionTranscript(a) == TransactionTranscript(b) {
      TranscriptUnique(a, b);
    }
    if SameButScripts(a, b) {
      ScriptsNotPrinted(a.inputs, b.inputs);
    }
  }

  /**
   Another input of an accepted stream is signed for by moving the script; whatever scripts the inputs have, the
   stream is accepted again, shows the same lines and fee and has the same transaction hash.
   */
  lemma Rescripted(st: Stream, inputs: seq<Input>, was: nat, total: nat, device: Device)
    requires StandardStream(st) && Acceptable(st, was, START, device) && Balanced(st, START.ledger)
    requires ValidInputs(inputs) && SameOutpoints(st.spend.inputs, inputs) && total <= MAX_TRANSACTION_SIZE
    ensures var spend := st.spend.(inputs := inputs);
            && TransactionTranscript(spend) == TransactionTranscript(st.spend)
            && ParseStream(PrintAll(st.refs) + Print(spend), total, START, device) == Ok(st.(spend := spend), [])
  {
    hide ValidVarInt, ValidOutputs, SpendableAll, ReferenceAll, Outpoints, ParseStream, PrintAll, Print,
        PrintBareInputs,
         PrintTail, Total, DisplayAll, Val;
    var next := st.(spend := st.spend.(inputs := inputs));
    ScriptsNotPrinted(st.spend.inputs, inputs);
    assert PrintTail(next.spend) == PrintTail(st.spend) by {
      SameTail(st.spend, inputs);
    }
    StreamComplete(next, total, START, device);
    var s := PrintAll(st.refs) + Print(next.spend);
    StreamSound(s, total, START, device);
    var r := ParseStream(s, total, START, device);
    assert r.value.ledger == st.ledger;
  }

  lemma SameTail(tx: Transaction, inputs: seq<Input>)
    ensures PrintTail(tx.(inputs := inputs)) == PrintTail(tx)
  {
  }

  /** One signature transcript is that of one transaction, up to the flag and the selected output number. */
  lemma SignatureTranscriptUnique(a: Transaction, b: Transaction)
    requires Standard(a) && Standard(b) && a.isRef != 0 && b.isRef != 0
    requires SignatureTranscript(a) == SignatureTranscript(b)
    ensures a.inputs == b.inputs && a.outputs == b.outputs
  {
    hide ValidVarInt, ValidOutputs, ValidInputs, Word, PrintTail, PrintInputs, Val;
    var u, v := PrintInputs(a.inputs) + PrintTail(a), PrintInputs(b.inputs) + PrintTail(b);
    assert SignatureTranscript(a) == [] + Word(1) + (a.numInputs.code + u);
    assert SignatureTranscript(b) == [] + Word(1) + (b.numInputs.code + v);
    EqualHeads([], Word(1), a.numInputs.code + u, [], Word(1), b.numInputs.code + v);
    VarIntUnique(a.numInputs, b.numInputs, u, v);
    InputsComplete(a.inputs, PrintTail(a));
    InputsComplete(b.inputs, PrintTail(b));
    TailUnique(a, b);
  }

  // ----- what the user is shown -----

  /** Payments to a key and to a script are shown with different versions, whatever the hash. */
  lemma TemplatesShown(h: seq<Byte>)
    requires |h| == 20
    ensures var key: seq<Byte> := [0x76, 0xa9, 0x14] + h + [0x88, 0xac]; IsTemplate(key) && Payee(key) == (0x00, h)
    ensures var script: seq<Byte> := [0xa9, 0x14] + h + [0x87]; IsTemplate(script) && Payee(script) == (0x05, h)
  {
    var key: seq<Byte>, script: seq<Byte> := [0x76, 0xa9, 0x14] + h + [0x88, 0xac], [0xa9, 0x14] + h + [0x87];
    assert key[..3] == [0x76, 0xa9, 0x14] && key[3..23] == h && key[23..] == [0x88, 0xac];
    assert script[..2] == [0xa9, 0x14] && script[2..22] == h && script[22..] == [0x87];
  }

  /** Every standard script is one of the two, for the hash that is shown. */
  lemma TemplateIs(script: seq<Byte>)
    requires IsTemplate(script)
    ensures var (version, h) := Payee(script);
            && |h| == 20 && (version == 0x00 || version == 0x05)
            && script == if version == 0x00 then [0x76, 0xa9, 0x14] + h + [0x88, 0xac] else [0xa9, 0x14] + h + [0x87]
  {
    if |script| == 0x19 {
      assert script == script[..3] + script[3..23] + script[23..];
    } else {
      assert script == script[..2] + script[2..22] + script[22..];
    }
  }

  /** An address is shown for one standard script only. */
  lemma PayeeUnique(a: seq<Byte>, b: seq<Byte>)
    requires IsTemplate(a) && IsTemplate(b) && Payee(a) == Payee(b)
    ensures a == b
  {
    TemplateIs(a);
    TemplateIs(b);
  }

  ghost predicate SamePayments(a: seq<Output>, b: seq<Output>) {
    |a| == |b| && forall i :: 0 <= i < |a| ==> a[i].amount == b[i].amount && a[i].script == b[i].script
  }

  /** The lines shown determine what is paid and to which scripts, in order. */
  lemma {:induction false} LinesUnique(a: seq<Output>, b: seq<Output>)
    requires ValidOutputs(a, false) && ValidOutputs(b, false) && DisplayAll(a) == DisplayAll(b)
    ensures SamePayments(a, b)
    decreases |a|
  {
    hide IsTemplate, Payee, ValidVarInt, Val;
    if a == [] {
      assert b == [];
    } else {
      assert b != [];
      assert DisplayAll(a)[0] == Display(a[0]) && DisplayAll(b)[0] == Display(b[0]);
      assert DisplayAll(a)[1..] == DisplayAll(a[1..]) && DisplayAll(b)[1..] == DisplayAll(b[1..]);
      assert ValidOutput(a[0], false) && ValidOutput(b[0], false);
      ValInjective(a[0].amount, b[0].amount);
      PayeeUnique(a[0].script, b[0].script);
      LinesUnique(a[1..], b[1..]);
      SamePaymentsCons(a, b);
    }
  }

  lemma SamePaymentsCons(a: seq<Output>, b: seq<Output>)
    requires a != [] && b != [] && SamePayments(a[1..], b[1..])
    requires a[0].amount == b[0].amount && a[0].script == b[0].script
    ensures SamePayments(a, b)
  {
    forall i | 0 <= i < |a|
      ensures a[i].amount == b[i].amount && a[i].script == b[i].script
    {
      if i > 0 {
        assert a[i] == a[1..][i - 1] && b[i] == b[1..][i - 1];
      }
    }
  }

  /** Two accepted streams that look the same on the display pay the same amounts to the same scripts. */
  lemma ShownIsPaid(a: Stream, b: Stream)
    requires StandardStream(a) && StandardStream(b) && Balanced(a, START.ledger) && Balanced(b, START.ledger)
    requires a.ledger.shown == b.ledger.shown
    ensures SamePayments(a.spend.outputs, b.spend.outputs)
  {
    hide DisplayAll, SamePayments, IsTemplate, Total, SpendableAll;
    assert [] + DisplayAll(a.spend.outputs) == DisplayAll(a.spend.outputs);
    assert [] + DisplayAll(b.spend.outputs) == DisplayAll(b.spend.outputs);
    LinesUnique(a.spend.outputs, b.spend.outputs);
  }

  // ----- the fee -----

  /** The places where SHA-256 would have to collide for two streams to share a transcript but not a fee. */
  ghost predicate Collides(a: Stream, b: Stream, device: Device) {
    || Collision(device, Outpoints(a.spend.inputs), ReferenceAll(a.refs, device))
    || Collision(device, Outpoints(b.spend.inputs), ReferenceAll(b.refs, device))
    || exists i :: 0 <= i < |a.refs| && i < |b.refs| &&
         Collision(device, SignatureTranscript(a.refs[i]), SignatureTranscript(b.refs[i]))
  }

  lemma ReversedInjective(a: seq<Byte>, b: seq<Byte>)
    requires |a| == |b| && Reversed(a) == Reversed(b)
    ensures a == b
  {
    forall i | 0 <= i < |a| ensures a[i] == b[i] {
      assert Reversed(a)[|a| - 1 - i] == a[i] && Reversed(b)[|b| - 1 - i] == b[i];
    }
  }

  /** Two references for the same outpoint contribute the same amount. */
  lemma SameSpendable(a: Transaction, b: Transaction, device: Device)
    requires Standard(a) && Standard(b) && a.isRef != 0 && b.isRef != 0 && DigestWidth(device)
    requires a.select == b.select
    requires Reversed(device.hash(SignatureTranscript(a))) == Reversed(device.hash(SignatureTranscript(b)))
    ensures Spendable(a) == Spendable(b) || Collision(device, SignatureTranscript(a), SignatureTranscript(b))
  {
    hide SignatureTranscript;
    ReversedInjective(device.hash(SignatureTranscript(a)), device.hash(SignatureTranscript(b)));
    if SignatureTranscript(a) == SignatureTranscript(b) {
      SignatureTranscriptUnique(a, b);
    }
  }

  lemma {:induction false} SameSpendableAll(a: seq<Transaction>, b: seq<Transaction>)
    requires AllReferences(a) && AllReferences(b) && |a| == |b|
    requires forall i :: 0 <= i < |a| ==> Spendable(a[i]) == Spendable(b[i])
    ensures SpendableAll(a) == SpendableAll(b)
  {
    hide Standard;
    if a != [] {
      forall i | 0 <= i < |a[1..]| ensures Spendable(a[1..][i]) == Spendable(b[1..][i]) {
        assert a[1..][i] == a[i + 1] && b[1..][i] == b[i + 1];
      }
      SameSpendableAll(a[1..], b[1..]);
      assert Spendable(a[0]) == Spendable(b[0]);
    }
  }

  /** One transaction hash transcript, one set of displayed lines and one fee, or a collision can be pointed at. */
  lemma SameTranscriptSameFee(a: Stream, b: Stream, totalA: nat, totalB: nat, device: Device)
    requires StandardStream(a) && StandardStream(b) && DigestWidth(device)
    requires Acceptable(a, totalA, START, device) && Balanced(a, START.ledger)
    requires Acceptable(b, totalB, START, device) && Balanced(b, START.ledger)
    requires TransactionTranscript(a.spend) == TransactionTranscript(b.spend)
    ensures a.ledger.shown == b.ledger.shown
    ensures a.ledger.fee == b.ledger.fee || Collides(a, b, device)
  {
    TranscriptUnique(a.spend, b.spend);
    ReferencesMatch(a, totalA, device);
    ReferencesMatch(b, totalB, device);
    hide Standard, SignatureTranscript, TransactionTranscript, Outpoints, ReferenceAll, Acceptable, Spendable,
        DigestWidth;
    if !Collides(a, b, device) {
      forall i | 0 <= i < |a.refs|
        ensures Spendable(a.refs[i]) == Spendable(b.refs[i])
      {
        assert a.spend.inputs[i].txid == b.spend.inputs[i].txid;
        SameSpendable(a.refs[i], b.refs[i], device);
      }
      SameSpendableAll(a.refs, b.refs);
    }
  }
}
