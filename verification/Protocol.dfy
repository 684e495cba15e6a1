/**
 The packet protocol of stream_comm.c as a machine that writes down everything it does. What the host sends,
 what the user presses and what the wallet functions return are arbitrary; every run is covered.
 */
module Protocol {
  import opened Bytes
  import opened Wrappers
  import opened TransactionFormat
  import opened TransactionLaws
  import opened TransactionBinding
  import opened TransactionParser

  const PACKET_TYPE_PING: nat := 0x00
  const PACKET_TYPE_NEW_WALLET: nat := 0x04
  const PACKET_TYPE_NEW_ADDRESS: nat := 0x05
  const PACKET_TYPE_GET_NUM_ADDRESSES: nat := 0x06
  const PACKET_TYPE_GET_ADDRESS_PUBKEY: nat := 0x09
  const PACKET_TYPE_SIGN_TRANSACTION: nat := 0x0A
  const PACKET_TYPE_LOAD_WALLET: nat := 0x0B
  const PACKET_TYPE_FORMAT: nat := 0x0D
  const PACKET_TYPE_CHANGE_KEY: nat := 0x0E
  const PACKET_TYPE_CHANGE_NAME: nat := 0x0F
  const PACKET_TYPE_LIST_WALLETS: nat := 0x10
  const PACKET_TYPE_BACKUP_WALLET: nat := 0x11
  const PACKET_TYPE_RESTORE_WALLET: nat := 0x12
  const PACKET_TYPE_GET_DEVICE_UUID: nat := 0x13
  const PACKET_TYPE_GET_ENTROPY: nat := 0x14
  const PACKET_TYPE_GET_MASTER_KEY: nat := 0x15
  const PACKET_TYPE_DELETE_WALLET: nat := 0x16
  const PACKET_TYPE_INITIALIZE: nat := 0x17
  const PACKET_TYPE_ADDRESS_PUBKEY: nat := 0x30
  const PACKET_TYPE_NUM_ADDRESSES: nat := 0x31
  const PACKET_TYPE_WALLETS: nat := 0x32
  const PACKET_TYPE_PING_RESPONSE: nat := 0x33
  const PACKET_TYPE_SUCCESS: nat := 0x34
  const PACKET_TYPE_FAILURE: nat := 0x35
  const PACKET_TYPE_DEVICE_UUID: nat := 0x36
  const PACKET_TYPE_ENTROPY: nat := 0x37
  const PACKET_TYPE_MASTER_KEY: nat := 0x38
  const PACKET_TYPE_FEATURES: nat := 0x3a
  const PACKET_TYPE_BUTTON_REQUEST: nat := 0x50
  const PACKET_TYPE_BUTTON_ACK: nat := 0x51
  const PACKET_TYPE_BUTTON_CANCEL: nat := 0x52
  const PACKET_TYPE_PIN_REQUEST: nat := 0x53
  const PACKET_TYPE_PIN_ACK: nat := 0x54
  const PACKET_TYPE_OTP_REQUEST: nat := 0x56
  const PACKET_TYPE_OTP_ACK: nat := 0x57

  const SEED_LENGTH: nat := 64
  const OTP_LENGTH: nat := 5
  const SESSION_ID_SIZE: nat := 64
  const MAX_ENTROPY: nat := 1024

  /** What the wallet can be asked to do. */
  datatype Operation =
    | NewWallet | NewAddress | SignTransaction | Format | ChangeName | BackupWallet | RestoreWallet | ChangeKey
    | GetMasterKey | DeleteWallet | LoadWallet | ReadOnly(id: nat)

  /** Operations that need a button press; four of them also need the one-time password on the display. */
  predicate NeedsButton(op: Operation) {
    !op.LoadWallet? && !op.ReadOnly?
  }

  predicate NeedsOtp(op: Operation) {
    op.DeleteWallet? || op.Format? || op.ChangeKey? || op.GetMasterKey?
  }

  /** A field of a SignTransaction message, in the order of arrival. */
  datatype SignField = Handle(handle: nat) | Data(bytes: seq<Byte>)

  /**
   A packet as the firmware sees it: its type, whether the payload decodes and is used up, and the fields that
   the handlers look at.
   */
  datatype Packet = Packet(id: nat, wellFormed: bool, sessionId: seq<Byte>, otp: seq<Byte>, seedSize: nat, count: nat,
                           fields: seq<SignField>)

  /** WALLET_NO_ERROR, WALLET_NOT_THERE or another error. */
  datatype WalletResult = WalletOk | WalletNotThere | WalletError(code: nat)

  /** Everything outside the firmware: the n-th packet, press, one-time password and wallet result. */
  datatype World = World(packet: nat -> Packet, userDenied: nat -> bool, otp: nat -> seq<Byte>,
      wallet: nat -> WalletResult)

  /** How many packets, presses, one-time passwords and wallet results have been used up. */
  datatype Usage = Usage(packets: nat, presses: nat, otps: nat, calls: nat)

  datatype Event =
    | Received(id: nat)
    | Sent(id: nat)
    | Reset                                        // a well-formed Initialize
    | Displayed(stream: Stream)                    // outputs and fee of an accepted stream are on the display
    | Accepted(operation: Operation)               // the host allowed the press and the user did not deny
    | OtpMatched(operation: Operation)
    | Performed(operation: Operation)
    | Signature(digest: seq<Byte>, handle: nat)    // a Signature packet, for that signature hash

  // ----- what a log must look like -----

  /** The transaction stream last put on the display. */
  function LastDisplayed(log: seq<Event>): Option<Stream> {
    if log == [] then None
    else if log[|log| - 1].Displayed? then Some(log[|log| - 1].stream)
    else LastDisplayed(log[..|log| - 1])
  }

  function TransactionHash(st: Stream, device: Device): seq<Byte> {
    device.hash(TransactionTranscript(st.spend))
  }

  function SignatureHash(st: Stream, device: Device): seq<Byte> {
    device.hash(SignatureTranscript(st.spend))
  }

  /** Event j is the user accepting the transaction on the display, which has this hash; no Initialize since. */
  ghost predicate ApprovedAt(log: seq<Event>, j: nat, hash: seq<Byte>, device: Device) {
    && j < |log| && log[j] == Accepted(SignTransaction)
    && LastDisplayed(log[..j]).Some? && TransactionHash(LastDisplayed(log[..j]).value, device) == hash
    && forall k :: j < k < |log| ==> log[k] != Reset
  }

  ghost predicate Approved(log: seq<Event>, hash: seq<Byte>, device: Device) {
    exists j: nat :: ApprovedAt(log, j, hash, device)
  }

  ghost predicate EndsWith(log: seq<Event>, tail: seq<Event>) {
    |tail| <= |log| && log[|log| - |tail|..] == tail
  }

  /** The conversation that must come immediately before an operation. */
  function Consent(op: Operation): seq<Event> {
    if !NeedsButton(op) then []
    else
      [Sent(PACKET_TYPE_BUTTON_REQUEST), Received(PACKET_TYPE_BUTTON_ACK), Accepted(op)]
      + if NeedsOtp(op) then [Sent(PACKET_TYPE_OTP_REQUEST), Received(PACKET_TYPE_OTP_ACK), OtpMatched(op)] else []
  }

  /** A stream that the parser accepts on an empty display. */
  ghost predicate Sound(st: Stream, device: Device) {
    && StandardStream(st) && Balanced(st, START.ledger)
    && exists total: nat :: Acceptable(st, total, START, device)
  }

  /** What must have happened before an event. */
  ghost predicate Justified(before: seq<Event>, e: Event, device: Device) {
    match e
    case Signature(digest, _) =>
      var shown := LastDisplayed(before);
      && shown.Some? && digest == SignatureHash(shown.value, device)
      && Approved(before, TransactionHash(shown.value, device), device)
    case Performed(op) => op != SignTransaction && EndsWith(before, Consent(op))
    case Displayed(st) => Sound(st, device)
    case _ => true
  }

  ghost predicate Good(log: seq<Event>, device: Device) {
    forall i :: 0 <= i < |log| ==> Justified(log[..i], log[i], device)
  }

  lemma GoodAppend(log: seq<Event>, e: Event, device: Device)
    requires Good(log, device) && Justified(log, e, device)
    ensures Good(log + [e], device)
  {
    hide Justified;
    var next := log + [e];
    forall i | 0 <= i < |next|
      ensures Justified(next[..i], next[i], device)
    {
      assert next[..i] == log[..i];
      if i == |log| {
        assert log[..i] == log;
      }
    }
  }

  lemma ApprovedAppend(log: seq<Event>, e: Event, hash: seq<Byte>, device: Device)
    requires Approved(log, hash, device) && e != Reset
    ensures Approved(log + [e], hash, device)
  {
    hide LastDisplayed, TransactionHash;
    var j: nat :| ApprovedAt(log, j, hash, device);
    assert (log + [e])[..j] == log[..j];
    assert ApprovedAt(log + [e], j, hash, device);
  }

  /** Accepting what is on the display approves its hash. */
  lemma ApprovedNow(log: seq<Event>, device: Device)
    requires LastDisplayed(log).Some?
    ensures Approved(log + [Accepted(SignTransaction)], TransactionHash(LastDisplayed(log).value, device), device)
  {
    hide LastDisplayed, TransactionHash;
    var next := log + [Accepted(SignTransaction)];
    assert next[..|log|] == log;
    assert ApprovedAt(next, |log|, TransactionHash(LastDisplayed(log).value, device), device);
  }

  lemma LastDisplayedAppend(log: seq<Event>, e: Event)
    ensures LastDisplayed(log + [e]) == if e.Displayed? then Some(e.stream) else LastDisplayed(log)
  {
    assert (log + [e])[..|log|] == log;
  }

  // ----- whose turn it is -----

  /** The host sends, the device answers; Broken once somebody spoke out of turn. */
  datatype Turn = Host | Firmware | Broken

  function TurnAfter(turn: Turn, e: Event): Turn {
    match e
    case Received(_) => if turn.Host? then Firmware else Broken
    case Sent(_) => if turn.Firmware? then Host else Broken
    case Signature(_, _) => if turn.Firmware? then Host else Broken
    case _ => turn
  }

  function TurnOf(log: seq<Event>): Turn {
    if log == [] then Host else TurnAfter(TurnOf(log[..|log| - 1]), log[|log| - 1])
  }

  lemma TurnAppend(log: seq<Event>, e: Event)
    ensures TurnOf(log + [e]) == TurnAfter(TurnOf(log), e)
  {
    assert (log + [e])[..|log|] == log;
  }

  // ----- the machine -----

  /** The host answers a button request with an acknowledgement, and the user accepts. */
  predicate ButtonGranted(p: Packet, denied: bool) {
    p.id == PACKET_TYPE_BUTTON_ACK && p.wellFormed && !denied
  }

  /** The host sends back the one-time password on the display: the first 5 bytes, terminator included, agree. */
  predicate OtpGranted(p: Packet, otp: seq<Byte>) {
    p.id == PACKET_TYPE_OTP_ACK && p.wellFormed && SameOtp(p.otp, otp)
  }

  predicate SameOtp(a: seq<Byte>, b: seq<Byte>) {
    |a| >= OTP_LENGTH && |b| >= OTP_LENGTH && a[..OTP_LENGTH] == b[..OTP_LENGTH]
  }

  /** Payload lengths are 32-bit, so every field is shorter than that. */
  ghost predicate Fits(p: Packet) {
    forall i :: 0 <= i < |p.fields| && p.fields[i].Data? ==> |p.fields[i].bytes| <= 0xffffffff
  }

  ghost predicate Deliverable(w: World) {
    forall n: nat :: Fits(w.packet(n))
  }

  /** The request types whose handler is: decode, ask, perform, answer. */
  function Requested(id: nat): Option<Operation> {
    if id == PACKET_TYPE_DELETE_WALLET then Some(DeleteWallet)
    else if id == PACKET_TYPE_NEW_WALLET then Some(NewWallet)
    else if id == PACKET_TYPE_NEW_ADDRESS then Some(NewAddress)
    else if id == PACKET_TYPE_FORMAT then Some(Format)
    else if id == PACKET_TYPE_CHANGE_KEY then Some(ChangeKey)
    else if id == PACKET_TYPE_CHANGE_NAME then Some(ChangeName)
    else if id == PACKET_TYPE_BACKUP_WALLET then Some(BackupWallet)
    else if id == PACKET_TYPE_RESTORE_WALLET then Some(RestoreWallet)
    else if id == PACKET_TYPE_GET_MASTER_KEY then Some(GetMasterKey)
    else if id == PACKET_TYPE_GET_NUM_ADDRESSES || id == PACKET_TYPE_GET_ADDRESS_PUBKEY
        || id == PACKET_TYPE_LIST_WALLETS
            || id == PACKET_TYPE_GET_DEVICE_UUID || id == PACKET_TYPE_GET_ENTROPY then Some(ReadOnly(id))
    else None
  }

  /** The packet that carries the result when an operation succeeds. */
  function Answer(op: Operation): nat {
    match op
    case NewAddress => PACKET_TYPE_ADDRESS_PUBKEY
    case GetMasterKey => PACKET_TYPE_MASTER_KEY
    case ReadOnly(id) =>
      if id == PACKET_TYPE_GET_NUM_ADDRESSES then PACKET_TYPE_NUM_ADDRESSES
      else if id == PACKET_TYPE_GET_ADDRESS_PUBKEY then PACKET_TYPE_ADDRESS_PUBKEY
      else if id == PACKET_TYPE_LIST_WALLETS then PACKET_TYPE_WALLETS
      else if id == PACKET_TYPE_GET_DEVICE_UUID then PACKET_TYPE_DEVICE_UUID
      else PACKET_TYPE_ENTROPY
    case _ => PACKET_TYPE_SUCCESS
  }

  /** Requests that are refused on their contents before anybody is asked. */
  predicate Refused(p: Packet) {
    || (p.id == PACKET_TYPE_RESTORE_WALLET && p.seedSize != SEED_LENGTH)
    || (p.id == PACKET_TYPE_GET_ENTROPY && p.count > MAX_ENTROPY)
  }

  class Wire {
    const world: World
    const device: Device
    var packets: nat
    var presses: nat
    var otps: nat
    var calls: nat

    var prevTransactionHash: seq<Byte>
    var prevTransactionHashValid: bool
    var sessionId: seq<Byte>
    /** fatalError() was called: the device has stopped. */
    var halted: bool
    ghost var log: seq<Event>

    constructor (world0: World, device0: Device)
      requires Deliverable(world0)
      ensures world == world0 && device == device0 && Valid() && log == [] && !halted
    {
      world, device := world0, device0;
      packets, presses, otps, calls := 0, 0, 0, 0;
      prevTransactionHash, prevTransactionHashValid := [], false;
      sessionId, halted, log := [], false, [];
    }

    /** Every event so far was justified, and a remembered hash is one the user approved. */
    ghost predicate Valid()
      reads `prevTransactionHash, `prevTransactionHashValid, `log
    {
      && Deliverable(world)
      && Good(log, device)
      && (prevTransactionHashValid ==> Approved(log, prevTransactionHash, device))
    }

    ghost function Used(): Usage
      reads `packets, `presses, `otps, `calls
    {
      Usage(packets, presses, otps, calls)
    }

    ghost method Emit(e: Event)
      requires Valid() && Justified(log, e, device) && (e == Reset ==> !prevTransactionHashValid)
      modifies `log
      ensures Valid() && log == old(log) + [e]
      ensures TurnOf(log) == TurnAfter(old(TurnOf(log)), e)
      ensures LastDisplayed(log) == if e.Displayed? then Some(e.stream) else old(LastDisplayed(log))
    {
      hide Justified, Approved, LastDisplayed, TurnOf, Good;
      GoodAppend(log, e, device);
      if prevTransactionHashValid {
        ApprovedAppend(log, e, prevTransactionHash, device);
      }
      TurnAppend(log, e);
      LastDisplayedAppend(log, e);
      log := log + [e];
    }

    method ReceivePacket() returns (p: Packet)
      requires Valid()
      modifies `packets, `log
      ensures Valid() && packets == old(packets) + 1 && p == world.packet(old(packets)) && Fits(p)
      ensures log == old(log) + [Received(p.id)]
      ensures TurnOf(log) == TurnAfter(old(TurnOf(log)), Received(p.id))
      ensures LastDisplayed(log) == old(LastDisplayed(log))
    {
      p := world.packet(packets);
      packets := packets + 1;
      Emit(Received(p.id));
    }

    method SendPacket(id: nat)
      requires Valid()
      modifies `log
      ensures Valid() && log == old(log) + [Sent(id)]
      ensures TurnOf(log) == TurnAfter(old(TurnOf(log)), Sent(id))
      ensures LastDisplayed(log) == old(LastDisplayed(log))
    {
      Emit(Sent(id));
    }

    method CallWallet() returns (r: WalletResult)
      modifies `calls
      ensures r == world.wallet(old(calls)) && calls == old(calls) + 1
    {
      r := world.wallet(calls);
      calls := calls + 1;
    }

    /** Asks the host to let the user be asked. On a grant the log ends with the conversation; else with a Failure. */
    method ButtonInterjection(op: Operation) returns (denied: bool)
      requires Valid()
      modifies `packets, `presses, `log
      ensures Valid() && packets == old(packets) + 1
      ensures presses == old(presses) + if Acknowledged(world.packet(old(packets))) then 1 else 0
      ensures !denied <==> ButtonGranted(world.packet(old(packets)), world.userDenied(old(presses)))
      ensures !denied ==> log == old(log) + ButtonTalk(op)
      ensures denied ==> log == old(log) + [Sent(PACKET_TYPE_BUTTON_REQUEST), Received(world.packet(old(packets)).id),
                                           Sent(PACKET_TYPE_FAILURE)]
      ensures old(TurnOf(log)).Firmware? ==> TurnOf(log) == if denied then Host else Firmware
      ensures !old(TurnOf(log)).Firmware? ==> TurnOf(log).Broken?
      ensures LastDisplayed(log) == old(LastDisplayed(log))
    {
      hide Valid, TurnOf, LastDisplayed;
      SendPacket(PACKET_TYPE_BUTTON_REQUEST);
      var p := ReceivePacket();
      if p.id == PACKET_TYPE_BUTTON_ACK {
        if !p.wellFormed {
          SendPacket(PACKET_TYPE_FAILURE);
          return true;
        }
        var userDenied := world.userDenied(presses);
        presses := presses + 1;
        if userDenied {
          SendPacket(PACKET_TYPE_FAILURE);
          return true;
        }
        Emit(Accepted(op));
        return false;
      } else if p.id == PACKET_TYPE_BUTTON_CANCEL {
        if !p.wellFormed {
          SendPacket(PACKET_TYPE_FAILURE);
        } else {
          SendPacket(PACKET_TYPE_FAILURE);
        }
        return true;
      } else {
        SendPacket(PACKET_TYPE_FAILURE);
        return true;
      }
    }

    /** Shows a one-time password and asks the host to send it back. */
    method OtpInterjection(op: Operation) returns (invalid: bool)
      requires Valid()
      modifies `packets, `otps, `log
      ensures Valid() && packets == old(packets) + 1 && otps == old(otps) + 1
      ensures !invalid <==> OtpGranted(world.packet(old(packets)), world.otp(old(otps)))
      ensures !invalid ==> log == old(log) + OtpTalk(op)
      ensures invalid ==> log == old(log) + [Sent(PACKET_TYPE_OTP_REQUEST), Received(world.packet(old(packets)).id),
                                            Sent(PACKET_TYPE_FAILURE)]
      ensures old(TurnOf(log)).Firmware? ==> TurnOf(log) == if invalid then Host else Firmware
    {
      hide Valid, TurnOf, LastDisplayed;
      var otp := world.otp(otps);
      otps := otps + 1;
      SendPacket(PACKET_TYPE_OTP_REQUEST);
      var p := ReceivePacket();
      if p.id == PACKET_TYPE_OTP_ACK {
        if !p.wellFormed || !SameOtp(p.otp, otp) {
          SendPacket(PACKET_TYPE_FAILURE);
          return true;
        }
        Emit(OtpMatched(op));
        return false;
      } else {
        // A cancellation, well-formed or not, or a packet of another type.
        SendPacket(PACKET_TYPE_FAILURE);
        return true;
      }
    }

    /** Asks the host for a password. */
    method PinInterjection() returns (denied: bool)
      requires Valid()
      modifies `packets, `log
      ensures Valid() && packets == old(packets) + 1
      ensures !denied <==> (var p := world.packet(old(packets)); p.id == PACKET_TYPE_PIN_ACK && p.wellFormed)
      ensures log == old(log) + [Sent(PACKET_TYPE_PIN_REQUEST), Received(world.packet(old(packets)).id)]
                     + if denied then [Sent(PACKET_TYPE_FAILURE)] else []
      ensures old(TurnOf(log)).Firmware? ==> TurnOf(log) == if denied then Host else Firmware
    {
      hide Valid, TurnOf, LastDisplayed;
      SendPacket(PACKET_TYPE_PIN_REQUEST);
      var p := ReceivePacket();
      denied := !(p.id == PACKET_TYPE_PIN_ACK && p.wellFormed);
      if denied {
        SendPacket(PACKET_TYPE_FAILURE);
      }
    }

    /** Performs an operation whose consent, if any is needed, has just been given, and answers. */
    method Perform(op: Operation)
      requires Valid() && op != SignTransaction && EndsWith(log, Consent(op))
      modifies `calls, `log
      ensures Valid() && calls == old(calls) + 1
      ensures log == old(log) + [Performed(op),
              Sent(if world.wallet(old(calls)).WalletOk? then Answer(op) else PACKET_TYPE_FAILURE)]
      ensures old(TurnOf(log)).Firmware? ==> TurnOf(log).Host?
    {
      hide Valid, TurnOf, LastDisplayed, EndsWith, Consent;
      Emit(Performed(op));
      var r := CallWallet();
      SendPacket(if r.WalletOk? then Answer(op) else PACKET_TYPE_FAILURE);
    }

    /** Asks for the consent that an operation needs, performs it if that is given, and answers. */
    method Guarded(op: Operation) returns (performed: bool)
      requires Valid() && op != SignTransaction
      modifies `packets, `presses, `otps, `calls, `log
      ensures Valid()
      ensures performed <==> Granted(op, world, old(packets), old(presses), old(otps))
      ensures performed ==>
                log == old(log) + Consent(op)
                       + [Performed(op), Sent(if world.wallet(old(calls)).WalletOk? then Answer(op)
                           else PACKET_TYPE_FAILURE)]
      ensures !performed ==> log == old(log) + Refusal(op, world, old(packets), old(presses))
      ensures Used() == AskedFor(op, world, old(Used()))
      ensures old(TurnOf(log)).Firmware? ==> TurnOf(log).Host?
    {
      hide Valid, TurnOf, LastDisplayed;
      ghost var before := log;
      assert before + [] == before;
      if NeedsButton(op) {
        var denied := ButtonInterjection(op);
        if denied {
          return false;
        }
        if NeedsOtp(op) {
          assert log + OtpTalk(op) == before + (ButtonTalk(op) + OtpTalk(op));
          var invalid := OtpInterjection(op);
          if invalid {
            return false;
          }
        }
      }
      ConsentGiven(before, op);
      assert log == before + Consent(op);
      Perform(op);
      return true;
    }

    /** Recognises the transaction on the display by its hash, or gets the user to approve it. */
    method Approve(hash: seq<Byte>) returns (approved: bool, interjected: bool)
      requires Valid() && LastDisplayed(log).Some? && hash == TransactionHash(LastDisplayed(log).value, device)
      modifies `packets, `presses, `prevTransactionHash, `prevTransactionHashValid, `log
      ensures Valid() && LastDisplayed(log) == old(LastDisplayed(log))
      ensures approved ==> prevTransactionHashValid && prevTransactionHash == hash
      ensures !approved ==> prevTransactionHash == old(prevTransactionHash)
                            && prevTransactionHashValid == old(prevTransactionHashValid)
      ensures interjected <==> !(old(prevTransactionHashValid) && old(prevTransactionHash) == hash)
      ensures approved <==> !interjected || ButtonGranted(world.packet(old(packets)), world.userDenied(old(presses)))
      ensures log == old(log) + Asking(!interjected, approved, world.packet(old(packets)).id)
      ensures interjected && !old(TurnOf(log)).Firmware? ==> TurnOf(log).Broken?
      ensures interjected && old(TurnOf(log)).Firmware? ==> TurnOf(log) == if approved then Firmware else Host
      ensures !interjected ==> TurnOf(log) == old(TurnOf(log)) && packets == old(packets) && presses == old(presses)
      ensures interjected ==>
                && packets == old(packets) + 1
                && presses == old(presses) + if Acknowledged(world.packet(old(packets))) then 1 else 0
    {
      hide TurnOf, LastDisplayed, TransactionHash, Good, Approved;
      approved := prevTransactionHashValid && prevTransactionHash == hash;
      interjected := !approved;
      if interjected {
        ApprovedByButton(log, device);
        var denied := ButtonInterjection(SignTransaction);
        if !denied {
          approved := true;
          prevTransactionHash, prevTransactionHashValid := hash, true;
        }
      }
    }

    /** Sends a signature of the transaction on the display, which is approved, if the wallet yields the key. */
    method SendSignature(digest: seq<Byte>, handle: nat)
      requires Valid() && LastDisplayed(log).Some? && digest == SignatureHash(LastDisplayed(log).value, device)
      requires prevTransactionHashValid && prevTransactionHash == TransactionHash(LastDisplayed(log).value, device)
      modifies `calls, `log
      ensures Valid()
      ensures log == old(log) + [Signing(world.wallet(old(calls)), digest, handle)] && calls == old(calls) + 1
      ensures TurnOf(log) == if old(TurnOf(log)).Firmware? then Host else Broken
    {
      hide TurnOf, LastDisplayed, TransactionHash, SignatureHash, Good, Approved;
      var r := CallWallet();
      if r.WalletOk? {
        Emit(Signature(digest, handle));
      } else {
        SendPacket(PACKET_TYPE_FAILURE);
      }
    }

    /** Shows an accepted transaction, recognises it or gets approval, and signs. */
    method ShowAndSign(ghost st: Stream, signatureHash: seq<Byte>, transactionHash: seq<Byte>, handle: nat)
      returns (interjected: bool)
      requires Valid() && Sound(st, device)
      requires signatureHash == SignatureHash(st, device) && transactionHash == TransactionHash(st, device)
      modifies `packets, `presses, `calls, `prevTransactionHash, `prevTransactionHashValid, `log
      ensures Valid()
      ensures interjected <==> old(Memory()) != Some(transactionHash)
      ensures var approved := !interjected || ButtonGranted(world.packet(old(packets)), world.userDenied(old(presses)));
              && Memory() == (if approved then Some(transactionHash) else old(Memory()))
              && log == old(log) + [Displayed(st)] + Asking(!interjected, approved, world.packet(old(packets)).id)
                        + if approved then [Signing(world.wallet(old(calls)), signatureHash, handle)] else []
      ensures !interjected ==> packets == old(packets) && presses == old(presses) && calls == old(calls) + 1
      ensures interjected ==> Used() == AskedToSign(world, old(Used()))
      ensures TurnOf(log) == if old(TurnOf(log)).Firmware? then Host else Broken
    {
      hide Valid, TurnOf, LastDisplayed, SignatureHash, TransactionHash, Sound;
      Emit(Displayed(st));
      var approved;
      approved, interjected := Approve(transactionHash);
      if approved {
        SendSignature(signatureHash, handle);
      }
    }

    /** The handler of a transaction: parse and show it, recognise it or get approval, sign. */
    method SignTransactionCallback(data: seq<Byte>, handle: nat) returns (interjected: bool)
      requires Valid() && |data| <= 0xffffffff
      modifies `packets, `presses, `calls, `prevTransactionHash, `prevTransactionHashValid, `log
      ensures Valid() && Extends(old(log), log)
      ensures Signs(data, handle, old(Memory()), old(log), old(packets), old(presses), old(calls), Memory(), log,
              interjected)
      ensures !interjected ==>
                && packets == old(packets) && presses == old(presses)
                && calls == old(calls) + if ParseStream(data, |data|, START, device).Ok? then 1 else 0
      ensures interjected ==> Used() == AskedToSign(world, old(Used()))
      ensures TurnOf(log) == if old(TurnOf(log)).Firmware? then Host else Broken
    {
      hide Valid, TurnOf, LastDisplayed, ParseStream, SignatureTranscript, TransactionTranscript, Sound, Asking, Memory;
      var parser := new Parser(data, device);
      assert data[0..|data|] == data;
      var status, signatureHash, transactionHash := parser.ParseTransactions(|data|);
      if status.Error? {
        SendPacket(PACKET_TYPE_FAILURE);
        return false;
      }
      ShownIsSound(data, device);
      ghost var st := ParseStream(data, |data|, START, device).value;
      interjected := ShowAndSign(st, signatureHash, transactionHash, handle);
    }

    /** The remembered hash. */
    ghost function Memory(): Option<seq<Byte>>
      reads `prevTransactionHash, `prevTransactionHashValid
    {
      if prevTransactionHashValid then Some(prevTransactionHash) else None
    }

    /** What handling a transaction does, given the remembered hash and the answers to come. */
    ghost predicate Signs(data: seq<Byte>, handle: nat, was: Option<seq<Byte>>, before: seq<Event>,
                          packets: nat, presses: nat, calls: nat, now: Option<seq<Byte>>, after: seq<Event>,
                          asked: bool)
    {
      var r := ParseStream(data, |data|, START, device);
      && (asked <==> Asks(data, was, device))
      && after == before + Handling(data, handle, was, world, device, packets, presses, calls)
      && now == if r.Ok? && (!asked || ButtonGranted(world.packet(packets), world.userDenied(presses)))
                then Some(TransactionHash(r.value, device)) else was
    }

    /**
     Handling a transaction that differs from the remembered one in input scripts only: it is shown and signed, with no
     question in between.
     */
    lemma SignsAgain(data: seq<Byte>, inputs: seq<Input>, handle: nat, before: seq<Event>, packets: nat, presses: nat,
                     calls: nat, now: Option<seq<Byte>>, after: seq<Event>, asked: bool)
      requires ParseStream(data, |data|, START, device).Ok?
      requires var st := ParseStream(data, |data|, START, device).value;
               var other := PrintAll(st.refs) + Print(st.spend.(inputs := inputs));
               && ValidInputs(inputs) && SameOutpoints(st.spend.inputs, inputs) && |other| <= MAX_TRANSACTION_SIZE
               && Signs(other, handle, Some(TransactionHash(st, device)), before, packets, presses, calls, now, after,
                   asked)
      ensures var st := ParseStream(data, |data|, START, device).value;
              var next := st.(spend := st.spend.(inputs := inputs));
              && !asked && now == Some(TransactionHash(st, device))
              && after == before + [Displayed(next), Signing(world.wallet(calls), SignatureHash(next, device), handle)]
    {
      hide ParseStream, PrintAll, Print, ValidInputs, SameOutpoints, SignatureHash, TransactionHash;
      OtherInputsNotAsked(data, inputs, device);
    }

    /**
     Reads a SignTransaction message field by field; the callback runs as soon as its field arrives. A nested
     conversation takes over the input stream, so nothing after it belongs to the message. Returns the number of
     transactions handled and whether the message was then rejected. Every one of these is an answer.
     */
    method ReceiveSignTransaction(p: Packet) returns (handled: nat, rejected: bool)
      requires Valid() && Fits(p)
      modifies `packets, `presses, `calls, `prevTransactionHash, `prevTransactionHashValid, `log
      ensures Valid() && Extends(old(log), log)
      ensures handled == DataCount(FieldsRead(p.fields, old(Memory()), device))
      ensures rejected <==> Rejected(p, old(Memory()), device)
      ensures log == old(log)
                     + Conversation(p.fields, 0, old(Memory()), world, device, old(packets), old(presses), old(calls))
                     + if Rejected(p, old(Memory()), device) then [Sent(PACKET_TYPE_FAILURE)] else []
      ensures Memory() == MemoryAfter(p.fields, old(Memory()), world, device, old(packets), old(presses))
      ensures Used() == UsedBySigning(p.fields, old(Memory()), world, device, old(Used()))
      ensures old(TurnOf(log)).Firmware? ==>
              TurnOf(log) == if Answers(p, old(Memory()), device) == 1 then Host else Broken
    {
      hide Valid, TurnOf, LastDisplayed, ParseStream, TransactionHash, DataCount, HasHandle, StopsAfter, Asks, Handling,
           Conversation, ButtonGranted, UsedBySigning, AskedToSign;
      ghost var was, before := Memory(), log;
      ghost var goal := Conversation(p.fields, 0, was, world, device, packets, presses, calls);
      ghost var end := UsedBySigning(p.fields, was, world, device, Used());
      assert p.fields[0..] == p.fields;
      var handle, handleSeen, interjected, i := 0, false, false, 0;
      handled := 0;
      NothingRead(p.fields, was, device);
      while i < |p.fields| && !interjected
        invariant i <= |p.fields| && Valid() && Extends(old(log), log)
        invariant handled == DataCount(p.fields[..i]) && handleSeen == HasHandle(p.fields[..i])
        invariant StopsAfter(p.fields, i, interjected, was, device) && (!interjected ==> Memory() == was)
        invariant interjected ==> log == before + goal && Used() == end
        invariant !interjected ==> otps == old(otps) && UsedBySigning(p.fields[i..], was, world, device, Used()) == end
        invariant interjected ==>
                    i > 0 && Memory() == LastRemembered(p.fields[i - 1], was, world, device, old(packets), old(presses))
        invariant !interjected ==>
                    && packets == old(packets) && presses == old(presses)
                    && log + Conversation(p.fields[i..], handle, was, world, device, packets, presses, calls)
                       == before + goal
        invariant old(TurnOf(log)).Firmware? ==>
                    TurnOf(log) == if handled == 0 then Firmware else if handled == 1 then Host else Broken
      {
        ReadOne(p.fields, i, was, device);
        ConversationStep(p.fields, i, log, handle, was, world, device, packets, presses, calls);
        UsedStep(p.fields, i, was, world, device, Used());
        if p.fields[i].Handle? {
          handle, handleSeen := p.fields[i].handle, true;
        } else {
          interjected := SignTransactionCallback(p.fields[i].bytes, handle);
          Remembered(p.fields[i].bytes, was, device);
          handled := handled + 1;
        }
        i := i + 1;
      }
      AllRead(p.fields, i, interjected, was, device);
      if !interjected {
        ConversationOver(p.fields, log, handle, was, world, device, packets, presses, calls);
        NothingUsed(p.fields, was, world, device, Used());
      }
      rejected := !handleSeen || handled == 0 || (!interjected && !p.wellFormed);
      if rejected {
        SendPacket(PACKET_TYPE_FAILURE);
      }
    }

    /** Initialize forgets the approved transaction, whatever the wallet says about unloading. */
    method ReceiveInitialize(p: Packet)
      requires Valid() && !halted
      modifies `calls, `prevTransactionHashValid, `sessionId, `halted, `log
      ensures Valid() && Extends(old(log), log)
      ensures p.wellFormed && |p.sessionId| < SESSION_ID_SIZE ==>
                !prevTransactionHashValid && sessionId == p.sessionId && !halted
                && log == old(log) + [Reset, Sent(if world.wallet(old(calls)).WalletOk? then PACKET_TYPE_FEATURES
                                                 else PACKET_TYPE_FAILURE)]
      ensures !p.wellFormed ==>
                sessionId == [] && prevTransactionHashValid == old(prevTransactionHashValid) && !halted
                && log == old(log) + [Sent(PACKET_TYPE_FAILURE)]
      ensures p.wellFormed && |p.sessionId| >= SESSION_ID_SIZE ==> halted && log == old(log)
      ensures calls == old(calls) + if p.wellFormed && |p.sessionId| < SESSION_ID_SIZE then 1 else 0
      ensures prevTransactionHash == old(prevTransactionHash)
      ensures halted ==> prevTransactionHashValid == old(prevTransactionHashValid)
      ensures old(TurnOf(log)).Firmware? && !halted ==> TurnOf(log).Host?
    {
      hide TurnOf, LastDisplayed, Good, Approved;
      sessionId := [];
      if !p.wellFormed {
        SendPacket(PACKET_TYPE_FAILURE);
        return;
      }
      if |p.sessionId| >= SESSION_ID_SIZE {
        halted := true;
        return;
      }
      sessionId := p.sessionId;
      prevTransactionHashValid := false;
      Emit(Reset);
      var r := CallWallet();
      SendPacket(if r.WalletOk? then PACKET_TYPE_FEATURES else PACKET_TYPE_FAILURE);
    }

    /** Tries to load without a password, and asks for one if nothing is found. */
    method ReceiveLoadWallet()
      requires Valid()
      modifies `packets, `calls, `log
      ensures Valid() && log == old(log) + Loading(world, old(packets), old(calls))
      ensures Used() == UsedByLoading(world, old(Used()))
      ensures old(TurnOf(log)).Firmware? ==> TurnOf(log).Host?
    {
      hide Valid, TurnOf, LastDisplayed;
      Emit(Performed(LoadWallet));
      var r := CallWallet();
      if r.WalletNotThere? {
        var denied := PinInterjection();
        if denied {
          return;
        }
        Emit(Performed(LoadWallet));
        r := CallWallet();
      }
      SendPacket(if r.WalletOk? then PACKET_TYPE_SUCCESS else PACKET_TYPE_FAILURE);
    }

    /** A request that decode, ask, perform, answer describes. */
    method ReceiveRequest(p: Packet, op: Operation)
      requires Valid() && Requested(p.id) == Some(op)
      modifies `packets, `presses, `otps, `calls, `log
      ensures Valid()
      ensures log == old(log) + RequestTalk(p, op, world, old(packets), old(presses), old(otps), old(calls))
      ensures Used() == if !p.wellFormed || Refused(p) then old(Used()) else AskedFor(op, world, old(Used()))
      ensures old(TurnOf(log)).Firmware? ==> TurnOf(log).Host?
    {
      hide Valid, TurnOf, LastDisplayed, Granted, Requested, Refused, Refusal, Consent, AskedFor;
      assert op != SignTransaction by {
        RequestedIsNotSign(p.id);
      }
      ghost var before := log;
      if !p.wellFormed || Refused(p) {
        SendPacket(PACKET_TYPE_FAILURE);
      } else {
        var performed := Guarded(op);
        if performed {
          JoinedTalk(before, op, world, old(calls));
        }
      }
    }

    /** Whatever is not a request, nor Initialize, nor SignTransaction. */
    method ReceiveOther(p: Packet)
      requires Valid()
      modifies `packets, `calls, `log
      ensures Valid() && log == old(log) + OtherTalk(p, world, old(packets), old(calls))
      ensures Used() == if p.wellFormed && p.id == PACKET_TYPE_LOAD_WALLET then UsedByLoading(world, old(Used()))
                        else old(Used())
      ensures old(TurnOf(log)).Firmware? ==> TurnOf(log).Host?
    {
      hide Valid, TurnOf, LastDisplayed, Loading, UsedByLoading;
      if p.wellFormed && p.id == PACKET_TYPE_LOAD_WALLET {
        ReceiveLoadWallet();
      } else if p.wellFormed && p.id == PACKET_TYPE_PING {
        SendPacket(PACKET_TYPE_PING_RESPONSE);
      } else {
        SendPacket(PACKET_TYPE_FAILURE);
      }
    }

    /**
     One packet and the conversation it starts: everything that is said and done follows from the packet, the remembered
     hash and the answers to come.
     */
    method ProcessPacket()
      requires Valid() && !halted
      modifies this
      ensures Valid()
      ensures var p := world.packet(old(packets));
              && log == old(log) + [Received(p.id)]
                        + Talk(p, old(Memory()), world, device, old(packets) + 1, old(presses), old(otps), old(calls))
              && Used() == UsedBy(p, old(Memory()), world, device, old(Used()).(packets := old(packets) + 1))
              && (halted <==> Halts(p))
              && Memory() == RememberedBy(p, old(Memory()), world, device, old(packets) + 1, old(presses))
              && (old(TurnOf(log)).Host? && !halted ==>
                    TurnOf(log) == if p.id == PACKET_TYPE_SIGN_TRANSACTION && Answers(p, old(Memory()), device) != 1
                                   then Broken else Host)
    {
      hide Valid, TurnOf, LastDisplayed, Answers, Rejected, FieldsRead, DataCount, Fits, Conversation, RequestTalk,
           OtherTalk, Requested, MemoryAfter, AskedFor, UsedByLoading, UsedBySigning, Refused;
      var p := ReceivePacket();
      var op := Requested(p.id);
      TalkIs(p, Memory(), world, device, packets, presses, otps, calls);
      ghost var start := log;
      if p.id == PACKET_TYPE_INITIALIZE {
        ReceiveInitialize(p);
        assert start + [] == start;
      } else if p.id == PACKET_TYPE_SIGN_TRANSACTION {
        ghost var said := Conversation(p.fields, 0, Memory(), world, device, packets, presses, calls);
        ghost var end := if Rejected(p, Memory(), device) then [Sent(PACKET_TYPE_FAILURE)] else [];
        var _, _ := ReceiveSignTransaction(p);
        assert start + said + end == start + (said + end);
      } else if op.Some? {
        ReceiveRequest(p, op.value);
      } else {
        ReceiveOther(p);
      }
    }

    ghost function Configured(): Config
      reads `prevTransactionHash, `prevTransactionHashValid, `packets, `presses, `otps, `calls, `halted
    {
      Config(Memory(), Used(), halted)
    }

    /**
     Any number of packets: everything in the log is justified, and it is what the outside world makes the device say,
     one packet after the other.
     */
    method Run(steps: nat)
      requires Valid()
      modifies this
      ensures Valid() && log == old(log) + RunTalk(steps, old(Configured()), world, device)
    {
      hide Valid, TalkFrom, Next, RunTalk, Talk, UsedBy, RememberedBy, Halts, Answers, TurnOf;
      var i := 0;
      ghost var said: seq<Event>, start := [], log;
      RunOver(said, steps, Configured(), world, device);
      while i < steps && !halted
        invariant i <= steps && Valid() && log == start + said
        invariant said + RunTalk(steps - i, Configured(), world, device)
                  == RunTalk(steps, old(Configured()), world, device)
      {
        ghost var c := Configured();
        RunStep(said, steps - i, c, world, device);
        NextIs(start, said, c, world, device);
        ProcessPacket();
        said := said + TalkFrom(c, world, device);
        i := i + 1;
      }
      RunOver(said, steps - i, Configured(), world, device);
    }
  }

  /** The device between two packets. */
  datatype Config = Config(memory: Option<seq<Byte>>, used: Usage, halted: bool)

  /** What the next packet makes the device say, and how it leaves the device. */
  function TalkFrom(c: Config, w: World, device: Device): seq<Event> {
    var p, u := w.packet(c.used.packets), c.used;
    [Received(p.id)] + Talk(p, c.memory, w, device, u.packets + 1, u.presses, u.otps, u.calls)
  }

  function Next(c: Config, w: World, device: Device): Config {
    var p, u := w.packet(c.used.packets), c.used.(packets := c.used.packets + 1);
    Config(RememberedBy(p, c.memory, w, device, u.packets, u.presses), UsedBy(p, c.memory, w, device, u), Halts(p))
  }

  function RunTalk(steps: nat, c: Config, w: World, device: Device): seq<Event> {
    if steps == 0 || c.halted then [] else TalkFrom(c, w, device) + RunTalk(steps - 1, Next(c, w, device), w, device)
  }

  lemma RunStep(said: seq<Event>, steps: nat, c: Config, w: World, device: Device)
    requires steps > 0 && !c.halted
    ensures said + RunTalk(steps, c, w, device)
            == said + TalkFrom(c, w, device) + RunTalk(steps - 1, Next(c, w, device), w, device)
  {
    hide TalkFrom, Next;
  }

  lemma RunOver(said: seq<Event>, steps: nat, c: Config, w: World, device: Device)
    ensures steps == 0 || c.halted ==> said + RunTalk(steps, c, w, device) == said
    ensures [] + RunTalk(steps, c, w, device) == RunTalk(steps, c, w, device)
  {
    hide TalkFrom, Next;
  }

  lemma NextIs(start: seq<Event>, said: seq<Event>, c: Config, w: World, device: Device)
    ensures var p, u := w.packet(c.used.packets), c.used.(packets := c.used.packets + 1);
            && start + said + [Received(p.id)] + Talk(p, c.memory, w, device, u.packets, u.presses, u.otps, u.calls)
               == start + (said + TalkFrom(c, w, device))
            && Next(c, w, device) == Config(RememberedBy(p, c.memory, w, device, u.packets, u.presses),
                                            UsedBy(p, c.memory, w, device, u), Halts(p))
  {
    hide Talk, RememberedBy, UsedBy, Halts;
  }

  /** fatalError() on a session id that is too long. */
  predicate Halts(p: Packet) {
    p.id == PACKET_TYPE_INITIALIZE && p.wellFormed && |p.sessionId| >= SESSION_ID_SIZE
  }

  /** The remembered hash after a packet: Initialize forgets it, SignTransaction may replace it. */
  function RememberedBy(p: Packet, was: Option<seq<Byte>>, w: World, device: Device, packets: nat, presses: nat)
    : Option<seq<Byte>>
  {
    if p.id == PACKET_TYPE_INITIALIZE then (if p.wellFormed && !Halts(p) then None else was)
    else if p.id == PACKET_TYPE_SIGN_TRANSACTION then MemoryAfter(p.fields, was, w, device, packets, presses)
    else was
  }

  // ----- what a packet makes the device say and do -----

  /** How a request that is not granted ends: at the button or at the one-time password. */
  function Refusal(op: Operation, w: World, packets: nat, presses: nat): seq<Event> {
    if !ButtonGranted(w.packet(packets), w.userDenied(presses)) then
      [Sent(PACKET_TYPE_BUTTON_REQUEST), Received(w.packet(packets).id), Sent(PACKET_TYPE_FAILURE)]
    else
      ButtonTalk(op) + [Sent(PACKET_TYPE_OTP_REQUEST), Received(w.packet(packets + 1).id), Sent(PACKET_TYPE_FAILURE)]
  }

  /** The host lets the user be asked. */
  predicate Acknowledged(p: Packet) {
    p.id == PACKET_TYPE_BUTTON_ACK && p.wellFormed
  }

  /** What a request uses up: a packet for each question, the press and the password, a wallet result if granted. */
  function AskedFor(op: Operation, w: World, c: Usage): Usage {
    var p := w.packet(c.packets);
    var c1 := if NeedsButton(op)
              then c.(packets := c.packets + 1, presses := c.presses + if Acknowledged(p) then 1 else 0) else c;
    if NeedsButton(op) && !ButtonGranted(p, w.userDenied(c.presses)) then c1
    else
      var c2 := if NeedsOtp(op) then c1.(packets := c1.packets + 1, otps := c1.otps + 1) else c1;
      if NeedsOtp(op) && !OtpGranted(w.packet(c1.packets), w.otp(c1.otps)) then c2 else c2.(calls := c2.calls + 1)
  }

  function UsedByLoading(w: World, c: Usage): Usage {
    if !w.wallet(c.calls).WalletNotThere? then c.(calls := c.calls + 1)
    else
      var p := w.packet(c.packets);
      c.(packets := c.packets + 1,
         calls := c.calls + if p.id == PACKET_TYPE_PIN_ACK && p.wellFormed then 2 else 1)
  }

  /** What a packet uses up after its header. */
  function UsedBy(p: Packet, was: Option<seq<Byte>>, w: World, device: Device, c: Usage): Usage {
    if p.id == PACKET_TYPE_INITIALIZE then
      if p.wellFormed && |p.sessionId| < SESSION_ID_SIZE then c.(calls := c.calls + 1) else c
    else if p.id == PACKET_TYPE_SIGN_TRANSACTION then UsedBySigning(p.fields, was, w, device, c)
    else if Requested(p.id).Some? then
      if !p.wellFormed || Refused(p) then c else AskedFor(Requested(p.id).value, w, c)
    else if p.wellFormed && p.id == PACKET_TYPE_LOAD_WALLET then UsedByLoading(w, c)
    else c
  }

  function Doing(op: Operation, w: World, calls: nat): seq<Event> {
    [Performed(op), Sent(if w.wallet(calls).WalletOk? then Answer(op) else PACKET_TYPE_FAILURE)]
  }

  function RequestTalk(p: Packet, op: Operation, w: World, packets: nat, presses: nat, otps: nat, calls: nat)
    : seq<Event>
  {
    if !p.wellFormed || Refused(p) then [Sent(PACKET_TYPE_FAILURE)]
    else if Granted(op, w, packets, presses, otps) then Consent(op) + Doing(op, w, calls)
    else Refusal(op, w, packets, presses)
  }

  lemma JoinedTalk(before: seq<Event>, op: Operation, w: World, calls: nat)
    ensures before + Consent(op) + Doing(op, w, calls) == before + (Consent(op) + Doing(op, w, calls))
  {
  }

  /** A load without a password, and one with the password that the host sends if there was nothing to load. */
  function Loading(w: World, packets: nat, calls: nat): seq<Event> {
    var p := w.packet(packets);
    [Performed(LoadWallet)]
    + if !w.wallet(calls).WalletNotThere? then
        [Sent(if w.wallet(calls).WalletOk? then PACKET_TYPE_SUCCESS else PACKET_TYPE_FAILURE)]
      else
        [Sent(PACKET_TYPE_PIN_REQUEST), Received(p.id)]
        + if p.id == PACKET_TYPE_PIN_ACK && p.wellFormed then
            [Performed(LoadWallet),
             Sent(if w.wallet(calls + 1).WalletOk? then PACKET_TYPE_SUCCESS else PACKET_TYPE_FAILURE)]
          else [Sent(PACKET_TYPE_FAILURE)]
  }

  function OtherTalk(p: Packet, w: World, packets: nat, calls: nat): seq<Event> {
    if p.wellFormed && p.id == PACKET_TYPE_LOAD_WALLET then Loading(w, packets, calls)
    else [Sent(if p.wellFormed && p.id == PACKET_TYPE_PING then PACKET_TYPE_PING_RESPONSE else PACKET_TYPE_FAILURE)]
  }

  /** Everything that follows the header of a packet; `packets` and so on count what was used up before. */
  function Talk(p: Packet, was: Option<seq<Byte>>, w: World, device: Device, packets: nat, presses: nat, otps: nat,
                calls: nat): seq<Event>
  {
    if p.id == PACKET_TYPE_INITIALIZE then
      if !p.wellFormed then [Sent(PACKET_TYPE_FAILURE)]
      else if |p.sessionId| >= SESSION_ID_SIZE then []
      else [Reset, Sent(if w.wallet(calls).WalletOk? then PACKET_TYPE_FEATURES else PACKET_TYPE_FAILURE)]
    else if p.id == PACKET_TYPE_SIGN_TRANSACTION then
      Conversation(p.fields, 0, was, w, device, packets, presses, calls)
      + if Rejected(p, was, device) then [Sent(PACKET_TYPE_FAILURE)] else []
    else if Requested(p.id).Some? then RequestTalk(p, Requested(p.id).value, w, packets, presses, otps, calls)
    else OtherTalk(p, w, packets, calls)
  }

  lemma TalkIs(p: Packet, was: Option<seq<Byte>>, w: World, device: Device, packets: nat, presses: nat, otps: nat,
               calls: nat)
    ensures p.id == PACKET_TYPE_SIGN_TRANSACTION ==>
              Talk(p, was, w, device, packets, presses, otps, calls)
              == Conversation(p.fields, 0, was, w, device, packets, presses, calls)
                 + if Rejected(p, was, device) then [Sent(PACKET_TYPE_FAILURE)] else []
  {
  }

  /** Requests that one button press allows, with the packet that answers them. */
  lemma ButtonRequests()
    ensures Requested(0x04) == Some(NewWallet) && Answer(NewWallet) == 0x34
    ensures Requested(0x05) == Some(NewAddress) && Answer(NewAddress) == 0x30
    ensures Requested(0x0F) == Some(ChangeName) && Answer(ChangeName) == 0x34
    ensures Requested(0x11) == Some(BackupWallet) && Answer(BackupWallet) == 0x34
    ensures Requested(0x12) == Some(RestoreWallet) && Answer(RestoreWallet) == 0x34
    ensures forall id :: id in {0x04, 0x05, 0x0F, 0x11, 0x12} ==>
              Consent(Requested(id).value) == [Sent(0x50), Received(0x51), Accepted(Requested(id).value)]
  {
  }

  /** Requests that also need the one-time password on the display. */
  lemma OtpRequests()
    ensures Requested(0x0D) == Some(Format) && Answer(Format) == 0x34
    ensures Requested(0x0E) == Some(ChangeKey) && Answer(ChangeKey) == 0x34
    ensures Requested(0x15) == Some(GetMasterKey) && Answer(GetMasterKey) == 0x38
    ensures Requested(0x16) == Some(DeleteWallet) && Answer(DeleteWallet) == 0x34
    ensures forall id :: id in {0x0D, 0x0E, 0x15, 0x16} ==>
              Consent(Requested(id).value)
              == [Sent(0x50), Received(0x51), Accepted(Requested(id).value),
                  Sent(0x56), Received(0x57), OtpMatched(Requested(id).value)]
  {
  }

  /** Requests that need nobody's consent, and the packet types that are no requests. */
  lemma OpenRequests(id: nat)
    ensures Answer(ReadOnly(0x06)) == 0x31 && Answer(ReadOnly(0x09)) == 0x30 && Answer(ReadOnly(0x10)) == 0x32
    ensures Answer(ReadOnly(0x13)) == 0x36 && Answer(ReadOnly(0x14)) == 0x37
    ensures id in {0x06, 0x09, 0x10, 0x13, 0x14} ==> Requested(id) == Some(ReadOnly(id)) && Consent(ReadOnly(id)) == []
    ensures Requested(id).None? <==>
              id !in {0x04, 0x05, 0x06, 0x09, 0x0D, 0x0E, 0x0F, 0x10, 0x11, 0x12, 0x13, 0x14, 0x15, 0x16}
  {
  }

  /** The packet types that are no requests: what Ping, Initialize and unknown packets are answered with. */
  lemma PlainAnswers(p: Packet, was: Option<seq<Byte>>, w: World, device: Device, packets: nat, presses: nat,
                     otps: nat, calls: nat)
    ensures var said := Talk(p, was, w, device, packets, presses, otps, calls);
            && (p.id == 0x00 ==> said == [Sent(if p.wellFormed then 0x33 else 0x35)])
            && (p.id == 0x0A ==> said == Conversation(p.fields, 0, was, w, device, packets, presses, calls)
                                         + if Rejected(p, was, device) then [Sent(0x35)] else [])
            && (p.id == 0x17 && !p.wellFormed ==> said == [Sent(0x35)])
            && (p.id == 0x17 && p.wellFormed && |p.sessionId| < 64 ==>
                  said == [Reset, Sent(if w.wallet(calls).WalletOk? then 0x3a else 0x35)])
            && (p.id == 0x17 && p.wellFormed && |p.sessionId| >= 64 ==> said == [])
            && (p.id !in {0x00, 0x0A, 0x0B, 0x17} && Requested(p.id).None? ==> said == [Sent(0x35)])
  {
    hide Conversation, Rejected, Loading, RequestTalk;
  }

  /** What counts as consent, and which requests are refused outright. */
  lemma ConsentMeans(p: Packet, denied: bool, otp: seq<Byte>)
    ensures ButtonGranted(p, denied) <==> p.id == 0x51 && p.wellFormed && !denied
    ensures OtpGranted(p, otp) <==>
              && p.id == 0x57 && p.wellFormed && |p.otp| >= 5 && |otp| >= 5
              && forall i :: 0 <= i < 5 ==> p.otp[i] == otp[i]
    ensures Refused(p) <==> (p.id == 0x12 && p.seedSize != 64) || (p.id == 0x14 && p.count > 1024)
  {
    if |p.otp| >= 5 && |otp| >= 5 && forall i :: 0 <= i < 5 ==> p.otp[i] == otp[i] {
      assert p.otp[..5] == otp[..5];
    }
    if OtpGranted(p, otp) {
      forall i | 0 <= i < 5
        ensures p.otp[i] == otp[i]
      {
        assert p.otp[..5][i] == otp[..5][i];
      }
    }
  }

  /** A well-formed LoadWallet loads, a second time if the first found nothing and the host sent a password. */
  lemma LoadsAndAnswers(p: Packet, was: Option<seq<Byte>>, w: World, device: Device, packets: nat, presses: nat,
                        otps: nat, calls: nat)
    requires p.id == 0x0B && p.wellFormed
    ensures var said := Talk(p, was, w, device, packets, presses, otps, calls);
            var again := w.wallet(calls).WalletNotThere?;
            var sent := w.packet(packets).id == 0x54 && w.packet(packets).wellFormed;
            var last := if again then w.wallet(calls + 1) else w.wallet(calls);
            && said[0] == Performed(LoadWallet)
            && (again ==> said[1] == Sent(0x53) && said[2] == Received(w.packet(packets).id))
            && (again && sent ==> |said| == 5 && said[3] == Performed(LoadWallet))
            && (!again ==> |said| == 2) && (again && !sent ==> |said| == 4)
            && said[|said| - 1] == Sent(if (again ==> sent) && last.WalletOk? then 0x34 else 0x35)
  {
  }

  /**
   Nothing is performed but what the packet requests, and a guarded request is performed exactly when the answers to
   come grant it; only SignTransaction can produce a signature.
   */
  lemma OnlyWhatIsRequested(p: Packet, was: Option<seq<Byte>>, w: World, device: Device, packets: nat, presses: nat,
                            otps: nat, calls: nat)
    requires p.id != PACKET_TYPE_SIGN_TRANSACTION
    ensures var said, op := Talk(p, was, w, device, packets, presses, otps, calls), Requested(p.id);
            && NothingBut(if op.Some? then op.value else LoadWallet, said)
            && (op.Some? ==>
                  (Performs(op.value, said)
                   <==> p.wellFormed && !Refused(p) && Granted(op.value, w, packets, presses, otps)))
  {
    hide Refused, ButtonGranted, OtpGranted, Answer;
    var said, op := Talk(p, was, w, device, packets, presses, otps, calls), Requested(p.id);
    if op.Some? && p.wellFormed && !Refused(p) && Granted(op.value, w, packets, presses, otps) {
      assert said[|said| - 2] == Performed(op.value);
    }
  }

  // ----- what a SignTransaction message does -----

  /**
   One transaction: it is refused, or shown, asked about unless it is the remembered one, and signed for a handle if it
   is approved.
   */
  function Handling(data: seq<Byte>, handle: nat, was: Option<seq<Byte>>, w: World, device: Device, packets: nat,
                    presses: nat, calls: nat): seq<Event>
  {
    var r := ParseStream(data, |data|, START, device);
    if r.Fail? then [Sent(PACKET_TYPE_FAILURE)]
    else
      var known := was == Some(TransactionHash(r.value, device));
      var approved := known || ButtonGranted(w.packet(packets), w.userDenied(presses));
      [Displayed(r.value)] + Asking(known, approved, w.packet(packets).id)
      + if approved then [Signing(w.wallet(calls), SignatureHash(r.value, device), handle)] else []
  }

  /** The fields of a message, up to the first transaction that the user is asked about. */
  function Conversation(fields: seq<SignField>, handle: nat, was: Option<seq<Byte>>, w: World, device: Device,
                        packets: nat, presses: nat, calls: nat): seq<Event>
  {
    if fields == [] then []
    else if fields[0].Handle? then
      Conversation(fields[1..], fields[0].handle, was, w, device, packets, presses, calls)
    else
      var data := fields[0].bytes;
      var next := if ParseStream(data, |data|, START, device).Ok? then calls + 1 else calls;
      Handling(data, handle, was, w, device, packets, presses, calls)
      + if Asks(data, was, device) then []
        else Conversation(fields[1..], handle, was, w, device, packets, presses, next)
  }

  /** What is remembered after the user was asked about a transaction: it, if the user accepted. */
  function LastRemembered(f: SignField, was: Option<seq<Byte>>, w: World, device: Device, packets: nat, presses: nat)
    : Option<seq<Byte>>
  {
    if f.Handle? then was
    else
      var r := ParseStream(f.bytes, |f.bytes|, START, device);
      if r.Ok? && ButtonGranted(w.packet(packets), w.userDenied(presses)) then Some(TransactionHash(r.value, device))
      else was
  }

  /** What is remembered after a message: a transaction that the user was asked about and accepted, or what was. */
  function MemoryAfter(fields: seq<SignField>, was: Option<seq<Byte>>, w: World, device: Device, packets: nat,
                       presses: nat): Option<seq<Byte>>
  {
    var read := FieldsRead(fields, was, device);
    if Interrupted(read, was, device) then LastRemembered(read[|read| - 1], was, w, device, packets, presses) else was
  }

  lemma ConversationStep(fields: seq<SignField>, i: nat, log: seq<Event>, handle: nat, was: Option<seq<Byte>>,
                         w: World, device: Device, packets: nat, presses: nat, calls: nat)
    requires i < |fields|
    ensures fields[i].Handle? ==>
              Conversation(fields[i..], handle, was, w, device, packets, presses, calls)
              == Conversation(fields[i + 1..], fields[i].handle, was, w, device, packets, presses, calls)
    ensures fields[i].Data? ==>
              var data := fields[i].bytes;
              var next := if ParseStream(data, |data|, START, device).Ok? then calls + 1 else calls;
              var first := Handling(data, handle, was, w, device, packets, presses, calls);
              log + Conversation(fields[i..], handle, was, w, device, packets, presses, calls)
              == log + first + if Asks(data, was, device) then []
                               else Conversation(fields[i + 1..], handle, was, w, device, packets, presses, next)
  {
    hide Handling, Asks, ParseStream;
    assert fields[i..][1..] == fields[i + 1..];
  }

  /** What a question about a transaction uses up: a packet, a press if acknowledged, a key if approved. */
  function AskedToSign(w: World, c: Usage): Usage {
    var p, granted := w.packet(c.packets), ButtonGranted(w.packet(c.packets), w.userDenied(c.presses));
    c.(packets := c.packets + 1, presses := c.presses + if Acknowledged(p) then 1 else 0,
       calls := c.calls + if granted then 1 else 0)
  }

  /** What a SignTransaction message uses up: a key for each known transaction, until the user is asked. */
  function UsedBySigning(fields: seq<SignField>, was: Option<seq<Byte>>, w: World, device: Device, c: Usage): Usage {
    if fields == [] then c
    else if fields[0].Handle? then UsedBySigning(fields[1..], was, w, device, c)
    else if Asks(fields[0].bytes, was, device) then AskedToSign(w, c)
    else
      var known := ParseStream(fields[0].bytes, |fields[0].bytes|, START, device).Ok?;
      UsedBySigning(fields[1..], was, w, device, if known then c.(calls := c.calls + 1) else c)
  }

  lemma UsedStep(fields: seq<SignField>, i: nat, was: Option<seq<Byte>>, w: World, device: Device, c: Usage)
    requires i < |fields|
    ensures fields[i].Handle? ==>
              UsedBySigning(fields[i..], was, w, device, c) == UsedBySigning(fields[i + 1..], was, w, device, c)
    ensures fields[i].Data? ==>
              var data := fields[i].bytes; var known := ParseStream(data, |data|, START, device).Ok?;
              UsedBySigning(fields[i..], was, w, device, c)
              == if Asks(data, was, device) then AskedToSign(w, c)
                 else UsedBySigning(fields[i + 1..], was, w, device, if known then c.(calls := c.calls + 1) else c)
    ensures UsedBySigning(fields[|fields|..], was, w, device, c) == c
  {
    hide Asks, ParseStream, AskedToSign;
    assert fields[i..][1..] == fields[i + 1..];
  }

  lemma NothingUsed(fields: seq<SignField>, was: Option<seq<Byte>>, w: World, device: Device, c: Usage)
    ensures UsedBySigning(fields[|fields|..], was, w, device, c) == c
  {
  }

  lemma ConversationOver(fields: seq<SignField>, log: seq<Event>, handle: nat, was: Option<seq<Byte>>,
                         w: World, device: Device, packets: nat, presses: nat, calls: nat)
    ensures log + Conversation(fields[|fields|..], handle, was, w, device, packets, presses, calls) == log
  {
  }

  /** The streams that are put on the display, in order. */
  function Shows(log: seq<Event>): seq<Stream> {
    if log == [] then []
    else (if log[0].Displayed? then [log[0].stream] else []) + Shows(log[1..])
  }

  /** The streams that the transactions among some fields are, in order. */
  function Parses(fields: seq<SignField>, device: Device): seq<Stream> {
    if fields == [] then []
    else
      var others := Parses(fields[1..], device);
      if fields[0].Handle? then others
      else
        var r := ParseStream(fields[0].bytes, |fields[0].bytes|, START, device);
        if r.Ok? then [r.value] + others else others
  }

  /** The handle in force at a field: that of the last handle before it. */
  function HandleAt(fields: seq<SignField>, i: nat, handle: nat): nat
    requires i <= |fields|
  {
    if i == 0 then handle else if fields[i - 1].Handle? then fields[i - 1].handle else HandleAt(fields, i - 1, handle)
  }

  lemma {:induction false} ShowsBoth(a: seq<Event>, b: seq<Event>)
    ensures Shows(a + b) == Shows(a) + Shows(b)
  {
    hide Shows;
    if a == [] {
      ShowsFirst([]);
      assert a + b == b && [] + Shows(b) == Shows(b);
    } else {
      ShowsBoth(a[1..], b);
      ShowsFirst(a);
      ShowsFirst(a + b);
      assert (a + b)[1..] == a[1..] + b;
    }
  }

  lemma ShowsFirst(log: seq<Event>)
    ensures Shows(log) == if log == [] then []
                          else if log[0].Displayed? then [log[0].stream] + Shows(log[1..]) else Shows(log[1..])
  {
  }

  /** Handling a transaction shows that transaction. */
  lemma HandlingShows(data: seq<Byte>, handle: nat, was: Option<seq<Byte>>, w: World, device: Device, packets: nat,
                      presses: nat, calls: nat)
    ensures var r := ParseStream(data, |data|, START, device);
            Shows(Handling(data, handle, was, w, device, packets, presses, calls)) == if r.Ok? then [r.value] else []
  {
    hide ParseStream, TransactionHash, SignatureHash;
    var all := Handling(data, handle, was, w, device, packets, presses, calls);
    ShowsNone(all, 1);
  }

  lemma {:induction false} ShowsNone(log: seq<Event>, n: nat)
    requires n <= |log| && forall k :: n <= k < |log| ==> !log[k].Displayed?
    ensures Shows(log[n..]) == []
    decreases |log| - n
  {
    if n < |log| {
      ShowsNone(log, n + 1);
      assert log[n..][1..] == log[n + 1..];
    }
  }

  /** What goes on the display are the transactions of the fields that are read, in order. */
  lemma {:induction false} ConversationShows(fields: seq<SignField>, handle: nat, was: Option<seq<Byte>>, w: World,
                                             device: Device, packets: nat, presses: nat, calls: nat)
    ensures Shows(Conversation(fields, handle, was, w, device, packets, presses, calls))
            == Parses(FieldsRead(fields, was, device), device)
    decreases |fields|
  {
    hide ParseStream, Handling, Asks, Shows, Parses;
    if fields == [] {
      NothingShown(device);
    } else {
      var rest := FieldsRead(fields[1..], was, device);
      if fields[0].Handle? {
        ConversationShows(fields[1..], fields[0].handle, was, w, device, packets, presses, calls);
        ParsesCons(fields[0], rest, device);
      } else {
        var data := fields[0].bytes;
        var next := if ParseStream(data, |data|, START, device).Ok? then calls + 1 else calls;
        var first := Handling(data, handle, was, w, device, packets, presses, calls);
        HandlingShows(data, handle, was, w, device, packets, presses, calls);
        if Asks(data, was, device) {
          assert first + [] == first && [fields[0]] + [] == [fields[0]];
          NothingShown(device);
          ParsesCons(fields[0], [], device);
        } else {
          ConversationShows(fields[1..], handle, was, w, device, packets, presses, next);
          ShowsBoth(first, Conversation(fields[1..], handle, was, w, device, packets, presses, next));
          ParsesCons(fields[0], rest, device);
        }
      }
    }
  }

  lemma NothingShown(device: Device)
    ensures Shows([]) == [] && Parses([], device) == []
  {
  }

  lemma ParsesCons(f: SignField, rest: seq<SignField>, device: Device)
    ensures Parses([f] + rest, device)
            == (if f.Data? && ParseStream(f.bytes, |f.bytes|, START, device).Ok?
                then [ParseStream(f.bytes, |f.bytes|, START, device).value] else []) + Parses(rest, device)
  {
    hide ParseStream;
    assert ([f] + rest)[1..] == rest;
  }

  /**
   Every signature is for the transaction of one of the fields that are read, which is the one on the display at that
   moment, with the key of the last handle before that field.
   */
  lemma {:induction false} ConversationSigns(fields: seq<SignField>, handle: nat, was: Option<seq<Byte>>, w: World,
                                             device: Device, packets: nat, presses: nat, calls: nat, k: nat)
    returns (i: nat)
    requires k < |Conversation(fields, handle, was, w, device, packets, presses, calls)|
    requires Conversation(fields, handle, was, w, device, packets, presses, calls)[k].Signature?
    ensures var all := Conversation(fields, handle, was, w, device, packets, presses, calls);
            && i < |FieldsRead(fields, was, device)| <= |fields| && fields[i].Data?
            && var r := ParseStream(fields[i].bytes, |fields[i].bytes|, START, device);
               && r.Ok? && all[k] == Signature(SignatureHash(r.value, device), HandleAt(fields, i, handle))
               && LastDisplayed(all[..k]) == Some(r.value)
    decreases |fields|
  {
    hide ParseStream, Handling, Asks, LastDisplayed, SignatureHash;
    var all := Conversation(fields, handle, was, w, device, packets, presses, calls);
    ReadPrefix(fields, was, device);
    if fields[0].Handle? {
      var j := ConversationSigns(fields[1..], fields[0].handle, was, w, device, packets, presses, calls, k);
      HandleLater(fields, j, handle);
      i := j + 1;
    } else {
      var data := fields[0].bytes;
      var next := if ParseStream(data, |data|, START, device).Ok? then calls + 1 else calls;
      var first := Handling(data, handle, was, w, device, packets, presses, calls);
      if k < |first| {
        i := 0;
        HandlingSigns(data, handle, was, w, device, packets, presses, calls, k);
        assert all[..k] == first[..k];
      } else {
        var later := Conversation(fields[1..], handle, was, w, device, packets, presses, next);
        var j := ConversationSigns(fields[1..], handle, was, w, device, packets, presses, next, k - |first|);
        HandleLater(fields, j, handle);
        assert all[..k] == first + later[..k - |first|];
        LastDisplayedBoth(first, later[..k - |first|]);
        i := j + 1;
      }
    }
  }

  lemma {:induction false} ReadPrefix(fields: seq<SignField>, was: Option<seq<Byte>>, device: Device)
    ensures |FieldsRead(fields, was, device)| <= |fields|
    ensures fields != [] ==>
              FieldsRead(fields, was, device)
              == [fields[0]] + if AsksField(fields[0], was, device) then [] else FieldsRead(fields[1..], was, device)
  {
    hide AsksField;
    if fields != [] {
      ReadPrefix(fields[1..], was, device);
    }
  }

  lemma {:induction false} HandleLater(fields: seq<SignField>, j: nat, handle: nat)
    requires j < |fields| - 1
    ensures HandleAt(fields, j + 1, handle)
            == HandleAt(fields[1..], j, if fields[0].Handle? then fields[0].handle else handle)
  {
    if j > 0 {
      HandleLater(fields, j - 1, handle);
      assert fields[1..][j - 1] == fields[j];
    }
  }

  lemma HandlingSigns(data: seq<Byte>, handle: nat, was: Option<seq<Byte>>, w: World, device: Device, packets: nat,
                      presses: nat, calls: nat, k: nat)
    requires k < |Handling(data, handle, was, w, device, packets, presses, calls)|
    requires Handling(data, handle, was, w, device, packets, presses, calls)[k].Signature?
    ensures var all := Handling(data, handle, was, w, device, packets, presses, calls);
            var r := ParseStream(data, |data|, START, device);
            && r.Ok? && all[k] == Signature(SignatureHash(r.value, device), handle)
            && LastDisplayed(all[..k]) == Some(r.value)
  {
    hide ParseStream, TransactionHash, SignatureHash, LastDisplayed;
    var all := Handling(data, handle, was, w, device, packets, presses, calls);
    assert all[0].Displayed? && forall m :: 1 <= m < k ==> !all[m].Displayed?;
    LastIsFirst(all, k);
  }

  lemma {:induction false} LastIsFirst(log: seq<Event>, k: nat)
    requires 1 <= k <= |log| && log[0].Displayed? && forall m :: 1 <= m < k ==> !log[m].Displayed?
    ensures LastDisplayed(log[..k]) == Some(log[0].stream)
  {
    if k > 1 {
      LastIsFirst(log, k - 1);
      assert log[..k][..k - 1] == log[..k - 1];
    }
  }

  lemma {:induction false} LastDisplayedBoth(a: seq<Event>, b: seq<Event>)
    ensures LastDisplayed(b).Some? ==> LastDisplayed(a + b) == LastDisplayed(b)
  {
    if b != [] {
      var c := b[..|b| - 1];
      LastDisplayedBoth(a, c);
      assert (a + b)[..|a + b| - 1] == a + c;
    }
  }

  /** A handle, then a transaction that is accepted and approved: it is shown, asked about and signed with that key. */
  lemma HandleThenDataSigns(h: nat, data: seq<Byte>, was: Option<seq<Byte>>, w: World, device: Device, packets: nat,
                            presses: nat, calls: nat)
    requires Asks(data, was, device) && ButtonGranted(w.packet(packets), w.userDenied(presses))
    requires w.wallet(calls).WalletOk?
    ensures var st := ParseStream(data, |data|, START, device).value;
            Conversation([Handle(h), Data(data)], 0, was, w, device, packets, presses, calls)
            == [Displayed(st), Sent(0x50), Received(0x51), Accepted(SignTransaction),
                Signature(SignatureHash(st, device), h)]
  {
    hide ParseStream, TransactionHash, SignatureHash;
    var fields := [Handle(h), Data(data)];
    assert fields[1..] == [Data(data)] && fields[1..][1..] == [];
  }

  // ----- how often a SignTransaction message is answered -----

  /** The user is asked about a transaction that is accepted and is not the remembered one. */
  predicate Asks(data: seq<Byte>, was: Option<seq<Byte>>, device: Device) {
    var r := ParseStream(data, |data|, START, device);
    r.Ok? && was != Some(TransactionHash(r.value, device))
  }

  /** A transaction that nobody is asked about is refused or is the remembered one. */
  lemma Remembered(data: seq<Byte>, was: Option<seq<Byte>>, device: Device)
    ensures var r := ParseStream(data, |data|, START, device);
            !Asks(data, was, device) && r.Ok? ==> was == Some(TransactionHash(r.value, device))
  {
    hide ParseStream, TransactionHash;
  }

  predicate AsksField(f: SignField, was: Option<seq<Byte>>, device: Device) {
    f.Data? && Asks(f.bytes, was, device)
  }

  /** The fields up to and including the first transaction that the user is asked about. */
  function FieldsRead(fields: seq<SignField>, was: Option<seq<Byte>>, device: Device): seq<SignField> {
    if fields == [] then []
    else if AsksField(fields[0], was, device) then [fields[0]]
    else [fields[0]] + FieldsRead(fields[1..], was, device)
  }

  function DataCount(fields: seq<SignField>): nat {
    if fields == [] then 0 else DataCount(fields[..|fields| - 1]) + if fields[|fields| - 1].Data? then 1 else 0
  }

  predicate HasHandle(fields: seq<SignField>) {
    exists i :: 0 <= i < |fields| && fields[i].Handle?
  }

  /** Reading was cut short by a question to the user. */
  predicate Interrupted(read: seq<SignField>, was: Option<seq<Byte>>, device: Device) {
    read != [] && AsksField(read[|read| - 1], was, device)
  }

  /** After its transactions a message is refused: a field is missing, or what was left of it cannot be decoded. */
  predicate Rejected(p: Packet, was: Option<seq<Byte>>, device: Device) {
    var read := FieldsRead(p.fields, was, device);
    !HasHandle(read) || DataCount(read) == 0 || (!p.wellFormed && !Interrupted(read, was, device))
  }

  /** How many answers a SignTransaction message gets, given the remembered hash. */
  function Answers(p: Packet, was: Option<seq<Byte>>, device: Device): nat {
    DataCount(FieldsRead(p.fields, was, device)) + if Rejected(p, was, device) then 1 else 0
  }

  /** The first i fields ask nobody, except that the last of them does if reading stops there. */
  ghost predicate StopsAfter(fields: seq<SignField>, i: nat, stopped: bool, was: Option<seq<Byte>>, device: Device) {
    && i <= |fields| && (stopped ==> i > 0 && AsksField(fields[i - 1], was, device))
    && forall j :: 0 <= j < (if stopped then i - 1 else i) ==> !AsksField(fields[j], was, device)
  }

  lemma NothingRead(fields: seq<SignField>, was: Option<seq<Byte>>, device: Device)
    ensures StopsAfter(fields, 0, false, was, device)
    ensures fields[..0] == [] && DataCount([]) == 0 && !HasHandle([])
  {
  }

  lemma ReadOne(fields: seq<SignField>, i: nat, was: Option<seq<Byte>>, device: Device)
    requires i < |fields| && StopsAfter(fields, i, false, was, device)
    ensures StopsAfter(fields, i + 1, AsksField(fields[i], was, device), was, device)
    ensures DataCount(fields[..i + 1]) == DataCount(fields[..i]) + if fields[i].Data? then 1 else 0
    ensures HasHandle(fields[..i + 1]) <==> HasHandle(fields[..i]) || fields[i].Handle?
  {
    hide AsksField;
    var s, t := fields[..i], fields[..i + 1];
    assert t == s + [fields[i]] && t[..i] == s;
    if HasHandle(s) {
      var k :| 0 <= k < |s| && s[k].Handle?;
      assert t[k].Handle?;
    }
    assert t[i] == fields[i];
  }

  /** Where reading stops is where the loop stops. */
  lemma {:induction false} StopIsUnique(fields: seq<SignField>, i: nat, stopped: bool, was: Option<seq<Byte>>,
      device: Device)
    requires StopsAfter(fields, i, stopped, was, device) && (stopped || i == |fields|)
    ensures FieldsRead(fields, was, device) == fields[..i]
  {
    hide AsksField;
    if fields != [] && i > 1 {
      forall j | 0 <= j < (if stopped then i - 2 else i - 1)
        ensures !AsksField(fields[1..][j], was, device)
      {
        assert fields[1..][j] == fields[j + 1];
      }
      StopIsUnique(fields[1..], i - 1, stopped, was, device);
      assert fields[..i] == [fields[0]] + fields[1..][..i - 1];
    } else if fields != [] {
      assert fields[..1] == [fields[0]];
    }
  }

  lemma AllRead(fields: seq<SignField>, i: nat, stopped: bool, was: Option<seq<Byte>>, device: Device)
    requires StopsAfter(fields, i, stopped, was, device) && (stopped || i == |fields|)
    ensures FieldsRead(fields, was, device) == fields[..i] && (Interrupted(fields[..i], was, device) <==> stopped)
  {
    hide AsksField, FieldsRead;
    StopIsUnique(fields, i, stopped, was, device);
  }

  /**
   A message is answered once iff it brings no transaction, or brings one transaction with a handle before it or after
   it and is well-formed as far as it is read. It is never left without an answer.
   */
  lemma AnsweredOnceIff(p: Packet, was: Option<seq<Byte>>, device: Device)
    ensures Answers(p, was, device) >= 1
    ensures var read := FieldsRead(p.fields, was, device);
            Answers(p, was, device) == 1
            <==> DataCount(read) == 0
                 || (DataCount(read) == 1 && HasHandle(read) && (p.wellFormed || Interrupted(read, was, device)))
  {
  }

  lemma ParseNothing(device: Device)
    ensures ParseStream([], 0, START, device).Fail?
  {
  }

  /** A message with an empty transaction and nothing else is answered twice: it cannot be parsed, and has no handle. */
  lemma AnsweredTwice(p: Packet, was: Option<seq<Byte>>, device: Device)
    requires p.fields == [Data([])]
    ensures Answers(p, was, device) == 2
  {
    ParseNothing(device);
    hide ParseStream, TransactionHash;
    assert p.fields[1..] == [] && p.fields[..0] == [];
    assert !AsksField(p.fields[0], was, device);
    assert FieldsRead(p.fields[1..], was, device) == [] && DataCount(p.fields[..0]) == 0;
    assert FieldsRead(p.fields, was, device) == p.fields;
  }

  /** Once a transaction is approved, nobody is asked about it again whatever scripts its inputs have. */
  lemma OtherInputsNotAsked(data: seq<Byte>, inputs: seq<Input>, device: Device)
    requires ParseStream(data, |data|, START, device).Ok?
    requires var st := ParseStream(data, |data|, START, device).value;
             && ValidInputs(inputs) && SameOutpoints(st.spend.inputs, inputs)
             && |PrintAll(st.refs) + Print(st.spend.(inputs := inputs))| <= MAX_TRANSACTION_SIZE
    ensures var st := ParseStream(data, |data|, START, device).value;
            var other := PrintAll(st.refs) + Print(st.spend.(inputs := inputs));
            && ParseStream(other, |other|, START, device) == Ok(st.(spend := st.spend.(inputs := inputs)), [])
            && !Asks(other, Some(TransactionHash(st, device)), device)
  {
    hide ParseStream, PrintAll, Print, ValidInputs, SameOutpoints, StandardStream, Acceptable, Balanced,
        TransactionTranscript;
    var st := ParseStream(data, |data|, START, device).value;
    StreamSound(data, |data|, START, device);
    var other := PrintAll(st.refs) + Print(st.spend.(inputs := inputs));
    Rescripted(st, inputs, |data|, |other|, device);
  }

  /** The order of fields that the host is documented to use is answered once, whatever the transaction. */
  lemma HandleThenData(p: Packet, was: Option<seq<Byte>>, device: Device)
    requires p.wellFormed && |p.fields| == 2 && p.fields[0].Handle? && p.fields[1].Data?
    ensures Answers(p, was, device) == 1
  {
    hide Asks;
    var h, d := p.fields[0], p.fields[1];
    assert FieldsRead(p.fields[1..], was, device) == [d];
    assert FieldsRead(p.fields, was, device) == [h, d];
    assert [h, d][..1] == [h] && [h][..0] == [];
    assert DataCount([h]) == 0;
    assert [h, d][0].Handle?;
  }

  ghost predicate Performs(op: Operation, said: seq<Event>) {
    exists k :: 0 <= k < |said| && said[k] == Performed(op)
  }

  lemma RequestedIsNotSign(id: nat)
    ensures Requested(id) != Some(SignTransaction)
  {
  }

  /** No operation but this one, and no signature. */
  ghost predicate NothingBut(op: Operation, said: seq<Event>) {
    forall k :: 0 <= k < |said| ==> !said[k].Signature? && (said[k].Performed? ==> said[k] == Performed(op))
  }

  ghost predicate Extends(before: seq<Event>, after: seq<Event>) {
    |before| <= |after| && after[..|before|] == before
  }

  /** The conversation about a transaction: none if it is known, else a button request and how it went. */
  function Asking(known: bool, approved: bool, id: nat): seq<Event> {
    if known then []
    else if approved then ButtonTalk(SignTransaction)
    else [Sent(PACKET_TYPE_BUTTON_REQUEST), Received(id), Sent(PACKET_TYPE_FAILURE)]
  }

  function Signing(r: WalletResult, digest: seq<Byte>, handle: nat): Event {
    if r.WalletOk? then Signature(digest, handle) else Sent(PACKET_TYPE_FAILURE)
  }

  /** A granted button request approves what is on the display. */
  lemma ApprovedByButton(log: seq<Event>, device: Device)
    requires LastDisplayed(log).Some?
    ensures Approved(log + ButtonTalk(SignTransaction), TransactionHash(LastDisplayed(log).value, device), device)
  {
    hide LastDisplayed, TransactionHash, Approved;
    var a, b := Sent(PACKET_TYPE_BUTTON_REQUEST), Received(PACKET_TYPE_BUTTON_ACK);
    LastDisplayedAppend(log, a);
    LastDisplayedAppend(log + [a], b);
    ApprovedNow(log + [a] + [b], device);
    assert log + [a] + [b] + [Accepted(SignTransaction)] == log + ButtonTalk(SignTransaction);
  }

  function ButtonTalk(op: Operation): seq<Event> {
    [Sent(PACKET_TYPE_BUTTON_REQUEST), Received(PACKET_TYPE_BUTTON_ACK), Accepted(op)]
  }

  function OtpTalk(op: Operation): seq<Event> {
    [Sent(PACKET_TYPE_OTP_REQUEST), Received(PACKET_TYPE_OTP_ACK), OtpMatched(op)]
  }

  /** Whether the packets and presses to come grant an operation. */
  predicate Granted(op: Operation, w: World, packets: nat, presses: nat, otps: nat) {
    && (NeedsButton(op) ==> ButtonGranted(w.packet(packets), w.userDenied(presses)))
    && (NeedsOtp(op) ==> OtpGranted(w.packet(packets + 1), w.otp(otps)))
  }

  lemma ConsentGiven(before: seq<Event>, op: Operation)
    ensures EndsWith(before + Consent(op), Consent(op))
    ensures Consent(op) == (if NeedsButton(op) then ButtonTalk(op) else []) + (if NeedsOtp(op) then OtpTalk(op) else [])
  {
  }

  lemma ShownIsSound(data: seq<Byte>, device: Device)
    requires ParseStream(data, |data|, START, device).Ok?
    ensures Sound(ParseStream(data, |data|, START, device).value, device)
  {
    StreamSound(data, |data|, START, device);
  }

  // ----- what every run keeps -----

  lemma GoodPrefix(log: seq<Event>, n: nat, device: Device)
    requires Good(log, device) && n <= |log|
    ensures Good(log[..n], device)
  {
    hide Justified;
    forall i | 0 <= i < n
      ensures Justified(log[..n][..i], log[..n][i], device)
    {
      assert log[..n][..i] == log[..i];
    }
  }

  /** What is on the display was accepted by the parser. */
  lemma {:induction false} DisplayedIsSound(log: seq<Event>, device: Device)
    requires Good(log, device) && LastDisplayed(log).Some?
    ensures Sound(LastDisplayed(log).value, device)
  {
    hide Sound;
    var last := |log| - 1;
    if log[last].Displayed? {
      assert Justified(log[..last], log[last], device);
    } else {
      GoodPrefix(log, last, device);
      DisplayedIsSound(log[..last], device);
    }
  }

  /** The two streams spend the same outpoints and show the same outputs and fee, or name a SHA-256 collision. */
  ghost predicate SameToTheUser(a: Stream, b: Stream, device: Device)
    requires StandardStream(a) && StandardStream(b)
  {
    || Collision(device, TransactionTranscript(a.spend), TransactionTranscript(b.spend))
    || (&& SameOutpoints(a.spend.inputs, b.spend.inputs) && a.spend.outputs == b.spend.outputs
        && a.ledger.shown == b.ledger.shown
        && (a.ledger.fee == b.ledger.fee || Collides(a, b, device)))
  }

  lemma SameHashSameDisplay(a: Stream, b: Stream, device: Device)
    requires Sound(a, device) && Sound(b, device) && DigestWidth(device)
    requires TransactionHash(a, device) == TransactionHash(b, device)
    ensures SameToTheUser(a, b, device)
  {
    hide TransactionTranscript, Standard, AllReferences, Acceptable, Balanced, Collides, SameOutpoints;
    if TransactionTranscript(a.spend) == TransactionTranscript(b.spend) {
      var m: nat :| Acceptable(a, m, START, device);
      var n: nat :| Acceptable(b, n, START, device);
      TranscriptUnique(a.spend, b.spend);
      SameTranscriptSameFee(a, b, m, n, device);
    }
  }

  /**
   Every signature in every run is for a transaction that looks to the user like one that was on the display when
   the user accepted it, and no Initialize came in between.
   */
  lemma SignedAsShown(log: seq<Event>, i: nat, device: Device) returns (j: nat, seen: Stream, signed: Stream)
    requires Good(log, device) && DigestWidth(device) && i < |log| && log[i].Signature?
    ensures j < i && log[j] == Accepted(SignTransaction) && LastDisplayed(log[..j]) == Some(seen)
    ensures forall k :: j < k < i ==> log[k] != Reset
    ensures LastDisplayed(log[..i]) == Some(signed) && log[i].digest == SignatureHash(signed, device)
    ensures StandardStream(seen) && StandardStream(signed) && SameToTheUser(seen, signed, device)
  {
    hide LastDisplayed, SameToTheUser, TransactionHash, SignatureHash, StandardStream;
    var before := log[..i];
    assert Justified(before, log[i], device);
    signed := LastDisplayed(before).value;
    j :| ApprovedAt(before, j, TransactionHash(signed, device), device);
    assert before[..j] == log[..j];
    seen := LastDisplayed(log[..j]).value;
    GoodPrefix(log, i, device);
    GoodPrefix(log, j, device);
    hide Good, Justified;
    DisplayedIsSound(before, device);
    DisplayedIsSound(log[..j], device);
    SameHashSameDisplay(seen, signed, device);
    forall k | j < k < i
      ensures log[k] != Reset
    {
      assert before[k] == log[k];
    }
  }

  function GuardedCount(log: seq<Event>): nat {
    if log == [] then 0
    else
      var e := log[|log| - 1];
      GuardedCount(log[..|log| - 1]) + if e.Performed? && NeedsButton(e.operation) then 1 else 0
  }

  function PressCount(log: seq<Event>): nat {
    if log == [] then 0
    else
      var e := log[|log| - 1];
      PressCount(log[..|log| - 1]) + if e.Accepted? && e.operation != SignTransaction then 1 else 0
  }

  lemma {:induction false} Counts(a: seq<Event>, b: seq<Event>)
    ensures GuardedCount(a + b) == GuardedCount(a) + GuardedCount(b)
    ensures PressCount(a + b) == PressCount(a) + PressCount(b)
  {
    if b == [] {
      assert a + b == a;
    } else {
      var c := b[..|b| - 1];
      Counts(a, c);
      assert (a + b)[..|a + b| - 1] == a + c;
    }
  }

  lemma CountThree(x: Event, y: Event, z: Event)
    requires !x.Performed? && !y.Performed? && !z.Performed? && !x.Accepted? && !y.Accepted?
    ensures GuardedCount([x, y, z]) == 0
    ensures PressCount([x, y, z]) == if z.Accepted? && z.operation != SignTransaction then 1 else 0
  {
    var a, b, c := [x], [x, y], [x, y, z];
    assert a[..0] == [] && b[..1] == a && c[..2] == b;
    assert GuardedCount(a) == 0 && PressCount(a) == 0;
    assert GuardedCount(b) == 0 && PressCount(b) == 0;
  }

  lemma ConsentCounts(op: Operation)
    requires op != SignTransaction && NeedsButton(op)
    ensures GuardedCount(Consent(op)) == 0 && PressCount(Consent(op)) == 1
  {
    hide GuardedCount, PressCount, NeedsOtp;
    CountThree(Sent(PACKET_TYPE_BUTTON_REQUEST), Received(PACKET_TYPE_BUTTON_ACK), Accepted(op));
    CountThree(Sent(PACKET_TYPE_OTP_REQUEST), Received(PACKET_TYPE_OTP_ACK), OtpMatched(op));
    Counts(ButtonTalk(op), OtpTalk(op));
    if !NeedsOtp(op) {
      assert Consent(op) == ButtonTalk(op);
    }
  }

  /** One press of the button allows one operation at most. */
  lemma {:induction false} OnePressOneOperation(log: seq<Event>, device: Device)
    requires Good(log, device)
    ensures GuardedCount(log) <= PressCount(log)
    decreases |log|
  {
    hide Consent, Approved, LastDisplayed, Sound;
    if log != [] {
      var before, e := log[..|log| - 1], log[|log| - 1];
      GoodPrefix(log, |before|, device);
      if e.Performed? && NeedsButton(e.operation) {
        assert Justified(before, e, device);
        var c := Consent(e.operation);
        var n := |before| - |c|;
        assert before == before[..n] + c;
        GoodPrefix(before, n, device);
        OnePressOneOperation(before[..n], device);
        Counts(before[..n], c);
        ConsentCounts(e.operation);
      } else {
        OnePressOneOperation(before, device);
      }
    }
  }
}
