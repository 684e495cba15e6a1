/**
 The interrupt-driven serial port of avr/usart.c. The main program and the two interrupt routines take turns in any
 order; a stretch of main program code between cli() and sei() is one step, and so is a whole interrupt routine. Outside
 such stretches every read of a shared variable is a step of its own.
 */
module Usart {
  import opened Bytes

  const TX_BUFFER_SIZE: nat := 32
  const RX_BUFFER_SIZE: nat := 128

  // ----- ring buffers as queues -----

  /** What lies between the start and the end index, in order; equal indices mean empty or full. */
  function Queued(buffer: seq<Byte>, start: nat, end: nat, full: bool): seq<Byte>
    requires start < |buffer| && end < |buffer|
  {
    if start < end then buffer[start..end]
    else if start == end && !full then []
    else buffer[start..] + buffer[..end]
  }

  lemma QueuedPut(buffer: seq<Byte>, start: nat, end: nat, b: Byte)
    requires start < |buffer| && end < |buffer|
    ensures var next := (end + 1) % |buffer|;
            Queued(buffer[end := b], start, next, start == next) == Queued(buffer, start, end, false) + [b]
  {
    var now: seq<Byte> := buffer[end := b];
    if end + 1 == |buffer| {
      SmallEnd(end, |buffer|);
      if start < end {
        assert now[start..] + now[..0] == buffer[start..end] + [b];
      } else {
        assert now[start..] + now[..0] == [b];
      }
    } else {
      SmallEnd(end, |buffer|);
      if start <= end {
        assert now[start..end + 1] == buffer[start..end] + [b];
        assert start == end ==> buffer[start..end] == [];
      } else {
        assert now[..end + 1] == buffer[..end] + [b] && now[start..] == buffer[start..];
        assert buffer[start..] + (buffer[..end] + [b]) == buffer[start..] + buffer[..end] + [b];
      }
    }
  }

  lemma SmallEnd(end: nat, size: nat)
    requires end < size
    ensures (end + 1) % size == if end + 1 == size then 0 else end + 1
  {
  }

  lemma QueuedTake(buffer: seq<Byte>, start: nat, end: nat, full: bool)
    requires start < |buffer| && end < |buffer| && (start != end || full)
    ensures Queued(buffer, start, end, full) == [buffer[start]] + Queued(buffer, (start + 1) % |buffer|, end, false)
  {
    SmallEnd(start, |buffer|);
    var first := [buffer[start]];
    if start < end {
      assert buffer[start..end] == first + buffer[start + 1..end];
    } else if start + 1 == |buffer| {
      assert buffer[start..] == first && buffer[0..end] == buffer[..end];
    } else {
      assert buffer[start..] == first + buffer[start + 1..];
      assert first + buffer[start + 1..] + buffer[..end] == first + (buffer[start + 1..] + buffer[..end]);
    }
  }

  class Ring {
    const buffer: array<Byte>
    var start: nat
    var end: nat
    var full: bool

    constructor (size: nat)
      requires size > 0
      ensures Valid() && Contents() == [] && fresh(buffer) && buffer.Length == size
    {
      buffer := new Byte[size](_ => 0);
      start, end, full := 0, 0, false;
    }

    ghost predicate Valid()
      reads `start, `end, `full
    {
      start < buffer.Length && end < buffer.Length && (full ==> start == end)
    }

    ghost function Contents(): seq<Byte>
      requires Valid()
      reads `start, `end, `full, buffer
    {
      Queued(buffer[..], start, end, full)
    }

    predicate IsEmpty()
      reads `start, `end, `full
    {
      start == end && !full
    }

    method Put(b: Byte)
      requires Valid() && !full
      modifies `end, `full, buffer
      ensures Valid() && Contents() == old(Contents()) + [b] && !IsEmpty()
    {
      QueuedPut(buffer[..], start, end, b);
      SmallEnd(end, buffer.Length);
      hide Queued;
      buffer[end] := b;
      end := (end + 1) % buffer.Length;
      if start == end {
        full := true;
      }
    }

    method Take() returns (b: Byte)
      requires Valid() && !IsEmpty()
      modifies `start, `full
      ensures Valid() && old(Contents()) == [b] + Contents() && !full
    {
      QueuedTake(buffer[..], start, end, full);
      SmallEnd(start, buffer.Length);
      hide Queued;
      b := buffer[start];
      start := (start + 1) % buffer.Length;
      full := false;
    }

    lemma EmptyIff()
      requires Valid()
      ensures IsEmpty() <==> Contents() == []
    {
    }
  }

  // ----- the machine -----

  /** Where the main program is: nowhere special, or inside usartSend() or usartReceive(). */
  datatype Main =
    | Idle
    | SendNow(data: Byte)       // the register was empty and nothing was queued
    | SendWait(data: Byte)      // spinning while the queue is full
    | SendQueue(data: Byte)     // saw room in the queue
    | ReceiveWait               // spinning while the queue seems empty; nothing read yet
    | ReceiveStart(start: nat)  // has read the start index
    | ReceiveFull               // has read an end index equal to it
    | ReceiveTake               // saw something in the queue

  /** What may happen next; the data is what the program sends or the line delivers. */
  datatype Step =
    | CallSend(data: Byte) | CallReceive | MainStep | ReceiveInterrupt(data: Byte) | RegisterEmptyInterrupt | Shifted

  class Port {
    const tx: Ring
    const rx: Ring
    var rxBufferOverrun: bool
    /** UDRIE0, and UDRE0: the transmit register can take a byte. */
    var interruptEnabled: bool
    var registerEmpty: bool
    var main: Main
    /**
     Everything passed to usartSend() and written to UDR0, everything that arrived and that usartReceive() returned.
     */
    ghost var submitted: seq<Byte>
    ghost var transmitted: seq<Byte>
    ghost var arrived: seq<Byte>
    ghost var delivered: seq<Byte>
    ghost var dropped: nat

    constructor ()
      ensures Valid() && main == Idle && submitted == [] && arrived == [] && !rxBufferOverrun
      ensures fresh(tx) && fresh(rx) && fresh(tx.buffer) && fresh(rx.buffer)
    {
      tx := new Ring(TX_BUFFER_SIZE);
      rx := new Ring(RX_BUFFER_SIZE);
      rxBufferOverrun, interruptEnabled, registerEmpty, main := false, false, true, Idle;
      submitted, transmitted, arrived, delivered, dropped := [], [], [], [], 0;
    }

    /** What usartSend() has in hand but neither queued nor written. */
    ghost function InHand(): seq<Byte>
      reads `main
    {
      if main.SendNow? || main.SendWait? || main.SendQueue? then [main.data] else []
    }

    ghost predicate Separate()
    {
      tx != rx && tx.buffer != rx.buffer && tx.buffer.Length == TX_BUFFER_SIZE && rx.buffer.Length == RX_BUFFER_SIZE
    }

    /**
     Both directions are queues: what was submitted is what was transmitted, then what is queued, then what is in hand;
     what was kept of what arrived is what was delivered, then what is queued; nothing is dropped without a mark.
     */
    ghost predicate Valid()
      reads this, tx, rx, tx.buffer, rx.buffer
    {
      && Separate() && tx.Valid() && rx.Valid()
      && submitted == transmitted + tx.Contents() + InHand()
      && (main.SendNow? ==> tx.IsEmpty() && registerEmpty)
      && (main.SendQueue? ==> !tx.full)
      && (main.ReceiveStart? ==> main.start == rx.start)
      && (main.ReceiveTake? ==> !rx.IsEmpty())
      && (!tx.IsEmpty() ==> interruptEnabled)
      && (dropped == 0 ==> arrived == delivered + rx.Contents())
      && (dropped > 0 <==> rxBufferOverrun)
      && |arrived| == |delivered| + |rx.Contents()| + dropped
      && Subsequence(delivered + rx.Contents(), arrived)
    }

    /** A byte arrives. With no room for it, it is dropped and the overrun is recorded. */
    method OnReceive(data: Byte)
      requires Valid()
      modifies `rxBufferOverrun, `arrived, `dropped, rx`end, rx`full, rx.buffer
      ensures Valid() && arrived == old(arrived) + [data]
      ensures rxBufferOverrun == (old(rxBufferOverrun) || old(rx.full))
      ensures rx.Contents() == if old(rx.full) then old(rx.Contents()) else old(rx.Contents()) + [data]
    {
      hide Queued;
      arrived := arrived + [data];
      KeepOrDrop(delivered + rx.Contents(), old(arrived), data);
      if rx.full {
        rxBufferOverrun := true;
        dropped := dropped + 1;
      } else {
        assert delivered + (rx.Contents() + [data]) == delivered + rx.Contents() + [data];
        rx.Put(data);
      }
    }

    /** The transmit register is empty: write the next queued byte to it, or turn this interrupt off. */
    method OnRegisterEmpty()
      requires Valid() && interruptEnabled && registerEmpty
      modifies `interruptEnabled, `registerEmpty, `transmitted, tx`start, tx`full
      ensures Valid()
      ensures old(tx.IsEmpty()) ==> !interruptEnabled && transmitted == old(transmitted)
      ensures !old(tx.IsEmpty()) ==> transmitted == old(transmitted) + old(tx.Contents())[..1] && !registerEmpty
    {
      hide Queued, Subsequence;
      if !tx.IsEmpty() {
        var b := tx.Take();
        registerEmpty := false;
        assert transmitted + [b] + tx.Contents() == transmitted + ([b] + tx.Contents());
        transmitted := transmitted + [b];
      } else {
        interruptEnabled := false;
      }
    }

    /** The hardware moves the byte on, so that the transmit register can take another. */
    method OnShift()
      requires Valid()
      modifies `registerEmpty
      ensures Valid() && registerEmpty
    {
      hide Queued, Subsequence;
      registerEmpty := true;
    }

    /** The first atomic part of usartSend(): is there nothing ahead of this byte? */
    method BeginSend(data: Byte)
      requires Valid() && main.Idle?
      modifies `main, `submitted
      ensures Valid() && submitted == old(submitted) + [data]
      ensures main == if tx.Contents() == [] && registerEmpty then SendNow(data) else SendWait(data)
    {
      hide Queued, Subsequence;
      submitted := submitted + [data];
      tx.EmptyIff();
      main := if tx.IsEmpty() && registerEmpty then SendNow(data) else SendWait(data);
    }

    method BeginReceive()
      requires Valid() && main.Idle?
      modifies `main
      ensures Valid() && main.ReceiveWait?
    {
      hide Queued, Subsequence;
      main := ReceiveWait;
    }

    /** The next step of usartSend(). A direct write finds the register empty and nothing queued. */
    method ContinueSend()
      requires Valid() && InHand() != []
      modifies `main, `registerEmpty, `interruptEnabled, `transmitted, tx`end, tx`full, tx.buffer
      ensures Valid()
      ensures old(main).SendNow? ==> transmitted == old(transmitted) + [old(main).data] && old(tx.Contents()) == []
                                     && old(registerEmpty) && main == Idle && !registerEmpty
      ensures old(main).SendWait? ==> main == (if tx.full then old(main) else SendQueue(old(main).data))
                                      && tx.Contents() == old(tx.Contents())
      ensures old(main).SendQueue? ==> tx.Contents() == old(tx.Contents()) + [old(main).data]
                                       && main == Idle && interruptEnabled
      ensures !old(main).SendNow? ==> transmitted == old(transmitted) && registerEmpty == old(registerEmpty)
    {
      hide Queued, Subsequence;
      match main {
        case SendNow(data) =>
          tx.EmptyIff();
          assert transmitted + [] + [data] == transmitted + [data] + [] + [];
          registerEmpty, main := false, Idle;
          transmitted := transmitted + [data];
        case SendWait(data) =>
          if !tx.full {
            main := SendQueue(data);
          }
        case SendQueue(data) =>
          assert transmitted + tx.Contents() + [data] == transmitted + (tx.Contents() + [data]) + [];
          tx.Put(data);
          interruptEnabled, main := true, Idle;
      }
    }

    /** The next step of usartReceive(). A turn of the loop that finds nothing has seen an empty queue. */
    method ContinueReceive() returns (received: seq<Byte>)
      requires Valid() && !main.Idle? && InHand() == []
      modifies `main, `delivered, rx`start, rx`full
      ensures Valid() && delivered == old(delivered) + received && (received != [] <==> old(main).ReceiveTake?)
      ensures main == match old(main)
                      case ReceiveWait => ReceiveStart(rx.start)
                      case ReceiveStart(start) => if start == rx.end then ReceiveFull else ReceiveTake
                      case ReceiveFull => if rx.full then ReceiveTake else ReceiveWait
                      case _ => Idle
      ensures old(main).ReceiveStart? && main.ReceiveFull? ==> rx.IsEmpty() || rx.full
      ensures old(main).ReceiveTake? ==> old(rx.Contents()) == received + rx.Contents() && |received| == 1
    {
      hide Queued, Subsequence;
      received := [];
      match main {
        case ReceiveWait =>
          main := ReceiveStart(rx.start);
        case ReceiveStart(start) =>
          main := if start == rx.end then ReceiveFull else ReceiveTake;
        case ReceiveFull =>
          main := if rx.full then ReceiveTake else ReceiveWait;
        case ReceiveTake =>
          var b := rx.Take();
          received, main := [b], Idle;
          assert delivered + [b] + rx.Contents() == delivered + ([b] + rx.Contents());
          delivered := delivered + [b];
      }
    }

    /** A step that is not possible at its turn does not happen. */
    method TakeStep(step: Step)
      requires Valid()
      modifies this, tx, rx, tx.buffer, rx.buffer
      ensures Valid() && arrived == old(arrived) + if step.ReceiveInterrupt? then [step.data] else []
    {
      hide Valid;
      match step {
        case CallSend(data) =>
          if main.Idle? {
            BeginSend(data);
          }
        case CallReceive =>
          if main.Idle? {
            BeginReceive();
          }
        case MainStep =>
          if main.SendNow? || main.SendWait? || main.SendQueue? {
            ContinueSend();
          } else if !main.Idle? {
            var _ := ContinueReceive();
          }
        case ReceiveInterrupt(data) =>
          OnReceive(data);
        case RegisterEmptyInterrupt =>
          if interruptEnabled && registerEmpty {
            OnRegisterEmpty();
          }
        case Shifted =>
          OnShift();
      }
    }

    /** Any interleaving. */
    method Run(schedule: seq<Step>)
      requires Valid()
      modifies this, tx, rx, tx.buffer, rx.buffer
      ensures Valid() && arrived == old(arrived) + Arrivals(schedule)
    {
      assert schedule[..0] == [] && arrived + [] == arrived;
      for i := 0 to |schedule|
        invariant Valid() && arrived == old(arrived) + Arrivals(schedule[..i])
      {
        hide Valid, Arrivals;
        ArrivalsStep(schedule, i, old(arrived));
        TakeStep(schedule[i]);
      }
      assert schedule[..|schedule|] == schedule;
    }

    /**
     What reached the wire is a prefix of what was submitted; and without an overrun no byte is lost on the way in.
     */
    lemma InOrder()
      requires Valid()
      ensures transmitted <= submitted
      ensures !rxBufferOverrun ==> delivered <= arrived && arrived == delivered + rx.Contents()
      ensures main.Idle? && tx.IsEmpty() ==> transmitted == submitted
    {
      hide Queued, Subsequence;
      tx.EmptyIff();
    }
  }

  /** The bytes that the line delivers over a schedule. */
  function Arrivals(schedule: seq<Step>): seq<Byte> {
    if schedule == [] then []
    else
      var last := schedule[|schedule| - 1];
      Arrivals(schedule[..|schedule| - 1]) + if last.ReceiveInterrupt? then [last.data] else []
  }

  lemma ArrivalsStep(schedule: seq<Step>, i: nat, before: seq<Byte>)
    requires i < |schedule|
    ensures before + Arrivals(schedule[..i + 1])
            == before + Arrivals(schedule[..i]) + if schedule[i].ReceiveInterrupt? then [schedule[i].data] else []
  {
    assert schedule[..i + 1][..i] == schedule[..i];
  }

  /** s is t with some elements left out. */
  ghost predicate Subsequence(s: seq<Byte>, t: seq<Byte>) {
    if t == [] then s == []
    else
      var last, front := t[|t| - 1], t[..|t| - 1];
      Subsequence(s, front) || (s != [] && s[|s| - 1] == last && Subsequence(s[..|s| - 1], front))
  }

  lemma KeepOrDrop(s: seq<Byte>, t: seq<Byte>, b: Byte)
    requires Subsequence(s, t)
    ensures Subsequence(s, t + [b]) && Subsequence(s + [b], t + [b])
  {
    assert (t + [b])[..|t|] == t && (s + [b])[..|s|] == s;
  }
}
