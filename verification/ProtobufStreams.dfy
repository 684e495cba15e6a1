/** The streams of nanopb: an output stream that writes or only counts, and the loops that read numbers. */
module ProtobufStreams {
  import opened Arith
  import opened Bytes
  import opened Bignum
  import opened Wrappers
  import opened ProtobufFormat

  // ----- output -----

  class OutputStream {
    /** A stream without a callback counts bytes and writes none. */
    const sizing: bool
    const maxSize: nat
    var bytesWritten: nat
    var output: seq<Byte>

    constructor (sizing0: bool, maxSize0: nat, output0: seq<Byte>)
      ensures sizing == sizing0 && maxSize == maxSize0 && bytesWritten == 0 && output == output0
    {
      sizing, maxSize, bytesWritten, output := sizing0, maxSize0, 0, output0;
    }

    ghost predicate Valid()
      reads `bytesWritten
    {
      sizing || bytesWritten <= maxSize
    }

    /** There is room for that much more. */
    predicate Fits(count: nat)
      reads `bytesWritten
    {
      sizing || bytesWritten + count <= maxSize
    }

    /** pb_write(); a sizing stream is given only a length. */
    method Write(buffer: seq<Byte>) returns (ok: bool)
      requires Valid()
      modifies `bytesWritten, `output
      ensures Valid()
      ensures ok == old(Fits(|buffer|))
      ensures ok ==> Wrote(old(bytesWritten), old(output), buffer)
    {
      if !sizing {
        if bytesWritten + |buffer| > maxSize {
          return false;
        }
        output := output + buffer;
      }
      bytesWritten := bytesWritten + |buffer|;
      return true;
    }

    /** Everything of p went out, after what had been counted and written before. */
    ghost predicate Wrote(counted: nat, written: seq<Byte>, p: seq<Byte>)
      reads `bytesWritten, `output
    {
      bytesWritten == counted + |p| && output == if sizing then written else written + p
    }

    /** Just sizing: only the length of what would be written matters. */
    method WriteLength(size: nat) returns (ok: bool)
      requires sizing
      modifies `bytesWritten
      ensures ok && bytesWritten == old(bytesWritten) + size
    {
      bytesWritten := bytesWritten + size;
      return true;
    }

    method EncodeVarint(value: nat) returns (ok: bool)
      requires Valid()
      modifies `bytesWritten, `output
      ensures Valid()
      ensures ok == old(Fits(|PrintVarint(value)|))
      ensures ok ==> Wrote(old(bytesWritten), old(output), PrintVarint(value))
    {
      if value == 0 {
        ok := Write([0]);
        return;
      }
      var buffer: seq<Byte> := [];
      var left := value;
      while left != 0
        modifies {}
        invariant Unfinished(value, buffer, left)
      {
        UnfinishedStep(value, buffer, left);
        buffer := buffer + [left % 128 + 128];
        left := left / 128;
      }
      LastByte(value, buffer);
      var last: Byte := buffer[|buffer| - 1] - 128;
      buffer := buffer[|buffer| - 1 := last];
      ok := Write(buffer);
    }

    /** pb_encode_tag() */
    method EncodeTag(wireType: nat, tag: nat) returns (ok: bool)
      requires Valid()
      modifies `bytesWritten, `output
      ensures Valid()
      ensures ok == old(Fits(|PrintTag(tag, wireType)|))
      ensures ok ==> Wrote(old(bytesWritten), old(output), PrintTag(tag, wireType))
    {
      ok := EncodeVarint(tag * 8 + wireType);
    }

    method EncodeString(bytes: seq<Byte>) returns (ok: bool)
      requires Valid()
      modifies `bytesWritten, `output
      ensures Valid()
      ensures ok == old(Fits(|PrintString(bytes)|))
      ensures ok ==> Wrote(old(bytesWritten), old(output), PrintString(bytes))
    {
      hide PrintVarint;
      ok := EncodeVarint(|bytes|);
      if ok {
        ok := Write(bytes);
        assert old(output) + PrintVarint(|bytes|) + bytes == old(output) + (PrintVarint(|bytes|) + bytes);
      }
    }
  }

  /** All bytes so far have the top bit set; those of what is left follow. */
  ghost predicate Unfinished(value: nat, buffer: seq<Byte>, left: nat) {
    if left > 0 then PrintVarint(value) == buffer + PrintVarint(left)
    else
      && buffer != [] && buffer[|buffer| - 1] >= 128
      && PrintVarint(value) == buffer[|buffer| - 1 := buffer[|buffer| - 1] - 128]
  }

  lemma UnfinishedStep(value: nat, buffer: seq<Byte>, left: nat)
    requires left > 0 && Unfinished(value, buffer, left)
    ensures Unfinished(value, buffer + [left % 128 + 128], left / 128)
  {
    var next: seq<Byte> := buffer + [left % 128 + 128];
    if left < 128 {
      assert next[|next| - 1 := next[|next| - 1] - 128] == buffer + [left];
    } else {
      assert buffer + ([left % 128 + 128] + PrintVarint(left / 128)) == next + PrintVarint(left / 128);
    }
  }

  lemma LastByte(value: nat, buffer: seq<Byte>)
    requires Unfinished(value, buffer, 0)
    ensures buffer != [] && buffer[|buffer| - 1] >= 128
    ensures PrintVarint(value) == buffer[|buffer| - 1 := buffer[|buffer| - 1] - 128]
  {
  }

  // ----- messages -----

  /** How much of a table there is to walk through. */
  function Weight(k: Kind): nat
    decreases k, 0
  {
    if k.Submessage? then 1 + Weights(k.fields) else 0
  }

  function Weights(fs: Fields): nat
    decreases fs, 0
  {
    if fs.NoFields? then 0 else 2 + Weight(fs.first.kind) + Weights(fs.rest)
  }

  /** p as what goes out after `done`. */
  function Joined(done: seq<Byte>, p: Option<seq<Byte>>): Option<seq<Byte>> {
    if p.None? then None else Some(done + p.value)
  }

  /** Whether writing p to a stream in that state must succeed. */
  predicate Possible(sizing: bool, room: int, p: Option<seq<Byte>>) {
    p.Some? && (sizing || |p.value| <= room)
  }

  method EncodeValue(stream: OutputStream, k: Kind, v: Value) returns (ok: bool)
    requires stream.Valid()
    modifies stream`bytesWritten, stream`output
    ensures stream.Valid()
    ensures ok == Possible(stream.sizing, stream.maxSize - old(stream.bytesWritten), PrintValue(k, v))
    ensures ok ==> stream.Wrote(old(stream.bytesWritten), old(stream.output), PrintValue(k, v).value)
    decreases Weight(k), 0
  {
    hide PrintVarint, PrintSlots, Weights;
    match k {
      case Varint(size) =>
        if size !in {1, 2, 4, 8} || !Unsigned(v, size) {
          return false;
        }
        ok := stream.EncodeVarint(v.n);
      case Svarint(size) =>
        if size !in {4, 8} || !IsSigned(v, size) {
          return false;
        }
        ok := stream.EncodeVarint(ZigZag(v.n));
      case Fixed32 =>
        if !v.Octets? || |v.bytes| != 4 {
          return false;
        }
        ok := stream.Write(v.bytes);
      case Fixed64 =>
        if !v.Octets? || |v.bytes| != 8 {
          return false;
        }
        ok := stream.Write(v.bytes);
      case Data(capacity) =>
        if !v.Octets? || |v.bytes| > capacity {
          return false;
        }
        ok := stream.EncodeString(v.bytes);
      case Text(size) =>
        if !v.Octets? {
          return false;
        }
        var s := ScanString(v.bytes, size);
        ok := stream.EncodeString(s);
      case Submessage(fields) =>
        if !v.Message? {
          return false;
        }
        ok := EncodeSubmessage(stream, fields, v.slots);
    }
  }

  /** The loop of pb_enc_string() that looks for the terminator. */
  method ScanString(bytes: seq<Byte>, size: nat) returns (s: seq<Byte>)
    ensures s == CString(bytes, size)
  {
    var i := 0;
    while i < size && i < |bytes| && bytes[i] != 0
      invariant i <= size && i <= |bytes| && 0 !in bytes[..i]
    {
      assert bytes[..i + 1] == bytes[..i] + [bytes[i]];
      i := i + 1;
    }
    s := bytes[..i];
    ScannedIsString(bytes, size, i);
  }

  lemma ScannedIsString(bytes: seq<Byte>, size: nat, i: nat)
    requires i <= size && i <= |bytes| && 0 !in bytes[..i] && (i == size || i == |bytes| || bytes[i] == 0)
    ensures CString(bytes, size) == bytes[..i]
  {
    hide CString;
    assert |CString(bytes, size)| == i;
  }

  /** First the size of the message, found by encoding it to a stream that only counts, then the message itself. */
  method EncodeSubmessage(stream: OutputStream, fields: Fields, slots: seq<Slot>) returns (ok: bool)
    requires stream.Valid()
    modifies stream`bytesWritten, stream`output
    ensures stream.Valid()
    ensures var p := PrintSlots(fields, slots);
            && ok == Possible(stream.sizing, stream.maxSize - old(stream.bytesWritten),
                              if p.None? then None else Some(PrintString(p.value)))
            && (ok ==> stream.Wrote(old(stream.bytesWritten), old(stream.output), PrintString(p.value)))
    decreases Weights(fields), 4
  {
    hide PrintVarint, PrintSlots;
    var substream := new OutputStream(true, 0, []);
    ok := EncodeMessage(substream, fields, slots);
    if !ok {
      return false;
    }
    ghost var body := PrintSlots(fields, slots).value;
    var size := substream.bytesWritten;
    ok := stream.EncodeVarint(size);
    if !ok {
      return false;
    }
    if stream.sizing {
      ok := stream.WriteLength(size);
      return;
    }
    if stream.bytesWritten + size > stream.maxSize {
      return false;
    }
    substream := new OutputStream(false, size, stream.output);
    var status := EncodeMessage(substream, fields, slots);
    stream.bytesWritten := stream.bytesWritten + substream.bytesWritten;
    stream.output := substream.output;
    if substream.bytesWritten != size {
      return false;
    }
    assert old(stream.output) + PrintVarint(size) + body == old(stream.output) + (PrintVarint(size) + body);
    return status;
  }

  /** What stands before an item. */
  function Prefix(k: Kind, tagged: bool, tag: nat): seq<Byte> {
    if tagged then PrintTag(tag, WireType(k)) else []
  }

  /** A value, behind its tag if it has one. */
  method EncodeItem(stream: OutputStream, k: Kind, tagged: bool, tag: nat, v: Value) returns (ok: bool)
    requires stream.Valid()
    modifies stream`bytesWritten, stream`output
    ensures stream.Valid()
    ensures var p := Joined(Prefix(k, tagged, tag), PrintValue(k, v));
            && ok == Possible(stream.sizing, stream.maxSize - old(stream.bytesWritten), p)
            && (ok ==> stream.Wrote(old(stream.bytesWritten), old(stream.output), p.value))
    decreases Weight(k), 1
  {
    hide PrintTag, PrintValue, Weight;
    ghost var written, t := stream.output, Prefix(k, tagged, tag);
    assert written + [] == written;
    if tagged {
      ok := stream.EncodeTag(WireType(k), tag);
      if !ok {
        return false;
      }
    }
    ok := EncodeValue(stream, k, v);
    if ok {
      assert written + t + PrintValue(k, v).value == written + (t + PrintValue(k, v).value);
    }
  }

  lemma ItemStep(k: Kind, prefix: seq<Byte>, items: seq<Value>, i: nat, done: seq<Byte>)
    requires i < |items| && PrintItems(k, prefix, items) == Joined(done, PrintItems(k, prefix, items[i..]))
    ensures var v := PrintValue(k, items[i]);
            PrintItems(k, prefix, items)
            == if v.None? then None else Joined(done + prefix + v.value, PrintItems(k, prefix, items[i + 1..]))
  {
    hide PrintValue;
    var rest := items[i..];
    assert rest[1..] == items[i + 1..];
    var v, later := PrintValue(k, items[i]), PrintItems(k, prefix, items[i + 1..]);
    if v.Some? && later.Some? {
      assert done + (prefix + v.value + later.value) == done + prefix + v.value + later.value;
    }
  }

  /** An item that does not fit after what is done makes the whole impossible; one that does was printed. */
  lemma ItemPossible(sizing: bool, room: int, done: seq<Byte>, prefix: seq<Byte>, v: Option<seq<Byte>>,
      later: Option<seq<Byte>>)
    ensures !Possible(sizing, room - |done|, Joined(prefix, v)) ==>
              !Possible(sizing, room, if v.None? then None else Joined(done + prefix + v.value, later))
    ensures Possible(sizing, room - |done|, Joined(prefix, v)) ==>
            v.Some? && Joined(prefix, v) == Some(prefix + v.value)
  {
  }

  lemma JoinedBoth(written: seq<Byte>, done: seq<Byte>, prefix: seq<Byte>, v: seq<Byte>)
    ensures written + done + (prefix + v) == written + (done + prefix + v)
  {
  }

  lemma ItemsFit(sizing: bool, room: int, done: seq<Byte>)
    ensures Possible(sizing, room, Some(done)) <==> sizing || |done| <= room
  {
  }

  lemma ItemsStart(k: Kind, prefix: seq<Byte>, items: seq<Value>)
    ensures PrintItems(k, prefix, items) == Joined([], PrintItems(k, prefix, items[0..]))
  {
    hide PrintItems;
    assert items[0..] == items;
    var p := PrintItems(k, prefix, items);
    if p.Some? {
      assert [] + p.value == p.value;
    }
  }

  lemma ItemsEnd(k: Kind, prefix: seq<Byte>, items: seq<Value>, done: seq<Byte>)
    requires PrintItems(k, prefix, items) == Joined(done, PrintItems(k, prefix, items[|items|..]))
    ensures PrintItems(k, prefix, items) == Some(done)
  {
    assert items[|items|..] == [] && done + [] == done;
  }

  /** Items one after the other, each behind its tag or all without. */
  method EncodeItems(stream: OutputStream, k: Kind, tagged: bool, tag: nat, items: seq<Value>) returns (ok: bool)
    requires stream.Valid()
    modifies stream`bytesWritten, stream`output
    ensures stream.Valid()
    ensures var p := PrintItems(k, Prefix(k, tagged, tag), items);
            && ok == Possible(stream.sizing, stream.maxSize - old(stream.bytesWritten), p)
            && (ok ==> stream.Wrote(old(stream.bytesWritten), old(stream.output), p.value))
    decreases Weight(k), 2
  {
    hide PrintItems, PrintValue, Prefix, Weight, Joined, Possible;
    ghost var prefix := Prefix(k, tagged, tag);
    ghost var counted, written, done: seq<Byte> := stream.bytesWritten, stream.output, [];
    ItemsStart(k, prefix, items);
    assert written + [] == written;
    for i := 0 to |items|
      invariant stream.Valid() && stream.Wrote(counted, written, done)
      invariant PrintItems(k, prefix, items) == Joined(done, PrintItems(k, prefix, items[i..]))
    {
      ItemStep(k, prefix, items, i, done);
      ghost var v := PrintValue(k, items[i]);
      ItemPossible(stream.sizing, stream.maxSize - counted, done, prefix, v, PrintItems(k, prefix, items[i + 1..]));
      ok := EncodeItem(stream, k, tagged, tag, items[i]);
      if !ok {
        return false;
      }
      JoinedBoth(written, done, prefix, v.value);
      done := done + prefix + v.value;
    }
    ItemsEnd(k, prefix, items, done);
    ItemsFit(stream.sizing, stream.maxSize - counted, done);
    return true;
  }

  /**
   The size of a packed array: from the count where items have a fixed size, else by encoding it to a counting stream.
   */
  method PackedSize(k: Kind, items: seq<Value>) returns (ok: bool, size: nat)
    requires Packable(k)
    ensures ok <==> PrintItems(k, [], items).Some?
    ensures ok ==> size == |PrintItems(k, [], items).value|
    decreases Weight(k), 3
  {
    hide PrintItems, Weight;
    if k.Fixed32? {
      FixedSize(k, items, 4);
      return AllFixed(items, 4), 4 * |items|;
    } else if k.Fixed64? {
      FixedSize(k, items, 8);
      return AllFixed(items, 8), 8 * |items|;
    }
    var sizeStream := new OutputStream(true, 0, []);
    ok := EncodeItems(sizeStream, k, false, 0, items);
    size := sizeStream.bytesWritten;
  }

  /** The members of an array of fixed-size items are of that size. */
  predicate AllFixed(items: seq<Value>, size: nat) {
    items != [] ==> items[0].Octets? && |items[0].bytes| == size && AllFixed(items[1..], size)
  }

  lemma {:induction false} FixedSize(k: Kind, items: seq<Value>, size: nat)
    requires (k.Fixed32? && size == 4) || (k.Fixed64? && size == 8)
    ensures PrintItems(k, [], items).Some? <==> AllFixed(items, size)
    ensures AllFixed(items, size) ==> |PrintItems(k, [], items).value| == size * |items|
    decreases |items|
  {
    if items != [] {
      FixedSize(k, items[1..], size);
    }
  }

  function PackedForm(tag: nat, body: Option<seq<Byte>>): Option<seq<Byte>> {
    if body.None? then None else Some(PrintTag(tag, 2) + PrintString(body.value))
  }

  method EncodePacked(stream: OutputStream, k: Kind, tag: nat, items: seq<Value>) returns (ok: bool)
    requires stream.Valid() && Packable(k)
    modifies stream`bytesWritten, stream`output
    ensures stream.Valid()
    ensures var p := PackedForm(tag, PrintItems(k, [], items));
            && ok == Possible(stream.sizing, stream.maxSize - old(stream.bytesWritten), p)
            && (ok ==> stream.Wrote(old(stream.bytesWritten), old(stream.output), p.value))
    decreases Weight(k), 4
  {
    hide PrintItems, PrintTag, PrintVarint, Weight;
    ghost var counted, written := stream.bytesWritten, stream.output;
    ok := stream.EncodeTag(2, tag);
    if !ok {
      return false;
    }
    var size;
    ok, size := PackedSize(k, items);
    if !ok {
      return false;
    }
    ok := stream.EncodeVarint(size);
    if !ok {
      return false;
    }
    if stream.sizing {
      ok := stream.WriteLength(size);
      return;
    }
    ok := EncodeItems(stream, k, false, 0, items);
    if ok {
      ghost var t, n, b := PrintTag(tag, 2), PrintVarint(size), PrintItems(k, [], items).value;
      assert written + t + n + b == written + (t + (n + b));
    }
  }

  /** encode_static_field() */
  method EncodeSlot(stream: OutputStream, f: Field, slot: Slot) returns (ok: bool)
    requires stream.Valid()
    modifies stream`bytesWritten, stream`output
    ensures stream.Valid()
    ensures ok == Possible(stream.sizing, stream.maxSize - old(stream.bytesWritten), PrintSlot(f, slot))
    ensures ok ==> stream.Wrote(old(stream.bytesWritten), old(stream.output), PrintSlot(f, slot).value)
    decreases Weight(f.kind), 5
  {
    hide PrintTag, PrintValue, PrintItems, PrintString, Weight;
    assert stream.output + [] == stream.output;
    match f.rule {
      case Required =>
        if !slot.One? {
          return false;
        }
        ok := EncodeItem(stream, f.kind, true, f.tag, slot.value);
      case Optional =>
        if !slot.Maybe? {
          return false;
        }
        if !slot.present {
          return true;
        }
        ok := EncodeItem(stream, f.kind, true, f.tag, slot.value);
      case Repeated(capacity) =>
        if !slot.Many? {
          return false;
        }
        if slot.items == [] {
          return true;
        }
        if |slot.items| > capacity {
          return false;
        }
        if Packable(f.kind) {
          ok := EncodePacked(stream, f.kind, f.tag, slot.items);
        } else {
          ok := EncodeItems(stream, f.kind, true, f.tag, slot.items);
        }
    }
  }

  lemma SlotStep(fs: Fields, all: seq<Slot>, gs: Fields, slots: seq<Slot>, done: seq<Byte>)
    requires gs.Fields? && slots != [] && PrintSlots(fs, all) == Joined(done, PrintSlots(gs, slots))
    ensures var v := PrintSlot(gs.first, slots[0]);
            PrintSlots(fs, all) == if v.None? then None else Joined(done + v.value, PrintSlots(gs.rest, slots[1..]))
  {
    hide PrintSlot;
    var v, later := PrintSlot(gs.first, slots[0]), PrintSlots(gs.rest, slots[1..]);
    if v.Some? && later.Some? {
      assert done + (v.value + later.value) == done + v.value + later.value;
    }
  }

  lemma SlotsStart(fs: Fields, slots: seq<Slot>)
    ensures PrintSlots(fs, slots) == Joined([], PrintSlots(fs, slots))
  {
    hide PrintSlots;
    var p := PrintSlots(fs, slots);
    if p.Some? {
      assert [] + p.value == p.value;
    }
  }

  lemma SlotsEnd(fs: Fields, all: seq<Slot>, gs: Fields, slots: seq<Slot>, done: seq<Byte>)
    requires PrintSlots(fs, all) == Joined(done, PrintSlots(gs, slots)) && (gs.NoFields? || slots == [])
    ensures PrintSlots(fs, all) == if gs.NoFields? && slots == [] then Some(done) else None
  {
    assert done + [] == done;
  }

  lemma FirstIsLighter(gs: Fields)
    requires gs.Fields?
    ensures Weight(gs.first.kind) < Weights(gs) && Weights(gs.rest) < Weights(gs)
  {
  }

  /** pb_encode(): field after field. A sizing stream counts exactly the bytes that a writing stream writes. */
  method EncodeMessage(stream: OutputStream, fields: Fields, slots: seq<Slot>) returns (ok: bool)
    requires stream.Valid()
    modifies stream`bytesWritten, stream`output
    ensures stream.Valid()
    ensures ok == Possible(stream.sizing, stream.maxSize - old(stream.bytesWritten), PrintSlots(fields, slots))
    ensures ok ==> stream.Wrote(old(stream.bytesWritten), old(stream.output), PrintSlots(fields, slots).value)
    decreases Weights(fields), 3
  {
    hide PrintSlot, PrintSlots, Weights, Weight;
    var field, rest := fields, slots;
    ghost var counted, written, done: seq<Byte> := stream.bytesWritten, stream.output, [];
    SlotsStart(fields, slots);
    assert written + [] == written;
    while field.Fields? && rest != []
      invariant stream.Valid() && stream.Wrote(counted, written, done) && Weights(field) <= Weights(fields)
      invariant PrintSlots(fields, slots) == Joined(done, PrintSlots(field, rest))
      decreases |rest|
    {
      SlotStep(fields, slots, field, rest, done);
      FirstIsLighter(field);
      ok := EncodeSlot(stream, field.first, rest[0]);
      if !ok {
        return false;
      }
      ghost var v := PrintSlot(field.first, rest[0]).value;
      assert written + done + v == written + (done + v);
      done := done + v;
      field, rest := field.rest, rest[1..];
    }
    SlotsEnd(fields, slots, field, rest, done);
    return field.NoFields? && rest == [];
  }

  /** The size of a message, found without writing it. */
  method MessageSize(fields: Fields, slots: seq<Slot>) returns (ok: bool, size: nat)
    ensures ok <==> PrintSlots(fields, slots).Some?
    ensures ok ==> size == |PrintSlots(fields, slots).value|
  {
    hide PrintSlots;
    var stream := new OutputStream(true, 0, []);
    ok := EncodeMessage(stream, fields, slots);
    size := stream.bytesWritten;
  }

  // ----- input -----

  class InputStream {
    /** The bytes that are left, and those that follow them in the buffer. */
    var left: seq<Byte>
    var beyond: seq<Byte>

    constructor (bytes: seq<Byte>, others: seq<Byte>)
      ensures left == bytes && beyond == others
    {
      left, beyond := bytes, others;
    }

    method ReadByte() returns (ok: bool, byte: Byte)
      modifies `left
      ensures ok == (old(left) != [])
      ensures ok ==> byte == old(left)[0] && left == old(left)[1..]
      ensures !ok ==> left == old(left)
    {
      if left == [] {
        return false, 0;
      }
      byte := left[0];
      left := left[1..];
      ok := true;
    }

    /**
     pb_decode_varint(): new bits are above those so far, so that or-ing them in is adding; bits beyond 64 are lost.
     */
    method DecodeVarint() returns (ok: bool, dest: nat)
      modifies `left
      ensures Reads(ParseVarint64(old(left)), ok, dest, left)
    {
      hide Pow2, ParseVarint;
      var bitpos: nat, result: nat := 0, 0;
      while true
        invariant ParseVarint(left, bitpos, result, 64) == ParseVarint64(old(left))
        decreases |left|
      {
        hide Pow2, ParseVarint;
        ghost var before := left;
        VarintEnds(before, bitpos, result, 64);
        if bitpos >= 64 {
          return false, 0;
        }
        var byte;
        ok, byte := ReadByte();
        if !ok {
          return false, 0;
        }
        VarintStep(before, bitpos, result, 64);
        result := (result + (byte % 128) * Pow2(bitpos)) % Pow2(64);
        bitpos := bitpos + 7;
        if byte < 128 {
          return true, result;
        }
      }
    }

    /** pb_decode_varint32(): one byte at once, else a loop over up to five. */
    method DecodeVarint32() returns (ok: bool, dest: nat)
      modifies `left
      ensures Reads(ParseVarint32(old(left)), ok, dest, left)
    {
      hide Pow2;
      var byte;
      ok, byte := ReadByte();
      if !ok {
        return false, 0;
      }
      FirstByte(old(left));
      if byte < 128 {
        return true, byte;
      }
      var bitpos, result: nat := 7, byte % 128;
      while true
        invariant ParseVarint(left, bitpos, result, 32) == ParseVarint32(old(left))
        decreases |left|
      {
        hide Pow2, ParseVarint;
        ghost var before := left;
        VarintEnds(before, bitpos, result, 32);
        if bitpos >= 32 {
          return false, 0;
        }
        ok, byte := ReadByte();
        if !ok {
          return false, 0;
        }
        VarintStep(before, bitpos, result, 32);
        result := (result + (byte % 128) * Pow2(bitpos)) % Pow2(32);
        bitpos := bitpos + 7;
        if byte < 128 {
          return true, result;
        }
      }
    }

    method DecodeSvarint() returns (ok: bool, dest: int)
      modifies `left
      ensures var r := ParseVarint64(old(left));
              if r.Fail? then !ok && left == r.left else ok && dest == UnZigZag(r.value) && left == r.rest
    {
      hide ParseVarint;
      var value;
      ok, value := DecodeVarint();
      var half: int := value / 2;
      dest := if value % 2 == 1 then -half - 1 else half;
    }

    /** pb_decode_tag(): a number that ends with the stream, and zero, count as the end of the message. */
    method DecodeTag() returns (ok: bool, eof: bool, wireType: nat, tag: nat)
      modifies `left
      ensures var r := ParseVarint32(old(left));
              && (ok <==> r.Done? && r.value != 0)
              && (ok ==> tag == r.value / 8 && wireType == r.value % 8 && left == r.rest)
              && (eof <==> (r.Fail? && r.left == []) || (r.Done? && r.value == 0))
              && (eof ==> left == if r.Fail? then [] else r.rest)
    {
      hide ParseVarint;
      eof, wireType, tag := false, 0, 0;
      var temp;
      ok, temp := DecodeVarint32();
      if !ok {
        eof := left == [];
        return;
      }
      if temp == 0 {
        ok, eof := false, true;
        return;
      }
      tag, wireType := temp / 8, temp % 8;
    }
  }

  lemma VarintEnds(s: seq<Byte>, bit: nat, sofar: nat, width: nat)
    ensures bit >= width || s == [] ==> ParseVarint(s, bit, sofar, width) == Fail(s)
  {
    hide Pow2;
  }

  lemma VarintStep(s: seq<Byte>, bit: nat, sofar: nat, width: nat)
    requires bit < width && s != []
    ensures var result := (sofar + (s[0] % 128) * Pow2(bit)) % Pow2(width);
            ParseVarint(s, bit, sofar, width)
            == if s[0] >= 128 then ParseVarint(s[1..], bit + 7, result, width) else Done(result, s[1..])
  {
    hide Pow2;
  }

  lemma FirstByte(s: seq<Byte>)
    requires s != []
    ensures ParseVarint32(s) == if s[0] >= 128 then ParseVarint(s[1..], 7, s[0] % 128, 32) else Done(s[0], s[1..])
  {
    SmallPowers();
    hide Pow2;
    Pow2Mono(8, 32);
    SmallMod(s[0] % 128, Pow2(32));
  }

  /** The outcome of reading a number, and what is left either way. */
  ghost predicate Reads(r: Read<nat>, ok: bool, dest: nat, left: seq<Byte>) {
    if r.Fail? then !ok && left == r.left else ok && dest == r.value && left == r.rest
  }

  // ----- required fields -----

  function TestBit(n: nat, j: nat): bool {
    if j == 0 then n % 2 == 1 else TestBit(n / 2, j - 1)
  }

  lemma {:induction false} TestOr(a: nat, b: nat, j: nat)
    ensures TestBit(BitOrNat(a, b), j) <==> TestBit(a, j) || TestBit(b, j)
    decreases j
  {
    if j > 0 {
      TestOr(a / 2, b / 2, j - 1);
    }
    if a == 0 {
      NoBits(j);
    }
    if b == 0 {
      NoBits(j);
    }
  }

  lemma {:induction false} NoBits(j: nat)
    ensures !TestBit(0, j)
  {
    if j > 0 {
      NoBits(j - 1);
    }
  }

  lemma {:induction false} TestPower(k: nat, j: nat)
    ensures TestBit(Pow2(k), j) <==> k == j
    decreases j
  {
    if j > 0 {
      if k > 0 {
        TestPower(k - 1, j - 1);
      } else {
        NoBits(j - 1);
      }
    }
  }

  /** All the bits below m and no others. */
  lemma {:induction false} TestMask(m: nat, j: nat)
    ensures TestBit(Pow2(m) - 1, j) <==> j < m
    decreases j
  {
    if m == 0 {
      NoBits(j);
    } else if j > 0 {
      assert (2 * Pow2(m - 1) - 1) / 2 == Pow2(m - 1) - 1;
      TestMask(m - 1, j - 1);
    }
  }

  /** Numbers of n bits that agree in every bit are equal. */
  lemma {:induction false} SameBits(a: nat, b: nat, n: nat)
    requires a < Pow2(n) && b < Pow2(n) && forall j :: 0 <= j < n ==> (TestBit(a, j) <==> TestBit(b, j))
    ensures a == b
  {
    if n > 0 {
      assert TestBit(a, 0) <==> TestBit(b, 0);
      forall j | 0 <= j < n - 1
        ensures TestBit(a / 2, j) <==> TestBit(b / 2, j)
      {
        assert TestBit(a, j + 1) <==> TestBit(b, j + 1);
      }
      SameBits(a / 2, b / 2, n - 1);
    }
  }

  lemma MaskIff(b: nat, m: nat, mask: nat)
    requires b < 256 && m <= 8 && mask == Pow2(m) - 1
    ensures b == mask ==> forall j :: 0 <= j < 8 ==> (TestBit(b, j) <==> j < m)
    ensures (forall j :: 0 <= j < 8 ==> (TestBit(b, j) <==> j < m)) ==> b == mask
  {
    hide Pow2;
    SmallPowers();
    Pow2Mono(m, 8);
    forall j | 0 <= j < 8
      ensures TestBit(mask, j) <==> j < m
    {
      TestMask(m, j);
    }
    if forall j :: 0 <= j < 8 ==> (TestBit(b, j) <==> j < m) {
      SameBits(b, mask, 8);
    }
  }

  /** Bit j of byte i is set exactly for the fields seen. */
  ghost predicate Recorded(bytes: seq<Byte>, seen: set<nat>) {
    && |bytes| == 8 && (forall k :: k in seen ==> k < 64)
    && forall i, j :: 0 <= i < 8 && 0 <= j < 8 ==> (TestBit(bytes[i], j) <==> Marked(seen, i, j))
  }

  /** Field 8 * i + j has been seen. */
  ghost predicate Marked(seen: set<nat>, i: nat, j: nat) {
    8 * i + j in seen
  }

  lemma RecordedMark(bytes: seq<Byte>, seen: set<nat>, i: nat, j: nat, b: Byte)
    requires Recorded(bytes, seen) && i < 8 && j < 8 && b as int == BitOrNat(bytes[i], Pow2(j))
    ensures Recorded(bytes[i := b], seen + {8 * i + j})
  {
    hide TestBit, BitOrNat, Pow2;
    var next: seq<Byte> := bytes[i := b];
    forall x, y | 0 <= x < 8 && 0 <= y < 8
      ensures TestBit(next[x], y) <==> Marked(seen + {8 * i + j}, x, y)
    {
      TestOr(bytes[i], Pow2(j), y);
      TestPower(j, y);
    }
  }

  /** Whether the first `count` fields have all been seen, byte by byte. */
  lemma WholeByte(bytes: seq<Byte>, seen: set<nat>, i: nat)
    requires Recorded(bytes, seen) && i < 8
    ensures bytes[i] == 0xff <==> forall j :: 0 <= j < 8 ==> Marked(seen, i, j)
  {
    hide TestBit, Pow2;
    SmallPowers();
    MaskIff(bytes[i], 8, 0xff);
    if bytes[i] == 0xff {
      forall j | 0 <= j < 8
        ensures Marked(seen, i, j)
      {
        assert TestBit(bytes[i], j);
      }
    }
    if forall j :: 0 <= j < 8 ==> Marked(seen, i, j) {
      forall j | 0 <= j < 8
        ensures TestBit(bytes[i], j) <==> j < 8
      {
        assert Marked(seen, i, j);
      }
    }
  }

  lemma LastBits(bytes: seq<Byte>, seen: set<nat>, i: nat, m: nat, mask: nat)
    requires Recorded(bytes, seen) && i < 8 && m < 8 && mask == Pow2(m) - 1 && forall k :: k in seen ==> k < 8 * i + m
    ensures bytes[i] == mask <==> forall j :: 0 <= j < m ==> Marked(seen, i, j)
  {
    hide TestBit, Pow2;
    MaskIff(bytes[i], m, mask);
    if bytes[i] == mask {
      forall j | 0 <= j < m
        ensures Marked(seen, i, j)
      {
        assert TestBit(bytes[i], j);
      }
    }
    if forall j :: 0 <= j < m ==> Marked(seen, i, j) {
      forall j | 0 <= j < 8
        ensures TestBit(bytes[i], j) <==> j < m
      {
        assert Marked(seen, i, j) <==> j < m;
      }
    }
  }

  lemma LastPart(seen: set<nat>, i: nat, m: nat, count: nat)
    requires count == 8 * i + m && forall k :: 0 <= k < 8 * i ==> k in seen
    ensures (forall j :: 0 <= j < m ==> Marked(seen, i, j)) <==> forall k :: 0 <= k < count ==> k in seen
  {
    if forall j :: 0 <= j < m ==> Marked(seen, i, j) {
      forall k | 8 * i <= k < count
        ensures k in seen
      {
        assert Marked(seen, i, k - 8 * i);
      }
    }
    if forall k :: 0 <= k < count ==> k in seen {
      forall j | 0 <= j < m
        ensures Marked(seen, i, j)
      {
        assert 8 * i + j in seen;
      }
    }
  }

  /** fields_seen: one bit for each required field, eight to a byte. */
  class SeenFields {
    const fieldsSeen: array<Byte>
    ghost var seen: set<nat>

    constructor ()
      ensures Valid() && seen == {} && fresh(fieldsSeen)
    {
      fieldsSeen := new Byte[8](_ => 0);
      seen := {};
      new;
      forall i, j | 0 <= i < 8 && 0 <= j < 8
        ensures !TestBit(fieldsSeen[i], j)
      {
        NoBits(j);
      }
    }

    ghost predicate Valid()
      reads this, fieldsSeen
    {
      Recorded(fieldsSeen[..], seen)
    }

    /** Marks a required field; those past the 64th are not kept track of. */
    method Mark(index: nat)
      requires Valid()
      modifies this, fieldsSeen
      ensures Valid() && seen == old(seen) + if index < 64 then {index} else {}
    {
      hide Recorded, BitOrNat, Pow2, TestBit;
      RecordedSize(fieldsSeen[..], seen);
      if index < 64 {
        var i, j := index / 8, index % 8;
        SmallPowers();
        BitFits(fieldsSeen[i], j);
        RecordedMark(fieldsSeen[..], seen, i, j, BitOrNat(fieldsSeen[i], Pow2(j)));
        fieldsSeen[i] := BitOrNat(fieldsSeen[i], Pow2(j));
        seen := seen + {index};
      }
    }

    /** The check at the end of a message, for fewer than 64 required fields: whole bytes, then the remaining bits. */
    method AllPresent(count: nat) returns (ok: bool)
      requires Valid() && count < 64 && forall k :: k in seen ==> k < count
      ensures ok <==> forall k :: 0 <= k < count ==> k in seen
    {
      hide Recorded, Pow2, TestBit;
      RecordedSize(fieldsSeen[..], seen);
      for i := 0 to count / 8
        invariant forall k :: 0 <= k < 8 * i ==> k in seen
      {
        WholeByte(fieldsSeen[..], seen, i);
        if fieldsSeen[i] != 0xff {
          return false;
        }
        NextEight(seen, i);
      }
      var i, m := count / 8, count % 8;
      LastBits(fieldsSeen[..], seen, i, m, Pow2(m) - 1);
      LastPart(seen, i, m, count);
      ok := fieldsSeen[i] as int == Pow2(m) - 1;
    }
  }

  lemma RecordedSize(bytes: seq<Byte>, seen: set<nat>)
    requires Recorded(bytes, seen)
    ensures |bytes| == 8
  {
  }

  lemma BitFits(b: Byte, j: nat)
    requires j < 8
    ensures BitOrNat(b, Pow2(j)) < 256
  {
    hide BitOrNat;
    SmallPowers();
    Pow2Mono(j + 1, 8);
    BitOrBound(b, Pow2(j), 8);
  }

  lemma NextEight(seen: set<nat>, i: nat)
    requires (forall k :: 0 <= k < 8 * i ==> k in seen) && forall j :: 0 <= j < 8 ==> Marked(seen, i, j)
    ensures forall k :: 0 <= k < 8 * (i + 1) ==> k in seen
  {
    forall k | 8 * i <= k < 8 * (i + 1)
      ensures k in seen
    {
      assert Marked(seen, i, k - 8 * i);
    }
  }
}
