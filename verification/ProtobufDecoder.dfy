/**
 pb_decode.c at work on whole messages: the iterator that goes round the table, the members filled one by one, the
 substreams. Everything is proved against the parser on byte strings.
 */
module ProtobufDecoder {
  import opened Arith
  import opened Bytes
  import opened Wrappers
  import opened ProtobufFormat
  import opened ProtobufLaws
  import opened ProtobufStreams

  // ----- tables -----

  /** How many of the first i fields are required. */
  function RequiredBefore(fs: Fields, i: nat): nat
    requires i <= Count(fs)
  {
    if i == 0 then 0 else (if fs.first.rule.Required? then 1 else 0) + RequiredBefore(fs.rest, i - 1)
  }

  lemma {:induction false} RequiredStep(fs: Fields, i: nat)
    requires i < Count(fs)
    ensures RequiredBefore(fs, i + 1) == RequiredBefore(fs, i) + if FieldAt(fs, i).rule.Required? then 1 else 0
  {
    if i > 0 {
      RequiredStep(fs.rest, i - 1);
    }
  }

  lemma {:induction false} RequiredMono(fs: Fields, i: nat, j: nat)
    requires i <= j <= Count(fs)
    ensures RequiredBefore(fs, i) <= RequiredBefore(fs, j)
  {
    if i < j {
      RequiredStep(fs, j - 1);
      RequiredMono(fs, i, j - 1);
    }
  }

  /** The k-th required field. */
  lemma {:induction false} RequiredAt(fs: Fields, k: nat, n: nat) returns (i: nat)
    requires n <= Count(fs) && k < RequiredBefore(fs, n)
    ensures i < n && FieldAt(fs, i).rule.Required? && RequiredBefore(fs, i) == k
  {
    RequiredStep(fs, n - 1);
    if RequiredBefore(fs, n - 1) <= k {
      i := n - 1;
    } else {
      i := RequiredAt(fs, k, n - 1);
    }
  }

  /** Tables as the decoder needs them: distinct tags that are not zero, fewer than 64 required fields; also inside. */
  ghost predicate Decodable(fs: Fields)
    decreases fs, 1
  {
    Distinct(fs) && RequiredBefore(fs, Count(fs)) < 64 && DecodableFields(fs)
  }

  ghost predicate DecodableFields(fs: Fields)
    decreases fs, 0
  {
    fs.Fields? ==> fs.first.tag > 0 && DecodableKind(fs.first.kind) && DecodableFields(fs.rest)
  }

  ghost predicate DecodableKind(k: Kind)
    decreases k, 0
  {
    k.Submessage? ==> Decodable(k.fields)
  }

  lemma {:induction false} DecodableAt(fs: Fields, i: nat)
    requires DecodableFields(fs) && i < Count(fs)
    ensures FieldAt(fs, i).tag > 0 && DecodableKind(FieldAt(fs, i).kind)
  {
    hide DecodableKind;
    if i > 0 {
      DecodableAt(fs.rest, i - 1);
    }
  }

  // ----- required fields that were seen -----

  /** Fields are marked by their number among the required ones. */
  ghost predicate Marks(fs: Fields, seen: set<nat>, marks: set<nat>) {
    && (forall k :: k in marks ==> k < RequiredBefore(fs, Count(fs)))
    && forall i :: 0 <= i < Count(fs) && FieldAt(fs, i).rule.Required? ==>
        (i in seen <==> RequiredBefore(fs, i) in marks)
  }

  lemma MarksStep(fs: Fields, seen: set<nat>, marks: set<nat>, j: nat)
    requires Marks(fs, seen, marks) && j < Count(fs) && FieldAt(fs, j).rule.Required?
    ensures Marks(fs, seen + {j}, marks + {RequiredBefore(fs, j)})
  {
    hide RequiredBefore;
    RequiredStep(fs, j);
    RequiredMono(fs, j + 1, Count(fs));
    forall i | 0 <= i < Count(fs) && FieldAt(fs, i).rule.Required? && i != j
      ensures RequiredBefore(fs, i) != RequiredBefore(fs, j)
    {
      RequiredStep(fs, i);
      if i < j {
        RequiredMono(fs, i + 1, j);
      } else {
        RequiredMono(fs, j + 1, i);
      }
    }
  }

  lemma NoMarks(fs: Fields)
    ensures Marks(fs, {}, {})
  {
  }

  lemma MarksNext(fs: Fields, seen: set<nat>, marks: set<nat>, j: nat)
    requires Marks(fs, seen, marks) && j < Count(fs) && RequiredBefore(fs, Count(fs)) < 64
    ensures if FieldAt(fs, j).rule.Required? then
              RequiredBefore(fs, j) < 64 && Marks(fs, seen + {j}, marks + {RequiredBefore(fs, j)})
            else Marks(fs, seen, marks)
  {
    hide RequiredBefore, Marks;
    RequiredMono(fs, j, Count(fs));
    if FieldAt(fs, j).rule.Required? {
      MarksStep(fs, seen, marks, j);
    }
  }

  lemma MarksEnd(fs: Fields, seen: set<nat>, marks: set<nat>)
    requires Marks(fs, seen, marks)
    ensures forall k :: k in marks ==> k < RequiredBefore(fs, Count(fs))
    ensures AllSeen(fs, seen) <==> forall k :: 0 <= k < RequiredBefore(fs, Count(fs)) ==> k in marks
  {
    hide RequiredBefore;
    var n := RequiredBefore(fs, Count(fs));
    if AllSeen(fs, seen) {
      forall k | 0 <= k < n
        ensures k in marks
      {
        var i := RequiredAt(fs, k, Count(fs));
      }
    }
    if forall k :: 0 <= k < n ==> k in marks {
      forall i | 0 <= i < Count(fs) && FieldAt(fs, i).rule.Required?
        ensures i in seen
      {
        RequiredStep(fs, i);
        RequiredMono(fs, i + 1, Count(fs));
      }
    }
  }

  // ----- the iterator -----

  /** No field of a stretch of the table has the tag. */
  ghost predicate Missing(fs: Fields, tag: nat, lo: nat, hi: nat) {
    forall j :: lo <= j < hi && j < Count(fs) ==> FieldAt(fs, j).tag != tag
  }

  lemma {:induction false} FindMissing(fs: Fields, tag: nat)
    requires Missing(fs, tag, 0, Count(fs))
    ensures Find(fs, tag) == Count(fs)
  {
    if fs.Fields? {
      assert FieldAt(fs, 0).tag != tag;
      forall j | 0 <= j < Count(fs.rest)
        ensures FieldAt(fs.rest, j).tag != tag
      {
        assert FieldAt(fs, j + 1).tag != tag;
      }
      FindMissing(fs.rest, tag);
    }
  }

  lemma {:induction false} FindFirst(fs: Fields, i: nat)
    requires i < Count(fs)
    ensures Find(fs, FieldAt(fs, i).tag) <= i
  {
    if i > 0 {
      FindFirst(fs.rest, i - 1);
    }
  }

  /** A position in the table, and the structure that is being filled. */
  class FieldIterator {
    const fields: Fields
    var fieldIndex: nat
    var requiredFieldIndex: nat
    var dest: seq<Slot>

    ghost predicate Valid()
      reads this
    {
      && |dest| == Count(fields)
      && (fieldIndex < Count(fields) || (fields.NoFields? && fieldIndex == 0))
      && requiredFieldIndex == RequiredBefore(fields, fieldIndex)
    }

    constructor (fields: Fields, dest: seq<Slot>)
      requires |dest| == Count(fields)
      ensures Valid() && this.fields == fields && this.dest == dest && fieldIndex == 0
    {
      this.fields, this.dest := fields, dest;
      fieldIndex, requiredFieldIndex := 0, 0;
    }

    /** pb_field_next(): the field after this one, or the first one again. */
    method Next() returns (notWrapped: bool)
      requires Valid()
      modifies this`fieldIndex, this`requiredFieldIndex
      ensures Valid()
      ensures notWrapped == (old(fieldIndex) + 1 < Count(fields))
      ensures fieldIndex == if notWrapped then old(fieldIndex) + 1 else 0
    {
      if fields.NoFields? {
        return false;
      }
      RequiredStep(fields, fieldIndex);
      if FieldAt(fields, fieldIndex).rule.Required? {
        requiredFieldIndex := requiredFieldIndex + 1;
      }
      fieldIndex := fieldIndex + 1;
      notWrapped := true;
      if fieldIndex == Count(fields) {
        fieldIndex, requiredFieldIndex := 0, 0;
        notWrapped := false;
      }
    }

    /**
     pb_field_find(): the search starts at the current field and goes once round the table; it finds a field with the
     tag iff there is one, and otherwise ends where it started.
     */
    method FindTag(tag: nat) returns (found: bool)
      requires Valid()
      modifies this`fieldIndex, this`requiredFieldIndex
      ensures Valid()
      ensures found <==> Find(fields, tag) < Count(fields) || (fields.NoFields? && tag == 0)
      ensures found && fields.Fields? ==> FieldAt(fields, fieldIndex).tag == tag
      ensures !found ==> fieldIndex == old(fieldIndex)
    {
      var start := fieldIndex;
      while true
        invariant Valid() && dest == old(dest)
        invariant start < Count(fields) || fields.NoFields?
        invariant if start <= fieldIndex then Missing(fields, tag, start, fieldIndex)
                  else Missing(fields, tag, start, Count(fields)) && Missing(fields, tag, 0, fieldIndex)
        decreases if start <= fieldIndex then Count(fields) - fieldIndex + start else start - fieldIndex
      {
        if (if fields.NoFields? then 0 else FieldAt(fields, fieldIndex).tag) == tag {
          if fields.Fields? {
            FindFirst(fields, fieldIndex);
          }
          return true;
        }
        var _ := Next();
        if fieldIndex == start {
          FindMissing(fields, tag);
          return false;
        }
      }
    }

    /** How many fields of the table are required, found by going on to its end. */
    method CountRequired() returns (count: nat)
      requires Valid()
      modifies this`fieldIndex, this`requiredFieldIndex
      ensures Valid() && count == RequiredBefore(fields, Count(fields))
    {
      var last: bool, notWrapped := true, true;
      count := 0;
      while notWrapped
        invariant Valid() && dest == old(dest)
        invariant !notWrapped && fields.Fields? ==>
            RequiredBefore(fields, Count(fields)) == count + if last then 1 else 0
        invariant !notWrapped && fields.NoFields? ==> count == 0
        decreases if notWrapped then Count(fields) - fieldIndex + 1 else 0
      {
        count := requiredFieldIndex;
        last := fields.NoFields? || FieldAt(fields, fieldIndex).rule.Required?;
        if fields.Fields? {
          RequiredStep(fields, fieldIndex);
        }
        notWrapped := Next();
      }
      if last && fields.Fields? {
        count := count + 1;
      }
    }
  }

  // ----- substreams and skipping -----

  /** What a parser on byte strings gives, and what is left. */
  ghost predicate Gave<T(!new)>(r: Option<(T, seq<Byte>)>, ok: bool, value: T, left: seq<Byte>) {
    if r.None? then !ok else ok && value == r.value.0 && left == r.value.1
  }

  /** The same, with what is beyond. */
  ghost predicate GaveAll<T(!new)>(r: Option<(T, seq<Byte>, seq<Byte>)>, ok: bool, value: T, left: seq<Byte>,
      beyond: seq<Byte>) {
    if r.None? then !ok else ok && value == r.value.0 && left == r.value.1 && beyond == r.value.2
  }

  /** pb_read() of a number of bytes. */
  method ReadBytes(stream: InputStream, count: nat) returns (ok: bool, bytes: seq<Byte>)
    modifies stream`left
    ensures ok == (count <= |old(stream.left)|)
    ensures if ok then bytes == old(stream.left)[..count] && stream.left == old(stream.left)[count..]
            else stream.left == old(stream.left)
  {
    if |stream.left| < count {
      return false, [];
    }
    bytes := stream.left[..count];
    stream.left := stream.left[count..];
    ok := true;
  }

  /** pb_make_string_substream(): the substream has the bytes of the window, the stream those after it. */
  method MakeSubstream(stream: InputStream) returns (ok: bool, substream: InputStream)
    modifies stream`left
    ensures fresh(substream)
    ensures Gave(ParseString(old(stream.left)), ok, substream.left, stream.left)
    ensures ok ==> substream.beyond == stream.left + stream.beyond
  {
    hide ParseVarint32;
    var size;
    ok, size := stream.DecodeVarint32();
    if !ok || |stream.left| < size {
      substream := new InputStream([], []);
      return false, substream;
    }
    substream := new InputStream(stream.left[..size], stream.left[size..] + stream.beyond);
    stream.left := stream.left[size..];
  }

  /** pb_close_string_substream(): the stream goes on where the substream ended, with as many bytes left as it had. */
  method CloseSubstream(stream: InputStream, substream: InputStream)
    requires stream != substream && |stream.left| <= |substream.left| + |substream.beyond|
    modifies stream
    ensures var ahead, n := substream.left + substream.beyond, |old(stream.left)|;
            stream.left == ahead[..n] && stream.beyond == ahead[n..]
  {
    var ahead := substream.left + substream.beyond;
    stream.beyond := ahead[|stream.left|..];
    stream.left := ahead[..|stream.left|];
  }

  lemma NothingLeft(s: seq<Byte>, beyond: seq<Byte>)
    ensures ([] + (s + beyond))[..|s|] == s && ([] + (s + beyond))[|s|..] == beyond
  {
  }

  /** pb_skip_field(). */
  method SkipField(stream: InputStream, wireType: nat) returns (ok: bool)
    modifies stream`left
    ensures var r := Skip(old(stream.left), wireType); ok == r.Some? && (ok ==> stream.left == r.value)
  {
    hide ParseVarint32;
    var skipped;
    if wireType == 0 {
      var byte: Byte := 0x80;
      ok := true;
      while ok && byte >= 128
        invariant ok && byte >= 128 ==> SkipVarint(stream.left) == SkipVarint(old(stream.left))
        invariant ok && byte < 128 ==> SkipVarint(old(stream.left)) == Some(stream.left)
        invariant !ok ==> SkipVarint(old(stream.left)) == None
        decreases ok, |stream.left|
      {
        ok, byte := stream.ReadByte();
      }
    } else if wireType == 1 {
      ok, skipped := ReadBytes(stream, 8);
    } else if wireType == 2 {
      var length;
      ok, length := stream.DecodeVarint32();
      if ok {
        ok, skipped := ReadBytes(stream, length);
      }
    } else if wireType == 5 {
      ok, skipped := ReadBytes(stream, 4);
    } else {
      ok := false;
    }
  }

  // ----- members -----

  lemma DefaultStep(dest: seq<Slot>, field: Fields, slot: Slot)
    requires field.Fields? && slot == DefaultSlot(field.first)
    ensures dest + DefaultSlots(field) == dest + [slot] + DefaultSlots(field.rest)
  {
    hide DefaultSlot;
  }

  /** pb_message_set_to_defaults(). */
  method SetToDefaults(fields: Fields) returns (dest: seq<Slot>)
    ensures dest == DefaultSlots(fields)
    decreases fields, 0
  {
    var field := fields;
    dest := [];
    while field.Fields?
      invariant field == fields || field < fields
      invariant dest + DefaultSlots(field) == DefaultSlots(fields)
      decreases field
    {
      var f := field.first;
      var slot := Many([]);
      if !f.rule.Repeated? {
        var v := f.default;
        if f.kind.Submessage? {
          var slots := SetToDefaults(f.kind.fields);
          v := Message(slots);
        }
        slot := if f.rule.Optional? then Maybe(false, v) else One(v);
      }
      DefaultStep(dest, field, slot);
      dest := dest + [slot];
      field := field.rest;
    }
  }

  /** The decoders of single values: pb_dec_varint() to pb_dec_string(). */
  method DecodeScalar(stream: InputStream, k: Kind) returns (ok: bool, v: Value)
    requires !k.Submessage?
    modifies stream`left
    ensures Gave(ParseScalar(k, old(stream.left)), ok, v, stream.left)
  {
    hide ParseVarint, Pow256, UnZigZag, Signed;
    v := Number(0);
    match k
    case Varint(size) =>
      var n;
      ok, n := stream.DecodeVarint();
      if !ok || size !in {1, 2, 4, 8} {
        return false, v;
      }
      v := Number(n % Pow256(size));
    case Svarint(size) =>
      var n;
      ok, n := stream.DecodeSvarint();
      if !ok || size !in {4, 8} {
        return false, v;
      }
      v := Number(Signed(n, size));
    case Fixed32 =>
      var bytes;
      ok, bytes := ReadBytes(stream, 4);
      v := Octets(bytes);
    case Fixed64 =>
      var bytes;
      ok, bytes := ReadBytes(stream, 8);
      v := Octets(bytes);
    case Data(capacity) =>
      var n, bytes;
      ok, n := stream.DecodeVarint32();
      if !ok || n > capacity {
        return false, v;
      }
      ok, bytes := ReadBytes(stream, n);
      v := Octets(bytes);
    case Text(size) =>
      var n, bytes;
      ok, n := stream.DecodeVarint32();
      if !ok || (n + 1) % TWO32 > size {
        return false, v;
      }
      ok, bytes := ReadBytes(stream, n);
      v := Octets(bytes);
  }

  /** A value of any kind into a member that holds `now`; pb_dec_submessage() decodes a substream of its own. */
  method DecodeValue(stream: InputStream, k: Kind, now: Value) returns (ok: bool, v: Value)
    requires DecodableKind(k)
    modifies stream
    ensures GaveAll(ParseValue(k, old(stream.left), old(stream.beyond), now), ok, v, stream.left, stream.beyond)
    decreases |stream.left|, 0
  {
    hide ParseFields, Decodable;
    if !k.Submessage? {
      ok, v := DecodeScalar(stream, k);
      return;
    }
    var substream, dest;
    ok, substream := MakeSubstream(stream);
    if !ok || !now.Message? || |now.slots| != Count(k.fields) {
      return false, Number(0);
    }
    ok, dest := DecodeMessage(substream, k.fields, now.slots);
    v := Message(dest);
    if ok {
      CloseSubstream(stream, substream);
    }
  }

  /** The loop over a packed array. */
  method DecodePacked(stream: InputStream, k: Kind, before: seq<Value>, capacity: nat)
      returns (ok: bool, items: seq<Value>)
    requires Packable(k)
    modifies stream`left
    ensures var r := ParsePacked(k, old(stream.left), before, capacity);
            if r.Some? then ok && items == r.value && stream.left == [] else !ok
  {
    hide ParseScalar;
    items := before;
    ok := true;
    while ok && stream.left != [] && |items| < capacity
      invariant ok ==>
                  ParsePacked(k, stream.left, items, capacity) == ParsePacked(k, old(stream.left), before, capacity)
      invariant !ok ==> ParsePacked(k, old(stream.left), before, capacity).None?
      decreases ok, |stream.left|
    {
      var v;
      ok, v := DecodeScalar(stream, k);
      items := items + [v];
    }
    ok := ok && stream.left == [];
  }

  /** decode_static_field(): the current member takes what the stream has for it, and no other member changes. */
  method DecodeField(stream: InputStream, wireType: nat, iter: FieldIterator) returns (ok: bool)
    requires iter.Valid() && iter.fields.Fields? && DecodableKind(FieldAt(iter.fields, iter.fieldIndex).kind)
    modifies stream, iter`dest
    ensures iter.Valid()
    ensures var i := iter.fieldIndex;
            && iter.dest == old(iter.dest)[i := iter.dest[i]]
            && GaveAll(ParseSlot(FieldAt(iter.fields, i), wireType, old(stream.left), old(stream.beyond),
                old(iter.dest)[i]),
                       ok, iter.dest[i], stream.left, stream.beyond)
    decreases |stream.left|, 2
  {
    hide ParseValue, ParsePacked, DecodableKind;
    var i, f := iter.fieldIndex, FieldAt(iter.fields, iter.fieldIndex);
    var v;
    match iter.dest[i]
    case One(now) =>
      if !f.rule.Required? {
        return false;
      }
      ok, v := DecodeValue(stream, f.kind, now);
      iter.dest := iter.dest[i := One(v)];
    case Maybe(_, now) =>
      if !f.rule.Optional? {
        return false;
      }
      iter.dest := iter.dest[i := Maybe(true, now)];
      ok, v := DecodeValue(stream, f.kind, now);
      iter.dest := iter.dest[i := Maybe(true, v)];
    case Many(items) =>
      if !f.rule.Repeated? {
        return false;
      }
      if wireType == 2 && Packable(f.kind) {
        var substream, more;
        ok, substream := MakeSubstream(stream);
        if !ok {
          return;
        }
        ok, more := DecodePacked(substream, f.kind, items, f.rule.capacity);
        if ok {
          NothingLeft(stream.left, stream.beyond);
          CloseSubstream(stream, substream);
        }
        iter.dest := iter.dest[i := Many(more)];
      } else {
        if |items| >= f.rule.capacity {
          return false;
        }
        var now := Number(0);
        if f.kind.Submessage? {
          var slots := SetToDefaults(f.kind.fields);
          now := Message(slots);
        }
        ok, v := DecodeValue(stream, f.kind, now);
        iter.dest := iter.dest[i := Many(items + [v])];
      }
  }

  /** One turn of the loop of ParseFields, after a tag was read. */
  lemma TagFound(fs: Fields, s: seq<Byte>, beyond: seq<Byte>, slots: seq<Slot>, seen: set<nat>, i: nat)
    requires |slots| == Count(fs) && Distinct(fs) && i < Count(fs)
    requires s != [] && ParseVarint32(s).Done? && ParseVarint32(s).value != 0
    requires FieldAt(fs, i).tag == ParseVarint32(s).value / 8
    ensures var f, t := FieldAt(fs, i), ParseVarint32(s); var v := ParseSlot(f, t.value % 8, t.rest, beyond, slots[i]);
            ParseFields(fs, s, beyond, slots, seen)
            == if v.None? then None
               else ParseFields(fs, v.value.1, v.value.2, slots[i := v.value.0],
                                if f.rule.Required? then seen + {i} else seen)
  {
    hide ParseVarint32, ParseSlot, Distinct, AllSeen;
    FindAt(fs, i);
  }

  lemma TagUnknown(fs: Fields, s: seq<Byte>, beyond: seq<Byte>, slots: seq<Slot>, seen: set<nat>)
    requires |slots| == Count(fs) && s != [] && ParseVarint32(s).Done? && ParseVarint32(s).value != 0
    requires Find(fs, ParseVarint32(s).value / 8) == Count(fs) && !(fs.NoFields? && ParseVarint32(s).value / 8 == 0)
    ensures var t := ParseVarint32(s); var rest := Skip(t.rest, t.value % 8);
            ParseFields(fs, s, beyond, slots, seen) == if rest.None? then None
                else ParseFields(fs, rest.value, beyond, slots, seen)
  {
    hide ParseVarint32, Skip, AllSeen;
  }

  /**
   A message without fields skips what it does not know, except that a field with number zero is refused: it is taken
   for the mark at the end of the table.
   */
  lemma TagOfNothing(s: seq<Byte>, beyond: seq<Byte>, seen: set<nat>)
    requires s != [] && ParseVarint32(s).Done? && ParseVarint32(s).value != 0
    ensures var t := ParseVarint32(s); var rest := Skip(t.rest, t.value % 8);
            && (t.value / 8 == 0 ==> ParseFields(NoFields, s, beyond, [], seen) == None)
            && (t.value / 8 != 0 ==> ParseFields(NoFields, s, beyond, [], seen)
                                     == if rest.None? then None
                                        else ParseFields(NoFields, rest.value, beyond, [], seen))
  {
    hide ParseVarint32, Skip, AllSeen;
  }

  /** One field of four bytes in a message without fields is accepted iff its number is not zero. */
  lemma FieldInNothing(tag: nat, beyond: seq<Byte>)
    requires tag < 0x2000_0000
    ensures Parse(NoFields, PrintTag(tag, 5) + [0, 0, 0, 0], beyond) == if tag == 0 then None
            else Some(([], [], beyond))
  {
    hide ParseVarint32, PrintVarint, ParseFields;
    var rest: seq<Byte> := [0, 0, 0, 0];
    var s := PrintTag(tag, 5) + rest;
    Varint32Trip(tag * 8 + 5, rest);
    assert (tag * 8 + 5) / 8 == tag && (tag * 8 + 5) % 8 == 5;
    TagOfNothing(s, beyond, {});
    assert rest[4..] == [];
    TagEnds(NoFields, [], beyond, [], {});
  }

  /** What ends the loop: no bytes, a tag that cannot be read, or a tag of zero. */
  lemma TagEnds(fs: Fields, s: seq<Byte>, beyond: seq<Byte>, slots: seq<Slot>, seen: set<nat>)
    requires |slots| == Count(fs)
    requires s == [] || ParseVarint32(s).Fail? || ParseVarint32(s).value == 0
    ensures ParseFields(fs, s, beyond, slots, seen)
            == if s == [] then Ending(fs, slots, seen, [], beyond)
               else if ParseVarint32(s).Done? then Ending(fs, slots, seen, ParseVarint32(s).rest, beyond)
               else if ParseVarint32(s).left == [] then Ending(fs, slots, seen, [], beyond)
               else None
  {
    hide ParseVarint32, AllSeen;
  }

  /** pb_decode_noinit(): field after field, then the check for required ones. */
  method DecodeMessage(stream: InputStream, fields: Fields, slots: seq<Slot>) returns (ok: bool, dest: seq<Slot>)
    requires |slots| == Count(fields) && Decodable(fields)
    modifies stream
    ensures GaveAll(ParseFields(fields, old(stream.left), old(stream.beyond), slots, {}), ok, dest, stream.left,
            stream.beyond)
    decreases |stream.left|, 3
  {
    hide ParseFields, ParseVarint32, ParseSlot, Skip, Find, Distinct, AllSeen, DecodableFields, DecodableKind, Marks,
        RequiredBefore;
    var fieldsSeen := new SeenFields();
    var iter := new FieldIterator(fields, slots);
    ghost var seen: set<nat> := {};
    ghost var goal := ParseFields(fields, stream.left, stream.beyond, slots, {});
    NoMarks(fields);
    while stream.left != []
      invariant fresh(iter) && fresh(fieldsSeen) && fresh(fieldsSeen.fieldsSeen)
      invariant iter.Valid() && iter.fields == fields && fieldsSeen.Valid()
      invariant |stream.left| <= |old(stream.left)|
      invariant Marks(fields, seen, fieldsSeen.seen)
      invariant ParseFields(fields, stream.left, stream.beyond, iter.dest, seen) == goal
      decreases |stream.left|
    {
      ghost var s, beyond := stream.left, stream.beyond;
      var more, eof, wireType, tag := stream.DecodeTag();
      if !more {
        TagEnds(fields, s, beyond, iter.dest, seen);
        if eof {
          break;
        }
        return false, iter.dest;
      }
      ghost var dest0, marks := iter.dest, fieldsSeen.seen;
      var found := iter.FindTag(tag);
      if !found {
        TagUnknown(fields, s, beyond, dest0, seen);
        ok := SkipField(stream, wireType);
        if !ok {
          return false, iter.dest;
        }
        continue;
      }
      if fields.NoFields? {
        // The mark at the end of the table stands for a required number of no bytes, which cannot be decoded.
        TagOfNothing(s, beyond, seen);
        return false, iter.dest;
      }
      ghost var i := iter.fieldIndex;
      TagFound(fields, s, beyond, dest0, seen, i);
      DecodableAt(fields, i);
      if FieldAt(fields, iter.fieldIndex).rule.Required? && iter.requiredFieldIndex < 64 {
        fieldsSeen.Mark(iter.requiredFieldIndex);
      }
      MarksNext(fields, seen, marks, i);
      seen := if FieldAt(fields, i).rule.Required? then seen + {i} else seen;
      ok := DecodeField(stream, wireType, iter);
      if !ok {
        return false, iter.dest;
      }
    }
    if stream.left == [] {
      TagEnds(fields, stream.left, stream.beyond, iter.dest, seen);
    }
    assert goal == Ending(fields, iter.dest, seen, stream.left, stream.beyond);
    MarksEnd(fields, seen, fieldsSeen.seen);
    dest := iter.dest;
    var count := iter.CountRequired();
    ok := fieldsSeen.AllPresent(count);
  }

  /** pb_decode(). */
  method Decode(stream: InputStream, fields: Fields) returns (ok: bool, dest: seq<Slot>)
    requires Decodable(fields)
    modifies stream
    ensures GaveAll(Parse(fields, old(stream.left), old(stream.beyond)), ok, dest, stream.left, stream.beyond)
  {
    hide ParseFields, Decodable;
    dest := SetToDefaults(fields);
    ok, dest := DecodeMessage(stream, fields, dest);
  }

  /** A message that is encoded and decoded again, by the two machines. */
  method EncodeThenDecode(fields: Fields, slots: seq<Slot>, room: nat) returns (ok: bool, dest: seq<Slot>)
    requires Decodable(fields) && Tags(fields) && TypedSlots(fields, slots)
    requires room < TWO32
    ensures ok <==> PrintSlots(fields, slots).Some? && |PrintSlots(fields, slots).value| <= room
    ensures ok ==> |slots| == Count(fields) && dest == NormalSlots(fields, slots)
  {
    hide PrintSlots, Tags, TypedSlots, NormalSlots, ParseFields, DecodableFields, Distinct;
    var out := new OutputStream(false, room, []);
    ok := EncodeMessage(out, fields, slots);
    if ok {
      RoundTrip(fields, slots, []);
      assert out.output == PrintSlots(fields, slots).value;
      var stream := new InputStream(out.output, []);
      ok, dest := Decode(stream, fields);
    } else {
      dest := [];
    }
  }
}
