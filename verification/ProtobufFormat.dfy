/**
 The protocol buffers that pb_encode.c writes and pb_decode.c reads, for messages described by a table of static
 fields: as a printer and a parser on byte strings.
 */
module ProtobufFormat {
  import opened Arith
  import opened Bytes
  import opened Bignum
  import opened Wrappers

  // ----- tables and messages -----

  /** The low-level type of a field. `size` is data_size; `capacity` what a bytes field can hold. */
  datatype Kind =
    | Varint(size: nat)
    | Svarint(size: nat)
    | Fixed32
    | Fixed64
    | Data(capacity: nat)
    | Text(size: nat)
    | Submessage(fields: Fields)

  datatype Rule = Required | Optional | Repeated(capacity: nat)

  datatype Field = Field(tag: nat, rule: Rule, kind: Kind, default: Value)

  datatype Fields = NoFields | Fields(first: Field, rest: Fields)

  /** What a structure member holds: a number, the bytes of a fixed, bytes or string field, or a structure. */
  datatype Value = Number(n: int) | Octets(bytes: seq<Byte>) | Message(slots: seq<Slot>)

  /** A member with its has-flag or its count. */
  datatype Slot = One(value: Value) | Maybe(present: bool, value: Value) | Many(items: seq<Value>)

  function Count(fs: Fields): nat {
    if fs.NoFields? then 0 else 1 + Count(fs.rest)
  }

  function FieldAt(fs: Fields, i: nat): Field
    requires i < Count(fs)
  {
    if i == 0 then fs.first else FieldAt(fs.rest, i - 1)
  }

  predicate Packable(k: Kind) {
    k.Varint? || k.Svarint? || k.Fixed32? || k.Fixed64?
  }

  // ----- printing -----

  /** Seven bits to a byte, least significant first; all bytes but the last have the top bit set. */
  function PrintVarint(n: nat): (s: seq<Byte>)
    ensures |s| >= 1
  {
    if n < 128 then [n] else [n % 128 + 128] + PrintVarint(n / 128)
  }

  function ZigZag(n: int): nat {
    if n < 0 then -2 * n - 1 else 2 * n
  }

  function WireType(k: Kind): nat {
    match k
    case Varint(_) => 0
    case Svarint(_) => 0
    case Fixed64 => 1
    case Fixed32 => 5
    case _ => 2
  }

  function PrintTag(tag: nat, wireType: nat): (s: seq<Byte>)
    ensures |s| >= 1
  {
    PrintVarint(tag * 8 + wireType)
  }

  function PrintString(s: seq<Byte>): (r: seq<Byte>)
    ensures |r| >= 1
  {
    PrintVarint(|s|) + s
  }

  /** What a member of `size` bytes can hold. */
  predicate Unsigned(v: Value, size: nat) {
    v.Number? && 0 <= v.n < Pow256(size)
  }

  predicate IsSigned(v: Value, size: nat) {
    v.Number? && -(Pow256(size) as int) <= 2 * v.n < Pow256(size)
  }

  /**
   The string in a member of `size` bytes: up to the first zero, or all of them. Bytes of the member that are not given
   are zero.
   */
  function CString(bytes: seq<Byte>, size: nat): (s: seq<Byte>)
    ensures |s| <= size && |s| <= |bytes| && s == bytes[..|s|] && 0 !in s
    ensures |s| == size || |s| == |bytes| || bytes[|s|] == 0
  {
    if bytes == [] || size == 0 || bytes[0] == 0 then [] else [bytes[0]] + CString(bytes[1..], size - 1)
  }

  /** A value without its tag, or None where the encoder reports an error. */
  function PrintValue(k: Kind, v: Value): (r: Option<seq<Byte>>)
    decreases k, 0
  {
    match k
    case Varint(size) => if size in {1, 2, 4, 8} && Unsigned(v, size) then Some(PrintVarint(v.n)) else None
    case Svarint(size) => if size in {4, 8} && IsSigned(v, size) then Some(PrintVarint(ZigZag(v.n))) else None
    case Fixed32 => if v.Octets? && |v.bytes| == 4 then Some(v.bytes) else None
    case Fixed64 => if v.Octets? && |v.bytes| == 8 then Some(v.bytes) else None
    case Data(capacity) => if v.Octets? && |v.bytes| <= capacity then Some(PrintString(v.bytes)) else None
    case Text(size) => if v.Octets? then Some(PrintString(CString(v.bytes, size))) else None
    case Submessage(fields) =>
      if !v.Message? then None
      else
        var body :- PrintSlots(fields, v.slots);
        Some(PrintString(body))
  }

  /** Items one after the other, each with the given prefix. */
  function PrintItems(k: Kind, prefix: seq<Byte>, items: seq<Value>): (r: Option<seq<Byte>>)
    decreases k, |items| + 1
  {
    if items == [] then Some([])
    else
      var first :- PrintValue(k, items[0]);
      var others :- PrintItems(k, prefix, items[1..]);
      Some(prefix + first + others)
  }

  function PrintSlot(f: Field, slot: Slot): (r: Option<seq<Byte>>)
    decreases f, 0
  {
    match f.rule
    case Required =>
      if !slot.One? then None
      else
        var v :- PrintValue(f.kind, slot.value);
        Some(PrintTag(f.tag, WireType(f.kind)) + v)
    case Optional =>
      if !slot.Maybe? then None
      else if !slot.present then Some([])
      else
        var v :- PrintValue(f.kind, slot.value);
        Some(PrintTag(f.tag, WireType(f.kind)) + v)
    case Repeated(capacity) =>
      if !slot.Many? then None
      else if slot.items == [] then Some([])
      else if |slot.items| > capacity then None
      else if Packable(f.kind) then
        var body :- PrintItems(f.kind, [], slot.items);
        Some(PrintTag(f.tag, 2) + PrintString(body))
      else PrintItems(f.kind, PrintTag(f.tag, WireType(f.kind)), slot.items)
  }

  function PrintSlots(fs: Fields, slots: seq<Slot>): (r: Option<seq<Byte>>)
    decreases fs, 0
  {
    if fs.NoFields? then (if slots == [] then Some([]) else None)
    else if slots == [] then None
    else
      var first :- PrintSlot(fs.first, slots[0]);
      var others :- PrintSlots(fs.rest, slots[1..]);
      Some(first + others)
  }

  // ----- parsing -----

  /** A failed read leaves behind the bytes that were not consumed. */
  datatype Read<T> = Fail(left: seq<Byte>) | Done(value: T, rest: seq<Byte>)

  /** A varint into `width` bits: bits beyond the width are lost, and too many bytes are an error. */
  function ParseVarint(s: seq<Byte>, bit: nat, sofar: nat, width: nat): (r: Read<nat>)
    ensures r.Done? ==> |r.rest| < |s|
    decreases |s|
  {
    if bit >= width || s == [] then Fail(s)
    else
      var result := (sofar + (s[0] % 128) * Pow2(bit)) % Pow2(width);
      if s[0] >= 128 then ParseVarint(s[1..], bit + 7, result, width) else Done(result, s[1..])
  }

  function ParseVarint32(s: seq<Byte>): (r: Read<nat>)
    ensures r.Done? ==> |r.rest| < |s|
  {
    ParseVarint(s, 0, 0, 32)
  }

  function ParseVarint64(s: seq<Byte>): (r: Read<nat>)
    ensures r.Done? ==> |r.rest| < |s|
  {
    ParseVarint(s, 0, 0, 64)
  }

  function UnZigZag(n: nat): int {
    if n % 2 == 1 then -(n / 2) - 1 else n / 2
  }

  /** The conversion of a 64-bit number to a signed number of `size` bytes. */
  function Signed(n: int, size: nat): int {
    var m := n % Pow256(size);
    if 2 * m < Pow256(size) then m else m - Pow256(size)
  }

  function ParseFixed(s: seq<Byte>, size: nat): (r: Option<(Value, seq<Byte>)>)
    ensures r.Some? && size > 0 ==> |r.value.1| < |s|
  {
    if |s| < size then None else Some((Octets(s[..size]), s[size..]))
  }

  /** A length and that many bytes, as the window of a substream. */
  function ParseString(s: seq<Byte>): (r: Option<(seq<Byte>, seq<Byte>)>)
    ensures r.Some? ==> |r.value.0| < |s| && |r.value.1| < |s|
  {
    var n := ParseVarint32(s);
    if n.Fail? || |n.rest| < n.value then None else Some((n.rest[..n.value], n.rest[n.value..]))
  }

  function DefaultValue(k: Kind, default: Value): Value
    decreases k, 0
  {
    match k
    case Submessage(fields) => Message(DefaultSlots(fields))
    case _ => default
  }

  function DefaultSlot(f: Field): Slot
    decreases f, 0
  {
    match f.rule
    case Required => One(DefaultValue(f.kind, f.default))
    case Optional => Maybe(false, DefaultValue(f.kind, f.default))
    case Repeated(_) => Many([])
  }

  function DefaultSlots(fs: Fields): (slots: seq<Slot>)
    ensures |slots| == Count(fs)
    decreases fs, 0
  {
    if fs.NoFields? then [] else [DefaultSlot(fs.first)] + DefaultSlots(fs.rest)
  }

  /** The position of a tag in the table, or the number of fields. */
  function Find(fs: Fields, tag: nat): (i: nat)
    ensures i <= Count(fs) && (i < Count(fs) ==> FieldAt(fs, i).tag == tag)
  {
    if fs.NoFields? || fs.first.tag == tag then 0 else 1 + Find(fs.rest, tag)
  }

  function SkipVarint(s: seq<Byte>): (r: Option<seq<Byte>>)
    ensures r.Some? ==> |r.value| < |s|
  {
    if s == [] then None else if s[0] >= 128 then SkipVarint(s[1..]) else Some(s[1..])
  }

  function Skip(s: seq<Byte>, wireType: nat): (r: Option<seq<Byte>>)
    ensures r.Some? ==> |r.value| <= |s|
  {
    if wireType == 0 then SkipVarint(s)
    else if wireType == 1 then (if |s| < 8 then None else Some(s[8..]))
    else if wireType == 2 then
      var w := ParseString(s);
      if w.None? then None else Some(w.value.1)
    else if wireType == 5 then (if |s| < 4 then None else Some(s[4..]))
    else None
  }

  /**
   A value into a member that holds `now`; only a structure keeps anything of what was there. `s` are the bytes that are
   left and `beyond` those that follow them in the buffer. If a submessage ends before its window does, reading goes on
   where it ended, but as many bytes are left as follow the window; so the last ones of these fall beyond.
   */
  function ParseValue(k: Kind, s: seq<Byte>, beyond: seq<Byte>, now: Value): (r: Option<(Value, seq<Byte>, seq<Byte>)>)
    ensures r.Some? ==> |r.value.1| < |s| && |r.value.2| >= |beyond|
    decreases |s|, 0
  {
    match k
    case Submessage(fields) =>
      var w :- ParseString(s);
      if !now.Message? || |now.slots| != Count(fields) then None
      else
        var m :- ParseFields(fields, w.0, w.1 + beyond, now.slots, {});
        var ahead := m.1 + m.2;
        Some((Message(m.0), ahead[..|w.1|], ahead[|w.1|..]))
    case _ =>
      var v :- ParseScalar(k, s);
      Some((v.0, v.1, beyond))
  }

  function ParseScalar(k: Kind, s: seq<Byte>): (r: Option<(Value, seq<Byte>)>)
    requires !k.Submessage?
    ensures r.Some? ==> |r.value.1| < |s|
  {
    match k
    case Varint(size) =>
      var n := ParseVarint64(s);
      if n.Fail? || size !in {1, 2, 4, 8} then None else Some((Number(n.value % Pow256(size)), n.rest))
    case Svarint(size) =>
      var n := ParseVarint64(s);
      if n.Fail? || size !in {4, 8} then None else Some((Number(Signed(UnZigZag(n.value), size)), n.rest))
    case Fixed32 => ParseFixed(s, 4)
    case Fixed64 => ParseFixed(s, 8)
    case Data(capacity) =>
      var n := ParseVarint32(s);
      if n.Fail? || n.value > capacity || |n.rest| < n.value then None
      else Some((Octets(n.rest[..n.value]), n.rest[n.value..]))
    case Text(size) =>
      var n := ParseVarint32(s);
      if n.Fail? || (n.value + 1) % TWO32 > size || |n.rest| < n.value then None
      else Some((Octets(n.rest[..n.value]), n.rest[n.value..]))
  }

  /** The items of a packed array, until the bytes or the room run out. */
  function ParsePacked(k: Kind, s: seq<Byte>, items: seq<Value>, capacity: nat): (r: Option<seq<Value>>)
    requires Packable(k)
    decreases |s|
  {
    if s == [] then Some(items)
    else if |items| >= capacity then None
    else
      var v :- ParseScalar(k, s);
      ParsePacked(k, v.1, items + [v.0], capacity)
  }

  function ParseSlot(f: Field, wireType: nat, s: seq<Byte>, beyond: seq<Byte>, slot: Slot)
    : (r: Option<(Slot, seq<Byte>, seq<Byte>)>)
    ensures r.Some? ==> |r.value.1| < |s| && |r.value.2| >= |beyond|
    decreases |s|, 2
  {
    match f.rule
    case Required =>
      if !slot.One? then None
      else
        var v :- ParseValue(f.kind, s, beyond, slot.value);
        Some((One(v.0), v.1, v.2))
    case Optional =>
      if !slot.Maybe? then None
      else
        var v :- ParseValue(f.kind, s, beyond, slot.value);
        Some((Maybe(true, v.0), v.1, v.2))
    case Repeated(capacity) =>
      if !slot.Many? then None
      else if wireType == 2 && Packable(f.kind) then
        var w :- ParseString(s);
        var items :- ParsePacked(f.kind, w.0, slot.items, capacity);
        Some((Many(items), w.1, beyond))
      else if |slot.items| >= capacity then None
      else
        var v :- ParseValue(f.kind, s, beyond, DefaultValue(f.kind, Number(0)));
        Some((Many(slot.items + [v.0]), v.1, v.2))
  }

  predicate AllSeen(fs: Fields, seen: set<nat>) {
    forall i :: 0 <= i < Count(fs) && FieldAt(fs, i).rule.Required? ==> i in seen
  }

  /** What was parsed, what was not read and what is beyond, if nothing required is missing. */
  function Ending(fs: Fields, slots: seq<Slot>, seen: set<nat>, left: seq<Byte>, beyond: seq<Byte>)
    : Option<(seq<Slot>, seq<Byte>, seq<Byte>)>
  {
    if AllSeen(fs, seen) then Some((slots, left, beyond)) else None
  }

  /**
   Field after field until the stream ends, or seems to: a tag that is cut off by the end of the stream, or a tag of
   zero, ends the message too. Then every required field must have been seen. A message without fields takes a tag
   number of zero for the mark at the end of its table, which cannot be decoded.
   */
  function ParseFields(fs: Fields, s: seq<Byte>, beyond: seq<Byte>, slots: seq<Slot>, seen: set<nat>)
    : (r: Option<(seq<Slot>, seq<Byte>, seq<Byte>)>)
    requires |slots| == Count(fs)
    ensures r.Some? ==> |r.value.2| >= |beyond|
    decreases |s|, 3
  {
    if s == [] then Ending(fs, slots, seen, [], beyond)
    else
      var t := ParseVarint32(s);
      if t.Fail? then (if t.left == [] then Ending(fs, slots, seen, [], beyond) else None)
      else if t.value == 0 then Ending(fs, slots, seen, t.rest, beyond)
      else if fs.NoFields? && t.value < 8 then None
      else
        var i, wireType := Find(fs, t.value / 8), t.value % 8;
        if i == Count(fs) then
          var rest :- Skip(t.rest, wireType);
          ParseFields(fs, rest, beyond, slots, seen)
        else
          var v :- ParseSlot(FieldAt(fs, i), wireType, t.rest, beyond, slots[i]);
          ParseFields(fs, v.1, v.2, slots[i := v.0], if FieldAt(fs, i).rule.Required? then seen + {i} else seen)
  }

  /** A message and what follows it in the buffer. */
  function Parse(fs: Fields, s: seq<Byte>, beyond: seq<Byte>): Option<(seq<Slot>, seq<Byte>, seq<Byte>)> {
    ParseFields(fs, s, beyond, DefaultSlots(fs), {})
  }
}
