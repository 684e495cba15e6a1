/**
 Parsing what was printed: every message that the encoder accepts comes back, with absent fields at their defaults.
 */
module ProtobufLaws {
  import opened Arith
  import opened Bytes
  import opened Bignum
  import opened Wrappers
  import opened ProtobufFormat

  // ----- numbers -----

  lemma {:induction false} VarintTrip(n: nat, rest: seq<Byte>, bit: nat, sofar: nat, width: nat)
    requires sofar < Pow2(bit) && sofar + n * Pow2(bit) < Pow2(width) && bit < width
    ensures ParseVarint(PrintVarint(n) + rest, bit, sofar, width) == Done(sofar + n * Pow2(bit), rest)
    decreases n
  {
    hide Pow2, ParseVarint;
    var s, p := PrintVarint(n) + rest, Pow2(bit);
    if n < 128 {
      assert s[1..] == rest;
      ParseStep(s, bit, sofar, width, sofar + n * p);
    } else {
      var low, high := n % 128, n / 128;
      assert s[1..] == PrintVarint(high) + rest && s[0] % 128 == low;
      hide PrintVarint;
      VarintDigit(n, low, high, p, sofar);
      Pow2Add(bit, 7);
      SmallPowers();
      NarrowEnough(bit, width, n * p);
      ParseStep(s, bit, sofar, width, sofar + low * p);
      VarintTrip(high, rest, bit + 7, sofar + low * p, width);
    }
  }

  lemma ParseStep(s: seq<Byte>, bit: nat, sofar: nat, width: nat, x: nat)
    requires s != [] && bit < width && x == sofar + (s[0] % 128) * Pow2(bit) && x < Pow2(width)
    ensures ParseVarint(s, bit, sofar, width)
         == if s[0] >= 128 then ParseVarint(s[1..], bit + 7, x, width) else Done(x, s[1..])
  {
    hide Pow2;
    SmallMod(x, Pow2(width));
  }

  lemma VarintDigit(n: nat, low: nat, high: nat, p: nat, sofar: nat)
    requires n >= 128 && low == n % 128 && high == n / 128 && sofar < p
    ensures n * p == low * p + high * (p * 128) && n * p >= p * 128
    ensures sofar + low * p < p * 128 && high * (p * 128) >= 0
  {
    assert n == low + high * 128;
    assert (low + high * 128) * p == low * p + high * (p * 128);
    MulMono(128, n, p);
    MulMono(low + 1, 128, p);
  }

  lemma NarrowEnough(bit: nat, width: nat, x: nat)
    requires x >= Pow2(bit) * 128 && x < Pow2(width)
    ensures bit + 7 < width
  {
    if width <= bit + 7 {
      Pow2Add(bit, 7);
      SmallPowers();
      Pow2Mono(width, bit + 7);
    }
  }

  lemma Widths()
    ensures Pow2(32) == TWO32 && Pow2(64) == TWO64 && Pow2(0) == 1
  {
    hide Pow2;
    SmallPowers();
    Pow2Add(8, 8);
    Pow2Add(16, 16);
    Pow2Add(32, 32);
  }

  lemma Varint32Trip(n: nat, rest: seq<Byte>)
    requires n < TWO32
    ensures ParseVarint32(PrintVarint(n) + rest) == Done(n, rest)
  {
    hide Pow2, ParseVarint, PrintVarint;
    Widths();
    VarintTrip(n, rest, 0, 0, 32);
  }

  lemma Varint64Trip(n: nat, rest: seq<Byte>)
    requires n < TWO64
    ensures ParseVarint64(PrintVarint(n) + rest) == Done(n, rest)
  {
    hide Pow2, ParseVarint, PrintVarint;
    Widths();
    VarintTrip(n, rest, 0, 0, 64);
  }

  lemma UnZigZagZigZag(n: int)
    ensures UnZigZag(ZigZag(n)) == n
  {
  }

  lemma SignedKeeps(n: int, size: nat)
    requires -(Pow256(size) as int) <= 2 * n < Pow256(size)
    ensures Signed(n, size) == n
  {
    var p := Pow256(size);
    if n >= 0 {
      SmallMod(n, p);
    } else {
      ModUnique(n, p, -1, n + p);
    }
  }

  lemma ByteWidths()
    ensures Pow256(1) == 0x100 && Pow256(2) == 0x1_0000 && Pow256(4) == TWO32 && Pow256(8) == TWO64
  {
  }

  lemma StringTrip(body: seq<Byte>, rest: seq<Byte>)
    requires |body| < TWO32
    ensures ParseString(PrintString(body) + rest) == Some((body, rest))
  {
    hide PrintVarint, ParseVarint32;
    assert PrintString(body) + rest == PrintVarint(|body|) + (body + rest);
    Varint32Trip(|body|, body + rest);
  }

  // ----- messages -----

  /** What a member of a structure can hold; a string must be terminated inside its field. */
  ghost predicate Typed(k: Kind, v: Value)
    decreases k, 0
  {
    match k
    case Varint(size) => size in {1, 2, 4, 8} && Unsigned(v, size)
    case Svarint(size) => size in {4, 8} && IsSigned(v, size)
    case Fixed32 => v.Octets? && |v.bytes| == 4
    case Fixed64 => v.Octets? && |v.bytes| == 8
    case Data(capacity) => v.Octets? && |v.bytes| <= capacity < TWO32
    case Text(size) => v.Octets? && |v.bytes| < size < TWO32 && 0 !in v.bytes
    case Submessage(fields) => v.Message? && TypedSlots(fields, v.slots)
  }

  ghost predicate TypedItems(k: Kind, items: seq<Value>)
    decreases k, |items| + 1
  {
    items != [] ==> Typed(k, items[0]) && TypedItems(k, items[1..])
  }

  ghost predicate TypedSlot(f: Field, slot: Slot)
    decreases f, 0
  {
    match f.rule
    case Required => slot.One? && Typed(f.kind, slot.value)
    case Optional => slot.Maybe? && (slot.present ==> Typed(f.kind, slot.value))
    case Repeated(capacity) => slot.Many? && |slot.items| <= capacity && TypedItems(f.kind, slot.items)
  }

  ghost predicate TypedSlots(fs: Fields, slots: seq<Slot>)
    decreases fs, 0
  {
    if fs.NoFields? then slots == []
    else slots != [] && TypedSlot(fs.first, slots[0]) && TypedSlots(fs.rest, slots[1..])
  }

  /** Tags are positive and fit the wire format, and so on in submessages. */
  ghost predicate Tags(fs: Fields)
    decreases fs, 0
  {
    fs.Fields? ==> 0 < fs.first.tag < 0x2000_0000 && Nested(fs.first.kind) && Tags(fs.rest)
  }

  ghost predicate Distinct(fs: Fields) {
    forall i, j :: 0 <= i < j < Count(fs) ==> FieldAt(fs, i).tag != FieldAt(fs, j).tag
  }

  ghost predicate Nested(k: Kind)
    decreases k, 0
  {
    k.Submessage? ==> Tags(k.fields) && Distinct(k.fields)
  }

  /** A message as it comes back: optional members that are absent have their default. */
  function Normal(k: Kind, v: Value): Value
    decreases k, 0
  {
    if k.Submessage? && v.Message? && |v.slots| == Count(k.fields) then Message(NormalSlots(k.fields, v.slots)) else v
  }

  function NormalItems(k: Kind, items: seq<Value>): (r: seq<Value>)
    decreases k, |items| + 1
  {
    if items == [] then [] else [Normal(k, items[0])] + NormalItems(k, items[1..])
  }

  function NormalSlot(f: Field, slot: Slot): Slot
    decreases f, 0
  {
    match slot
    case One(v) => One(Normal(f.kind, v))
    case Maybe(present, v) => if present then Maybe(true, Normal(f.kind, v)) else DefaultSlot(f)
    case Many(items) => Many(NormalItems(f.kind, items))
  }

  function NormalSlots(fs: Fields, slots: seq<Slot>): (r: seq<Slot>)
    requires |slots| == Count(fs)
    ensures |r| == |slots|
    decreases fs, 0
  {
    if fs.NoFields? then [] else [NormalSlot(fs.first, slots[0])] + NormalSlots(fs.rest, slots[1..])
  }

  lemma {:induction false} TypedCount(fs: Fields, slots: seq<Slot>)
    requires TypedSlots(fs, slots)
    ensures |slots| == Count(fs)
  {
    hide TypedSlot;
    if fs.Fields? {
      TypedCount(fs.rest, slots[1..]);
    }
  }

  lemma {:induction false} FieldTags(fs: Fields, i: nat)
    requires Tags(fs) && i < Count(fs)
    ensures 0 < FieldAt(fs, i).tag < 0x2000_0000 && Nested(FieldAt(fs, i).kind)
  {
    hide Nested;
    if i > 0 {
      FieldTags(fs.rest, i - 1);
    }
  }

  /** With distinct tags the search for a field's tag ends at that field. */
  lemma {:induction false} FindAt(fs: Fields, i: nat)
    requires Distinct(fs) && i < Count(fs)
    ensures Find(fs, FieldAt(fs, i).tag) == i
  {
    if i > 0 {
      assert FieldAt(fs, 0).tag != FieldAt(fs, i).tag;
      RestDistinct(fs);
      FindAt(fs.rest, i - 1);
    }
  }

  lemma RestDistinct(fs: Fields)
    requires fs.Fields? && Distinct(fs)
    ensures Distinct(fs.rest)
  {
    forall i, j | 0 <= i < j < Count(fs.rest)
      ensures FieldAt(fs.rest, i).tag != FieldAt(fs.rest, j).tag
    {
      assert FieldAt(fs, i + 1) == FieldAt(fs.rest, i) && FieldAt(fs, j + 1) == FieldAt(fs.rest, j);
    }
  }

  /** A scalar comes back as it was. */
  lemma ScalarTrip(k: Kind, v: Value, e: seq<Byte>, rest: seq<Byte>)
    requires !k.Submessage? && Typed(k, v) && PrintValue(k, v) == Some(e)
    ensures e != [] && ParseScalar(k, e + rest) == Some((v, rest))
  {
    hide Typed, PrintValue, ParseScalar;
    if k.Varint? || k.Svarint? {
      NumberTrip(k, v, e, rest);
    } else {
      OctetsTrip(k, v, e, rest);
    }
  }

  lemma NumberTrip(k: Kind, v: Value, e: seq<Byte>, rest: seq<Byte>)
    requires (k.Varint? || k.Svarint?) && Typed(k, v) && PrintValue(k, v) == Some(e)
    ensures e != [] && ParseScalar(k, e + rest) == Some((v, rest))
  {
    hide PrintVarint, ParseVarint64, Signed, Pow256, ZigZag, UnZigZag;
    ByteWidths();
    if k.Varint? {
      Varint64Trip(v.n, rest);
      SmallMod(v.n, Pow256(k.size));
    } else {
      ZigZagSize(v.n);
      Varint64Trip(ZigZag(v.n), rest);
      UnZigZagZigZag(v.n);
      SignedKeeps(v.n, k.size);
    }
  }

  lemma ZigZagSize(n: int)
    requires -(TWO64 as int) <= 2 * n < TWO64
    ensures ZigZag(n) < TWO64
  {
  }

  lemma WholeString(bytes: seq<Byte>, size: nat)
    requires 0 !in bytes && |bytes| <= size
    ensures CString(bytes, size) == bytes
  {
    assert |CString(bytes, size)| == |bytes|;
    assert bytes[..|bytes|] == bytes;
  }

  lemma OctetsTrip(k: Kind, v: Value, e: seq<Byte>, rest: seq<Byte>)
    requires (k.Fixed32? || k.Fixed64? || k.Data? || k.Text?) && Typed(k, v) && PrintValue(k, v) == Some(e)
    ensures e != [] && ParseScalar(k, e + rest) == Some((v, rest))
  {
    hide PrintVarint, ParseVarint32;
    if k.Fixed32? {
      assert (e + rest)[..4] == e && (e + rest)[4..] == rest;
    } else if k.Fixed64? {
      assert (e + rest)[..8] == e && (e + rest)[8..] == rest;
    } else {
      if k.Text? {
        WholeString(v.bytes, k.size);
      }
      assert e + rest == PrintVarint(|v.bytes|) + (v.bytes + rest);
      Varint32Trip(|v.bytes|, v.bytes + rest);
    }
  }

  // ----- the round trip -----

  /** A tag leads to its field. */
  lemma TagStep(fs: Fields, i: nat, wireType: nat, e: seq<Byte>, beyond: seq<Byte>, now: seq<Slot>, seen: set<nat>)
    requires |now| == Count(fs) && i < Count(fs) && Tags(fs) && Distinct(fs) && wireType < 8
    ensures var f := FieldAt(fs, i); var v := ParseSlot(f, wireType, e, beyond, now[i]);
            ParseFields(fs, PrintTag(f.tag, wireType) + e, beyond, now, seen)
            == if v.None? then None
               else ParseFields(fs, v.value.1, v.value.2, now[i := v.value.0],
                   if f.rule.Required? then seen + {i} else seen)
  {
    hide ParseVarint32, PrintVarint, ParseSlot, Tags, Distinct, Find, AllSeen;
    var tag := FieldAt(fs, i).tag;
    FieldTags(fs, i);
    Varint32Trip(tag * 8 + wireType, e);
    FindAt(fs, i);
    assert (tag * 8 + wireType) / 8 == tag && (tag * 8 + wireType) % 8 == wireType;
  }

  /** What a member holds before its field is read. */
  ghost predicate Fresh(k: Kind, now: Value) {
    k.Submessage? ==> now == Message(DefaultSlots(k.fields))
  }

  lemma DefaultIsFresh(k: Kind, default: Value)
    ensures Fresh(k, DefaultValue(k, default))
  {
  }

  lemma WireTypeSize(k: Kind)
    ensures WireType(k) < 8
  {
  }

  lemma {:induction false} ValueTrip(k: Kind, v: Value, e: seq<Byte>, rest: seq<Byte>, beyond: seq<Byte>, now: Value)
    requires Nested(k) && Typed(k, v) && PrintValue(k, v) == Some(e) && |e| < TWO32 && Fresh(k, now)
    ensures e != [] && ParseValue(k, e + rest, beyond, now) == Some((Normal(k, v), rest, beyond))
    decreases k, 0
  {
    if k.Submessage? {
      SubmessageTrip(k, v, e, rest, beyond, now);
    } else {
      hide Typed, PrintValue, ParseScalar;
      ScalarTrip(k, v, e, rest);
    }
  }

  lemma {:induction false} SubmessageTrip(k: Kind, v: Value, e: seq<Byte>, rest: seq<Byte>, beyond: seq<Byte>,
      now: Value)
    requires k.Submessage? && Nested(k) && Typed(k, v) && PrintValue(k, v) == Some(e) && |e| < TWO32 && Fresh(k, now)
    ensures e != [] && ParseValue(k, e + rest, beyond, now) == Some((Normal(k, v), rest, beyond))
    decreases k.fields, 3
  {
    hide PrintSlots, ParseFields, NormalSlots, DefaultSlots, TypedSlots, Tags, Distinct, ParseString, PrintVarint;
    var body := PrintSlots(k.fields, v.slots).value;
    TypedCount(k.fields, v.slots);
    StringTrip(body, rest);
    MessageTrip(k.fields, v.slots, body, rest + beyond);
    var ahead := [] + (rest + beyond);
    assert ahead[..|rest|] == rest && ahead[|rest|..] == beyond;
  }

  lemma {:induction false} PackedTrip(k: Kind, items: seq<Value>, e: seq<Byte>, before: seq<Value>, capacity: nat)
    requires Packable(k) && TypedItems(k, items) && PrintItems(k, [], items) == Some(e) && |e| < TWO32
    requires |before| + |items| <= capacity
    ensures ParsePacked(k, e, before, capacity) == Some(before + NormalItems(k, items))
    decreases k, |items| + 1
  {
    hide PrintValue, ParseScalar, Typed, PrintItems, ParsePacked;
    if items == [] {
      NoItems(k, before, capacity);
    } else {
      var first, others := FirstItem(k, [], items, e);
      assert e == first + others;
      var v := Normal(k, items[0]);
      ScalarTrip(k, items[0], first, others);
      PackedStep(k, e, before, capacity, v, others);
      PackedTrip(k, items[1..], others, before + [v], capacity);
      assert before + [v] + NormalItems(k, items[1..]) == before + ([v] + NormalItems(k, items[1..]));
    }
  }

  lemma NoItems(k: Kind, before: seq<Value>, capacity: nat)
    requires Packable(k)
    ensures PrintItems(k, [], []) == Some([]) && ParsePacked(k, [], before, capacity) == Some(before)
    ensures NormalItems(k, []) == [] && before + [] == before
  {
  }

  lemma FirstItem(k: Kind, prefix: seq<Byte>, items: seq<Value>, e: seq<Byte>)
      returns (first: seq<Byte>, others: seq<Byte>)
    requires items != [] && PrintItems(k, prefix, items) == Some(e)
    ensures PrintValue(k, items[0]) == Some(first) && PrintItems(k, prefix, items[1..]) == Some(others)
    ensures e == prefix + first + others
  {
    hide PrintValue;
    first, others := PrintValue(k, items[0]).value, PrintItems(k, prefix, items[1..]).value;
  }

  lemma PackedStep(k: Kind, s: seq<Byte>, items: seq<Value>, capacity: nat, v: Value, rest: seq<Byte>)
    requires Packable(k) && s != [] && |items| < capacity && ParseScalar(k, s) == Some((v, rest))
    ensures ParsePacked(k, s, items, capacity) == ParsePacked(k, rest, items + [v], capacity)
  {
    hide ParseScalar;
  }

  /** Items that are not packed arrive one by one, each behind the tag. */
  lemma {:induction false} ItemsTrip(fs: Fields, i: nat, k: Kind, items: seq<Value>, e: seq<Byte>, rest: seq<Byte>,
                                     beyond: seq<Byte>, before: seq<Value>, now: seq<Slot>, seen: set<nat>)
    requires |now| == Count(fs) && i < Count(fs) && Tags(fs) && Distinct(fs)
    requires var f := FieldAt(fs, i);
             && f.kind == k && !Packable(k) && f.rule.Repeated? && |before| + |items| <= f.rule.capacity
             && PrintItems(k, PrintTag(f.tag, WireType(k)), items) == Some(e)
    requires Nested(k) && TypedItems(k, items) && |e| < TWO32 && now[i] == Many(before)
    ensures ParseFields(fs, e + rest, beyond, now, seen)
         == ParseFields(fs, rest, beyond, now[i := Many(before + NormalItems(k, items))], seen)
    decreases k, |items| + 1
  {
    hide PrintValue, Typed, Normal, ParseFields, Tags, Distinct, PrintTag, DefaultValue, Nested, Fresh;
    if items == [] {
      assert before + [] == before && now[i := Many(before)] == now && e + rest == rest;
    } else {
      var tag := PrintTag(FieldAt(fs, i).tag, WireType(k));
      var first, others := FirstItem(k, tag, items, e);
      var v, more := Normal(k, items[0]), NormalItems(k, items[1..]);
      assert e + rest == tag + (first + (others + rest));
      WireTypeSize(k);
      TagStep(fs, i, WireType(k), first + (others + rest), beyond, now, seen);
      DefaultIsFresh(k, Number(0));
      ValueTrip(k, items[0], first, others + rest, beyond, DefaultValue(k, Number(0)));
      NextItem(FieldAt(fs, i), first + (others + rest), beyond, before, v, others + rest);
      hide ParseSlot;
      ItemsTrip(fs, i, k, items[1..], others, rest, beyond, before + [v], now[i := Many(before + [v])], seen);
      assert before + [v] + more == before + ([v] + more);
      assert now[i := Many(before + [v])][i := Many(before + ([v] + more))] == now[i := Many(before + ([v] + more))];
    }
  }

  lemma NextItem(f: Field, s: seq<Byte>, beyond: seq<Byte>, before: seq<Value>, v: Value, rest: seq<Byte>)
    requires f.rule.Repeated? && !Packable(f.kind) && |before| < f.rule.capacity
    requires ParseValue(f.kind, s, beyond, DefaultValue(f.kind, Number(0))) == Some((v, rest, beyond))
    ensures ParseSlot(f, WireType(f.kind), s, beyond, Many(before)) == Some((Many(before + [v]), rest, beyond))
  {
    hide ParseValue, DefaultValue;
  }

  /** A printed member is read into its place. */
  lemma {:induction false} SlotTrip(fs: Fields, i: nat, f: Field, slot: Slot, e: seq<Byte>, rest: seq<Byte>,
                                    beyond: seq<Byte>, now: seq<Slot>, seen: set<nat>)
    requires |now| == Count(fs) && i < Count(fs) && Tags(fs) && Distinct(fs) && f == FieldAt(fs, i) && Nested(f.kind)
    requires TypedSlot(f, slot) && PrintSlot(f, slot) == Some(e) && |e| < TWO32 && now[i] == DefaultSlot(f)
    ensures ParseFields(fs, e + rest, beyond, now, seen)
         == ParseFields(fs, rest, beyond, now[i := NormalSlot(f, slot)], if f.rule.Required? then seen + {i} else seen)
    decreases f, 0
  {
    hide ParseFields, Tags, Distinct, PrintTag, DefaultValue, PrintValue, ParseValue, Typed, Normal, Nested, Fresh;
    if e == [] {
      NothingPrinted(f, slot);
      assert now[i := now[i]] == now && e + rest == rest;
    } else if f.rule.Repeated? && !Packable(f.kind) {
      ItemsTrip(fs, i, f.kind, slot.items, e, rest, beyond, [], now, seen);
      assert [] + NormalItems(f.kind, slot.items) == NormalItems(f.kind, slot.items);
    } else if f.rule.Repeated? {
      var body := PrintItems(f.kind, [], slot.items).value;
      var tag := PrintTag(f.tag, 2);
      assert e + rest == tag + (PrintString(body) + rest);
      TagStep(fs, i, 2, PrintString(body) + rest, beyond, now, seen);
      StringTrip(body, rest);
      PackedTrip(f.kind, slot.items, body, [], f.rule.capacity);
      assert [] + NormalItems(f.kind, slot.items) == NormalItems(f.kind, slot.items);
    } else {
      SingleTrip(fs, i, f, slot, e, rest, beyond, now, seen);
    }
  }

  lemma NothingPrinted(f: Field, slot: Slot)
    requires TypedSlot(f, slot) && PrintSlot(f, slot) == Some([])
    ensures NormalSlot(f, slot) == DefaultSlot(f) && !f.rule.Required?
  {
    hide PrintValue, Typed, Normal, DefaultValue;
  }

  /** A required member, or an optional one that is present. */
  lemma {:induction false} SingleTrip(fs: Fields, i: nat, f: Field, slot: Slot, e: seq<Byte>, rest: seq<Byte>,
                                      beyond: seq<Byte>, now: seq<Slot>, seen: set<nat>)
    requires |now| == Count(fs) && i < Count(fs) && Tags(fs) && Distinct(fs) && f == FieldAt(fs, i) && Nested(f.kind)
    requires !f.rule.Repeated? && TypedSlot(f, slot) && PrintSlot(f, slot) == Some(e) && e != []
    requires |e| < TWO32 && now[i] == DefaultSlot(f)
    ensures ParseFields(fs, e + rest, beyond, now, seen)
         == ParseFields(fs, rest, beyond, now[i := NormalSlot(f, slot)], if f.rule.Required? then seen + {i} else seen)
    decreases f.kind, 1
  {
    hide ParseFields, Tags, Distinct, PrintTag, DefaultValue, PrintValue, ParseValue, Typed, Normal, Nested, Fresh;
    var v, now0 := slot.value, DefaultValue(f.kind, f.default);
    var first := PrintValue(f.kind, v).value;
    var tag := PrintTag(f.tag, WireType(f.kind));
    assert e + rest == tag + (first + rest);
    WireTypeSize(f.kind);
    TagStep(fs, i, WireType(f.kind), first + rest, beyond, now, seen);
    DefaultIsFresh(f.kind, f.default);
    ValueTrip(f.kind, v, first, rest, beyond, now0);
  }

  /** The fields from i on. */
  function DropFields(fs: Fields, i: nat): Fields
    requires i <= Count(fs)
  {
    if i == 0 then fs else DropFields(fs.rest, i - 1)
  }

  lemma {:induction false} DropIs(fs: Fields, i: nat)
    requires i <= Count(fs)
    ensures DropFields(fs, i).NoFields? <==> i == Count(fs)
    ensures i < Count(fs) ==>
              DropFields(fs, i).first == FieldAt(fs, i) && DropFields(fs, i).rest == DropFields(fs, i + 1)
  {
    if i > 0 {
      DropIs(fs.rest, i - 1);
    }
  }

  /** Members from i on are untouched, and no required one before i has been missed. */
  ghost predicate Pending(fs: Fields, i: nat, now: seq<Slot>, seen: set<nat>) {
    && |now| == Count(fs) && i <= Count(fs)
    && (forall j :: i <= j < Count(fs) ==> now[j] == DefaultSlot(FieldAt(fs, j)))
    && forall j :: 0 <= j < i && FieldAt(fs, j).rule.Required? ==> j in seen
  }

  lemma PendingStep(fs: Fields, i: nat, now: seq<Slot>, seen: set<nat>, slot: Slot)
    requires Pending(fs, i, now, seen) && i < Count(fs)
    ensures now[i] == DefaultSlot(FieldAt(fs, i))
    ensures Pending(fs, i + 1, now[i := slot], if FieldAt(fs, i).rule.Required? then seen + {i} else seen)
  {
    hide DefaultSlot, FieldAt;
    var next, more := now[i := slot], if FieldAt(fs, i).rule.Required? then seen + {i} else seen;
    forall j | i + 1 <= j < Count(fs)
      ensures next[j] == DefaultSlot(FieldAt(fs, j))
    {
      assert next[j] == now[j];
    }
    forall j | 0 <= j < i + 1 && FieldAt(fs, j).rule.Required?
      ensures j in more
    {
      if j < i {
        assert j in seen;
      }
    }
  }

  lemma PendingEnd(fs: Fields, beyond: seq<Byte>, now: seq<Slot>, seen: set<nat>)
    requires Pending(fs, Count(fs), now, seen)
    ensures ParseFields(fs, [], beyond, now, seen) == Some((now, [], beyond))
  {
    hide DefaultSlot;
  }

  lemma FirstPrinted(gs: Fields, slots: seq<Slot>, body: seq<Byte>) returns (e: seq<Byte>, others: seq<Byte>)
    requires gs.Fields? && slots != [] && PrintSlots(gs, slots) == Some(body)
    ensures PrintSlot(gs.first, slots[0]) == Some(e) && PrintSlots(gs.rest, slots[1..]) == Some(others)
            && body == e + others
  {
    hide PrintSlot;
    e, others := PrintSlot(gs.first, slots[0]).value, PrintSlots(gs.rest, slots[1..]).value;
  }

  /** The members from i on are read into their places, after those before them. */
  lemma {:induction false} LoopTrip(fs: Fields, gs: Fields, i: nat, slots: seq<Slot>, body: seq<Byte>,
                                    beyond: seq<Byte>, now: seq<Slot>, seen: set<nat>)
    requires Pending(fs, i, now, seen) && gs == DropFields(fs, i) && |slots| == Count(gs)
    requires Tags(fs) && Distinct(fs) && TypedSlots(gs, slots) && PrintSlots(gs, slots) == Some(body) && |body| < TWO32
    ensures ParseFields(fs, body, beyond, now, seen) == Some((now[..i] + NormalSlots(gs, slots), [], beyond))
    decreases gs, 1
  {
    hide Tags, Distinct, TypedSlot, PrintSlot, NormalSlot, DefaultSlot, Nested, ParseFields, DropFields;
    DropIs(fs, i);
    if gs.NoFields? {
      PendingEnd(fs, beyond, now, seen);
      assert now[..i] + [] == now;
    } else {
      hide PrintSlots, Pending;
      var f, slot := gs.first, slots[0];
      var e, others := FirstPrinted(gs, slots, body);
      FieldTags(fs, i);
      PendingStep(fs, i, now, seen, NormalSlot(f, slot));
      SlotTrip(fs, i, f, slot, e, others, beyond, now, seen);
      var next := now[i := NormalSlot(f, slot)];
      LoopTrip(fs, gs.rest, i + 1, slots[1..], others, beyond, next, if f.rule.Required? then seen + {i} else seen);
      Extended(now, i, NormalSlot(f, slot), NormalSlots(gs.rest, slots[1..]));
    }
  }

  lemma Extended(now: seq<Slot>, i: nat, slot: Slot, more: seq<Slot>)
    requires i < |now|
    ensures now[i := slot][..i + 1] + more == now[..i] + ([slot] + more)
  {
  }

  lemma {:induction false} DefaultAt(fs: Fields, j: nat)
    requires j < Count(fs)
    ensures DefaultSlots(fs)[j] == DefaultSlot(FieldAt(fs, j))
  {
    hide DefaultSlot;
    if j > 0 {
      DefaultAt(fs.rest, j - 1);
    }
  }

  lemma {:induction false} MessageTrip(fs: Fields, slots: seq<Slot>, body: seq<Byte>, beyond: seq<Byte>)
    requires Tags(fs) && Distinct(fs) && TypedSlots(fs, slots) && PrintSlots(fs, slots) == Some(body) && |body| < TWO32
    ensures |slots| == Count(fs)
    ensures ParseFields(fs, body, beyond, DefaultSlots(fs), {}) == Some((NormalSlots(fs, slots), [], beyond))
    decreases fs, 2
  {
    hide Tags, Distinct, TypedSlots, PrintSlots, ParseFields, NormalSlots, DefaultSlots, DefaultSlot;
    TypedCount(fs, slots);
    forall j | 0 <= j < Count(fs)
      ensures DefaultSlots(fs)[j] == DefaultSlot(FieldAt(fs, j))
    {
      DefaultAt(fs, j);
    }
    DropIs(fs, 0);
    LoopTrip(fs, fs, 0, slots, body, beyond, DefaultSlots(fs), {});
    assert DefaultSlots(fs)[..0] + NormalSlots(fs, slots) == NormalSlots(fs, slots);
  }

  /** The encoder accepts whatever the members of a structure can hold. */
  lemma {:induction false} TypedPrints(k: Kind, v: Value)
    requires Typed(k, v)
    ensures PrintValue(k, v).Some?
    decreases k, 0
  {
    if k.Submessage? {
      TypedSlotsPrint(k.fields, v.slots);
    }
  }

  lemma {:induction false} TypedItemsPrint(k: Kind, prefix: seq<Byte>, items: seq<Value>)
    requires TypedItems(k, items)
    ensures PrintItems(k, prefix, items).Some?
    decreases k, |items| + 1
  {
    hide PrintValue, Typed;
    if items != [] {
      TypedPrints(k, items[0]);
      TypedItemsPrint(k, prefix, items[1..]);
    }
  }

  lemma {:induction false} TypedSlotsPrint(fs: Fields, slots: seq<Slot>)
    requires TypedSlots(fs, slots)
    ensures PrintSlots(fs, slots).Some?
    decreases fs, 0
  {
    hide PrintValue, Typed, PrintItems, TypedItems;
    if fs.Fields? {
      var f, slot := fs.first, slots[0];
      match f.rule {
        case Required => TypedPrints(f.kind, slot.value);
        case Optional =>
          if slot.present {
            TypedPrints(f.kind, slot.value);
          }
        case Repeated(_) =>
          TypedItemsPrint(f.kind, [], slot.items);
          TypedItemsPrint(f.kind, PrintTag(f.tag, WireType(f.kind)), slot.items);
      }
      assert PrintSlot(f, slot).Some?;
      TypedSlotsPrint(fs.rest, slots[1..]);
    }
  }

  /**
   Whatever the encoder accepts, the decoder restores, up to the defaults of absent members; and it reads all of it.
   */
  lemma RoundTrip(fs: Fields, slots: seq<Slot>, beyond: seq<Byte>)
    requires Tags(fs) && Distinct(fs) && TypedSlots(fs, slots)
    requires PrintSlots(fs, slots).Some? && |PrintSlots(fs, slots).value| < TWO32
    ensures |slots| == Count(fs)
    ensures Parse(fs, PrintSlots(fs, slots).value, beyond) == Some((NormalSlots(fs, slots), [], beyond))
  {
    hide Tags, Distinct, TypedSlots, PrintSlots, ParseFields, NormalSlots, DefaultSlots;
    MessageTrip(fs, slots, PrintSlots(fs, slots).value, beyond);
  }

  /**
   A string is encoded up to its terminator or the end of its member, and that comes back exactly when a terminator
   fits behind it, or when counting the terminator wraps around in 32 bits.
   */
  lemma TextTrip(size: nat, text: seq<Byte>, rest: seq<Byte>)
    requires size < TWO32
    ensures var s := CString(text, size); var e := PrintString(s);
            && PrintValue(Text(size), Octets(text)) == Some(e)
            && (ParseScalar(Text(size), e + rest) == Some((Octets(s), rest)) <==> |s| < size || |s| == TWO32 - 1)
  {
    hide PrintVarint, ParseVarint32, CString;
    var s := CString(text, size);
    var e := PrintString(s);
    assert e + rest == PrintVarint(|s|) + (s + rest);
    Varint32Trip(|s|, s + rest);
    assert (s + rest)[..|s|] == s && (s + rest)[|s|..] == rest;
  }

  /** A string without a zero that fills its member is encoded, and then cannot be decoded. */
  lemma FullTextLost(text: seq<Byte>, rest: seq<Byte>)
    requires 0 !in text && |text| < TWO32 - 1
    ensures PrintValue(Text(|text|), Octets(text)).Some?
    ensures ParseScalar(Text(|text|), PrintValue(Text(|text|), Octets(text)).value + rest) == None
  {
    hide PrintVarint, ParseVarint32, CString;
    WholeString(text, |text|);
    var e := PrintString(text);
    assert e + rest == PrintVarint(|text|) + (text + rest);
    Varint32Trip(|text|, text + rest);
  }
}
