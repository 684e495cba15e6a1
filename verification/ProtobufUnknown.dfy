/** Fields that a reader does not know: it passes over exactly their values, and reads all the others. */
module ProtobufUnknown {
  import opened Arith
  import opened Bytes
  import opened Wrappers
  import opened ProtobufFormat
  import opened ProtobufLaws

  // ----- wire types -----

  /** The wire types of the protocol buffer encoding: varint, 64-bit, length-delimited and 32-bit. */
  function Announced(f: Field): nat {
    if f.rule.Repeated? && Packable(f.kind) then 2
    else match f.kind
         case Varint(_) => 0
         case Svarint(_) => 0
         case Fixed64 => 1
         case Data(_) => 2
         case Text(_) => 2
         case Submessage(_) => 2
         case Fixed32 => 5
  }

  /** Whatever is printed of a member begins with its tag number and the wire type of what follows. */
  lemma MemberBegins(f: Field, slot: Slot)
    requires PrintSlot(f, slot).Some? && PrintSlot(f, slot).value != []
    ensures var e, key := PrintSlot(f, slot).value, PrintVarint(f.tag * 8 + Announced(f));
            |key| <= |e| && e[..|key|] == key && (f.tag < 16 ==> e[0] == f.tag * 8 + Announced(f))
  {
    hide PrintValue;
    var e, key := PrintSlot(f, slot).value, PrintVarint(f.tag * 8 + Announced(f));
    if f.rule.Repeated? && !Packable(f.kind) {
      var first, others := FirstItem(f.kind, PrintTag(f.tag, WireType(f.kind)), slot.items, e);
      assert e == key + (first + others);
    }
    assert e[..|key|] == key;
  }

  /** The code of a Failure packet: each byte of a varint holds seven bits, the least significant first. */
  lemma PrintedExample(default: Value)
    ensures PrintSlot(Field(1, Required, Varint(4), default), One(Number(300))) == Some([0x08, 0xac, 0x02])
  {
    var f := Field(1, Required, Varint(4), default);
    assert Pow256(4) == 0x1_0000_0000;
    assert PrintVarint(300) == [300 % 128 + 128] + PrintVarint(2) == [0xac, 0x02];
    assert PrintValue(f.kind, Number(300)) == Some([0xac, 0x02]);
    assert PrintTag(1, 0) == [0x08];
    assert PrintTag(1, 0) + [0xac, 0x02] == [0x08, 0xac, 0x02];
  }

  lemma {:induction false} SkipPrintedVarint(n: nat, rest: seq<Byte>)
    ensures SkipVarint(PrintVarint(n) + rest) == Some(rest)
  {
    var s := PrintVarint(n) + rest;
    if n < 128 {
      assert s[1..] == rest;
    } else {
      assert s[1..] == PrintVarint(n / 128) + rest;
      SkipPrintedVarint(n / 128, rest);
    }
  }

  lemma SkipString(body: seq<Byte>, rest: seq<Byte>)
    requires |body| < TWO32
    ensures Skip(PrintString(body) + rest, 2) == Some(rest)
  {
    hide ParseString, PrintString;
    StringTrip(body, rest);
  }

  /** A reader that goes by the wire type passes over exactly the value. */
  lemma SkipValue(k: Kind, v: Value, e: seq<Byte>, rest: seq<Byte>)
    requires PrintValue(k, v) == Some(e) && |e| < TWO32
    ensures Skip(e + rest, WireType(k)) == Some(rest)
  {
    hide PrintVarint, ParseString, PrintSlots, CString;
    match k {
      case Varint(_) => SkipPrintedVarint(v.n, rest);
      case Svarint(_) => SkipPrintedVarint(ZigZag(v.n), rest);
      case Fixed32 => assert (e + rest)[4..] == rest;
      case Fixed64 => assert (e + rest)[8..] == rest;
      case Data(_) => SkipString(v.bytes, rest);
      case Text(size) => SkipString(CString(v.bytes, size), rest);
      case Submessage(fields) => SkipString(PrintSlots(fields, v.slots).value, rest);
    }
  }

  // ----- unknown members -----

  ghost predicate Unknown(fs: Fields, tag: nat) {
    0 < tag < 0x2000_0000 && Find(fs, tag) == Count(fs)
  }

  lemma TagSkip(fs: Fields, tag: nat, wireType: nat, e: seq<Byte>, rest: seq<Byte>, beyond: seq<Byte>, now: seq<Slot>,
                seen: set<nat>)
    requires |now| == Count(fs) && Unknown(fs, tag) && wireType < 8 && Skip(e, wireType) == Some(rest)
    ensures ParseFields(fs, PrintTag(tag, wireType) + e, beyond, now, seen) == ParseFields(fs, rest, beyond, now, seen)
  {
    hide ParseVarint32, PrintVarint, ParseSlot, Find, AllSeen, Skip;
    Varint32Trip(tag * 8 + wireType, e);
    assert (tag * 8 + wireType) / 8 == tag && (tag * 8 + wireType) % 8 == wireType;
  }

  lemma {:induction false} SkipItems(fs: Fields, f: Field, items: seq<Value>, e: seq<Byte>, rest: seq<Byte>,
                                     beyond: seq<Byte>, now: seq<Slot>, seen: set<nat>)
    requires |now| == Count(fs) && Unknown(fs, f.tag)
    requires PrintItems(f.kind, PrintTag(f.tag, WireType(f.kind)), items) == Some(e) && |e| < TWO32
    ensures ParseFields(fs, e + rest, beyond, now, seen) == ParseFields(fs, rest, beyond, now, seen)
    decreases |items|
  {
    hide PrintValue, ParseFields, PrintTag, Unknown, Skip;
    if items == [] {
      assert e + rest == rest;
    } else {
      var tag := PrintTag(f.tag, WireType(f.kind));
      var first, others := FirstItem(f.kind, tag, items, e);
      assert e + rest == tag + (first + (others + rest));
      WireTypeSize(f.kind);
      SkipValue(f.kind, items[0], first, others + rest);
      TagSkip(fs, f.tag, WireType(f.kind), first + (others + rest), others + rest, beyond, now, seen);
      SkipItems(fs, f, items[1..], others, rest, beyond, now, seen);
    }
  }

  /** A member whose tag is not in the table leaves no trace. */
  lemma SkipSlot(fs: Fields, f: Field, slot: Slot, e: seq<Byte>, rest: seq<Byte>, beyond: seq<Byte>, now: seq<Slot>,
                 seen: set<nat>)
    requires |now| == Count(fs) && Unknown(fs, f.tag) && PrintSlot(f, slot) == Some(e) && |e| < TWO32
    ensures ParseFields(fs, e + rest, beyond, now, seen) == ParseFields(fs, rest, beyond, now, seen)
  {
    hide PrintValue, ParseFields, PrintTag, Unknown, Skip, PrintItems;
    if e == [] {
      assert e + rest == rest;
    } else if f.rule.Repeated? && !Packable(f.kind) {
      SkipItems(fs, f, slot.items, e, rest, beyond, now, seen);
    } else if f.rule.Repeated? {
      var body := PrintItems(f.kind, [], slot.items).value;
      assert e + rest == PrintTag(f.tag, 2) + (PrintString(body) + rest);
      SkipString(body, rest);
      TagSkip(fs, f.tag, 2, PrintString(body) + rest, rest, beyond, now, seen);
    } else {
      var v := PrintValue(f.kind, slot.value).value;
      assert e + rest == PrintTag(f.tag, WireType(f.kind)) + (v + rest);
      WireTypeSize(f.kind);
      SkipValue(f.kind, slot.value, v, rest);
      TagSkip(fs, f.tag, WireType(f.kind), v + rest, rest, beyond, now, seen);
    }
  }

  // ----- smaller tables -----

  /** The table that is left when some fields are struck out, and the members for it. */
  function KeepFields(fs: Fields, keep: seq<bool>): Fields
    requires |keep| == Count(fs)
  {
    if fs.NoFields? then NoFields
    else if keep[0] then Fields(fs.first, KeepFields(fs.rest, keep[1..]))
    else KeepFields(fs.rest, keep[1..])
  }

  function KeepSlots(slots: seq<Slot>, keep: seq<bool>): seq<Slot>
    requires |keep| == |slots|
  {
    if slots == [] then []
    else (if keep[0] then [slots[0]] else []) + KeepSlots(slots[1..], keep[1..])
  }

  /** A tag that no kept field has is not found. */
  lemma {:induction false} StruckOut(fs: Fields, keep: seq<bool>, tag: nat)
    requires |keep| == Count(fs) && forall j :: 0 <= j < Count(fs) && keep[j] ==> FieldAt(fs, j).tag != tag
    ensures Find(KeepFields(fs, keep), tag) == Count(KeepFields(fs, keep))
  {
    if fs.Fields? {
      assert FieldAt(fs, 0) == fs.first;
      forall j | 0 <= j < Count(fs.rest) && keep[1..][j]
        ensures FieldAt(fs.rest, j).tag != tag
      {
        assert FieldAt(fs, j + 1) == FieldAt(fs.rest, j) && keep[j + 1];
      }
      StruckOut(fs.rest, keep[1..], tag);
    }
  }

  lemma {:induction false} FoundAt(fs: Fields, i: nat)
    requires i < Count(fs)
    ensures Find(fs, FieldAt(fs, i).tag) <= i
  {
    if i > 0 {
      FoundAt(fs.rest, i - 1);
    }
  }

  lemma DistinctCons(f: Field, fs: Fields)
    requires Distinct(fs) && Find(fs, f.tag) == Count(fs)
    ensures Distinct(Fields(f, fs))
  {
    var all := Fields(f, fs);
    forall i, j | 0 <= i < j < Count(all)
      ensures FieldAt(all, i).tag != FieldAt(all, j).tag
    {
      assert FieldAt(all, j) == FieldAt(fs, j - 1);
      if i == 0 {
        FoundAt(fs, j - 1);
      } else {
        assert FieldAt(all, i) == FieldAt(fs, i - 1);
      }
    }
  }

  /** Striking out fields leaves a good table, in which the tags struck out are unknown. */
  lemma {:induction false} KeepGood(fs: Fields, keep: seq<bool>)
    requires |keep| == Count(fs) && Tags(fs) && Distinct(fs)
    ensures Tags(KeepFields(fs, keep)) && Distinct(KeepFields(fs, keep))
    ensures forall j :: 0 <= j < Count(fs) && !keep[j] ==> Unknown(KeepFields(fs, keep), FieldAt(fs, j).tag)
  {
    hide Nested;
    forall j | 0 <= j < Count(fs) && !keep[j]
      ensures Unknown(KeepFields(fs, keep), FieldAt(fs, j).tag)
    {
      FieldTags(fs, j);
      OthersDiffer(fs, keep, j);
      StruckOut(fs, keep, FieldAt(fs, j).tag);
    }
    if fs.Fields? {
      RestDistinct(fs);
      KeepGood(fs.rest, keep[1..]);
      if keep[0] {
        hide Distinct, Unknown;
        FirstDiffers(fs);
        StruckOut(fs.rest, keep[1..], fs.first.tag);
        DistinctCons(fs.first, KeepFields(fs.rest, keep[1..]));
      }
    }
  }

  lemma OthersDiffer(fs: Fields, keep: seq<bool>, j: nat)
    requires |keep| == Count(fs) && Distinct(fs) && j < Count(fs) && !keep[j]
    ensures forall i :: 0 <= i < Count(fs) && keep[i] ==> FieldAt(fs, i).tag != FieldAt(fs, j).tag
  {
  }

  lemma FirstDiffers(fs: Fields)
    requires fs.Fields? && Distinct(fs)
    ensures forall j :: 0 <= j < Count(fs.rest) ==> FieldAt(fs.rest, j).tag != fs.first.tag
  {
    forall j | 0 <= j < Count(fs.rest)
      ensures FieldAt(fs.rest, j).tag != fs.first.tag
    {
      assert FieldAt(fs, 0) == fs.first && FieldAt(fs, j + 1) == FieldAt(fs.rest, j);
    }
  }

  lemma {:induction false} KeepTyped(fs: Fields, slots: seq<Slot>, keep: seq<bool>)
    requires TypedSlots(fs, slots) && |keep| == |slots| == Count(fs)
    ensures |KeepSlots(slots, keep)| == Count(KeepFields(fs, keep))
  {
    hide TypedSlot;
    if fs.Fields? {
      KeepTyped(fs.rest, slots[1..], keep[1..]);
    }
  }

  // ----- messages -----

  /** The tags of the fields still to come that are struck out are not in the table. */
  ghost predicate Strangers(fs: Fields, gs: Fields, keep: seq<bool>) {
    |keep| == Count(gs) && forall j :: 0 <= j < Count(gs) && !keep[j] ==> Unknown(fs, FieldAt(gs, j).tag)
  }

  lemma StrangersRest(fs: Fields, gs: Fields, keep: seq<bool>)
    requires Strangers(fs, gs, keep) && gs.Fields?
    ensures Strangers(fs, gs.rest, keep[1..]) && (!keep[0] ==> Unknown(fs, gs.first.tag))
  {
    hide Unknown;
    assert FieldAt(gs, 0) == gs.first;
    forall j | 0 <= j < Count(gs.rest) && !keep[1..][j]
      ensures Unknown(fs, FieldAt(gs.rest, j).tag)
    {
      assert FieldAt(gs, j + 1) == FieldAt(gs.rest, j) && !keep[j + 1];
    }
  }

  /** The members from i on are read into their places, those struck out are passed over. */
  lemma {:induction false} LoopSkip(fs: Fields, gs: Fields, i: nat, keep: seq<bool>, slots: seq<Slot>, body: seq<Byte>,
                                    beyond: seq<Byte>, now: seq<Slot>, seen: set<nat>)
    requires Pending(fs, i, now, seen) && Strangers(fs, gs, keep) && |slots| == |keep| == Count(gs)
    requires DropFields(fs, i) == KeepFields(gs, keep) && |KeepSlots(slots, keep)| == Count(KeepFields(gs, keep))
    requires Tags(fs) && Distinct(fs) && TypedSlots(gs, slots) && PrintSlots(gs, slots) == Some(body) && |body| < TWO32
    ensures ParseFields(fs, body, beyond, now, seen)
            == Some((now[..i] + NormalSlots(KeepFields(gs, keep), KeepSlots(slots, keep)), [], beyond))
    decreases gs
  {
    hide Tags, Distinct, TypedSlot, PrintSlot, NormalSlot, DefaultSlot, Nested, ParseFields, DropFields, Strangers,
         Unknown;
    DropIs(fs, i);
    if gs.NoFields? {
      PendingEnd(fs, beyond, now, seen);
      assert now[..i] + [] == now;
    } else {
      hide PrintSlots, Pending;
      var f, slot := gs.first, slots[0];
      var e, others := FirstPrinted(gs, slots, body);
      StrangersRest(fs, gs, keep);
      var later, kept := KeepFields(gs.rest, keep[1..]), KeepSlots(slots[1..], keep[1..]);
      if keep[0] {
        assert KeepSlots(slots, keep) == [slot] + kept;
        FieldTags(fs, i);
        PendingStep(fs, i, now, seen, NormalSlot(f, slot));
        SlotTrip(fs, i, f, slot, e, others, beyond, now, seen);
        var next := now[i := NormalSlot(f, slot)];
        LoopSkip(fs, gs.rest, i + 1, keep[1..], slots[1..], others, beyond, next,
                 if f.rule.Required? then seen + {i} else seen);
        Extended(now, i, NormalSlot(f, slot), NormalSlots(later, kept));
        assert ([slot] + kept)[1..] == kept;
      } else {
        assert KeepSlots(slots, keep) == [] + kept == kept;
        SkipSlot(fs, f, slot, e, others, beyond, now, seen);
        LoopSkip(fs, gs.rest, i, keep[1..], slots[1..], others, beyond, now, seen);
      }
    }
  }

  /** A reader whose table lacks some of the fields restores all the others, and reads every byte. */
  lemma UnknownFieldsPassedOver(fs: Fields, slots: seq<Slot>, keep: seq<bool>, beyond: seq<Byte>)
    requires Tags(fs) && Distinct(fs) && TypedSlots(fs, slots) && |keep| == |slots| == Count(fs)
    requires PrintSlots(fs, slots).Some? && |PrintSlots(fs, slots).value| < TWO32
    ensures |KeepSlots(slots, keep)| == Count(KeepFields(fs, keep))
    ensures Parse(KeepFields(fs, keep), PrintSlots(fs, slots).value, beyond)
            == Some((NormalSlots(KeepFields(fs, keep), KeepSlots(slots, keep)), [], beyond))
  {
    hide Tags, Distinct, TypedSlots, PrintSlots, ParseFields, NormalSlots, DefaultSlots, DefaultSlot, KeepFields,
         KeepSlots, Unknown;
    KeepTyped(fs, slots, keep);
    KeepGood(fs, keep);
    var less := KeepFields(fs, keep);
    forall j | 0 <= j < Count(less)
      ensures DefaultSlots(less)[j] == DefaultSlot(FieldAt(less, j))
    {
      DefaultAt(less, j);
    }
    DropIs(less, 0);
    LoopSkip(less, fs, 0, keep, slots, PrintSlots(fs, slots).value, beyond, DefaultSlots(less), {});
    var kept := NormalSlots(less, KeepSlots(slots, keep));
    assert DefaultSlots(less)[..0] + kept == kept;
  }
}
