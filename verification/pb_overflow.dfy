// What an encoding does not fit into, it does not decode into: the room that merging needs is
// exactly what makes it succeed.

module PbOverflow {
  import opened Wire
  import opened PbVarint
  import opened PbMessages
  import opened PbEncoding
  import opened PbDecoding
  import opened PbBounds
  import opened PbMerge
  import opened PbMerging

  // From here on the decoder fails.
  ghost predicate Stops(d: Descriptor, m: Value, seen: set<nat>, b: seq<Byte>) {
    m.Msg? && DecodeLoop(d, m, seen, b).Stopped?
  }

  lemma {:induction false} RoundStops(d: Descriptor, m: Value, seen: set<nat>, i: nat, wireType: nat, e: seq<Byte>,
                                      tail: seq<Byte>)
    requires WellFormed(d) && i < |d.fields| && wireType < 8
    requires m.Msg? && d.fields[i].slot < |m.slots|
    requires DecodeField(d.fields[i], m.slots[d.fields[i].slot], wireType, e + tail).Failed?
    ensures Stops(d, m, seen, EncodeTag(d.fields[i].tag, wireType) + e + tail)
  {
    var f := d.fields[i];
    assert EncodeTag(f.tag, wireType) + e + tail == EncodeTag(f.tag, wireType) + (e + tail);
    TagTaken(d, i, wireType, e + tail);
    assert DecodeStep(d, m, seen, Tag(f.tag, wireType, e + tail)).Stopped?;
  }

  lemma {:induction false} PackedStops(f: Field, items: seq<Value>, t: Slot, k: nat, e: seq<Byte>)
    requires f.ltype.Packable() && t.Many? && k <= |t.items| && |items| <= f.arraySize < |items| + (|t.items| - k)
    requires forall j :: 0 <= j < |t.items| ==> FitsValue(f, t.items[j], true)
    requires EncodePacked(f, t, k) == Some(e) && |e| < TWO32
    ensures DecodePacked(f, items, e).None?
    decreases |t.items| - k
  {
    var e0, e1 := EncodeValue(f, t.items[k]).value, EncodePacked(f, t, k + 1).value;
    ScalarDecodes(f, DefaultValue(f), t.items[k], e0, e1);
    assert e != [];
    if |items| < f.arraySize {
      PackedStops(f, items + [t.items[k]], t, k + 1, e1);
    }
  }

  lemma {:induction false} EachStops(d: Descriptor, i: nat, m: Value, items: seq<Value>, t: Slot, k: nat,
                                     seen: set<nat>, e: seq<Byte>, tail: seq<Byte>)
    requires WellFormed(d) && i < |d.fields| && m.Msg? && d.fields[i].slot < |m.slots|
    requires d.fields[i].htype.Repeated? && !d.fields[i].ltype.Packable()
    requires t.Many? && k <= |t.items| && forall j :: 0 <= j < |t.items| ==> FitsValue(d.fields[i], t.items[j], true)
    requires |items| <= d.fields[i].arraySize < |items| + (|t.items| - k)
    requires m.slots[d.fields[i].slot] == Many(items)
    requires EncodeEach(d.fields[i], t, k) == Some(e) && |e| < TWO32
    ensures Stops(d, m, seen, e + tail)
    decreases |t.items| - k
  {
    var f := d.fields[i];
    var e0, e1 := EncodeTagged(f, t.items[k]).value, EncodeEach(f, t, k + 1).value;
    assert e + tail == e0 + (e1 + tail);
    if |items| < f.arraySize {
      EntryMerges(d, i, m, items, t.items[k], seen, e0, e1 + tail);
      var more := items + [MergeValue(f, DefaultValue(f), t.items[k])];
      EachStops(d, i, SetSlot(m, f.slot, Many(more)), more, t, k + 1, seen, e1, tail);
    } else {
      var value := EncodeValue(f, t.items[k]).value;
      assert e0 + (e1 + tail) == EncodeTag(f.tag, f.ltype.WireType()) + value + (e1 + tail);
      RoundStops(d, m, seen, i, f.ltype.WireType(), value, e1 + tail);
    }
  }

  lemma {:induction false} ArrayStops(d: Descriptor, i: nat, m: Value, t: Slot, seen: set<nat>, e: seq<Byte>,
                                      tail: seq<Byte>)
    requires WellFormed(d) && i < |d.fields| && m.Msg? && d.fields[i].slot < |m.slots|
    requires d.fields[i].htype.Repeated? && FitsSlot(d.fields[i], t, true)
    requires FitsSlot(d.fields[i], m.slots[d.fields[i].slot], false)
    requires |m.slots[d.fields[i].slot].items| + |t.items| > d.fields[i].arraySize
    requires EncodeArray(d.fields[i], t) == Some(e) && |e| < TWO32
    ensures Stops(d, m, seen, e + tail)
  {
    var f := d.fields[i];
    var items := m.slots[f.slot].items;
    if f.ltype.Packable() {
      var p := EncodePacked(f, t, 0).value;
      PrefixedIsTaken(p, tail);
      PackedStops(f, items, t, 0, p);
      RoundStops(d, m, seen, i, WT_STRING, Prefixed(p), tail);
    } else {
      EachStops(d, i, m, items, t, 0, seen, e, tail);
    }
  }

  lemma {:induction false} ValueStops(d: Descriptor, i: nat, dest: Value, v: Value, e: seq<Byte>, tail: seq<Byte>)
    requires WellFormed(d) && i < |d.fields|
    requires FitsValue(d.fields[i], v, true) && FitsValue(d.fields[i], dest, false) && !RoomValue(d.fields[i], dest, v)
    requires EncodeValue(d.fields[i], v) == Some(e) && |e| < TWO32
    ensures DecodeValue(d.fields[i], dest, e + tail).Failed?
    decreases v, 3, 0
  {
    var f := d.fields[i];
    assert FieldOk(d, i);
    var p := EncodeMessage(f.sub, v).value;
    PrefixedIsTaken(p, tail);
    MessageStops(f.sub, dest, v, p);
  }

  lemma {:induction false} FieldStops(d: Descriptor, i: nat, m: Value, t: Slot, seen: set<nat>, e: seq<Byte>,
                                      tail: seq<Byte>)
    requires WellFormed(d) && i < |d.fields| && m.Msg? && d.fields[i].slot < |m.slots|
    requires FitsSlot(d.fields[i], t, true) && !d.fields[i].htype.Oneof?
    requires FitsSlot(d.fields[i], m.slots[d.fields[i].slot], false)
    requires !RoomSlot(d.fields[i], m.slots[d.fields[i].slot], t)
    requires EncodeField(d.fields[i], t) == Some(e) && |e| < TWO32
    ensures Stops(d, m, seen, e + tail)
    decreases t, 4, 0
  {
    var f := d.fields[i];
    if f.htype.Repeated? {
      ArrayStops(d, i, m, t, seen, e, tail);
    } else {
      var e0 := EncodeValue(f, t.value).value;
      ValueStops(d, i, m.slots[f.slot].value, t.value, e0, tail);
      RoundStops(d, m, seen, i, f.ltype.WireType(), e0, tail);
    }
  }

  lemma OneofHasRoom(f: Field, s: Slot, t: Slot)
    ensures f.htype.Oneof? ==> RoomSlot(f, s, t)
  {
  }

  lemma {:induction false} NoRoomInSlot(d: Descriptor, i: nat, m: Value, v: Value)
    requires i < |d.fields| && Fits(d, m, false) && Fits(d, v, false) && !RoomAt(d, i, m, v)
    ensures var k := d.fields[i].slot;
            k < |m.slots| && k < |v.slots| && !RoomSlot(d.fields[i], m.slots[k], v.slots[k])
            && !d.fields[i].htype.Oneof?
  {
    assert FitsAt(d, i, m, false) && FitsAt(d, i, v, false);
    var f := d.fields[i];
    OneofHasRoom(f, m.slots[f.slot], v.slots[f.slot]);
  }

  lemma {:induction false} LoopStops(d: Descriptor, m: Value, v: Value, i: nat, j: nat, seen: set<nat>, e: seq<Byte>,
                                     tail: seq<Byte>)
    requires WellFormed(d) && i <= j < |d.fields|
    requires Fits(d, m, false) && Fits(d, v, true) && !RoomAt(d, j, m, v)
    requires EncodeFrom(d, v, i) == Some(e) && |e| < TWO32
    ensures Stops(d, MergeUpTo(d, m, v, i), seen, e + tail)
    decreases v, 1, |d.fields| - i
  {
    var f := d.fields[i];
    assert FitsAt(d, i, m, false) && FitsAt(d, i, v, true);
    var t := v.slots[f.slot];
    assert FitsSlot(f, t, true) && FitsSlot(f, m.slots[f.slot], false);
    var e0, e1 := EncodeField(f, t).value, EncodeFrom(d, v, i + 1).value;
    assert e + tail == e0 + (e1 + tail);
    if RoomAt(d, i, m, v) {
      NextFieldMerges(d, m, v, i, seen, e0, e1 + tail);
      LoopStops(d, m, v, i + 1, j, Seen(f, i, seen), e1, tail);
    } else {
      FitsLoosely(d, v);
      NoRoomInSlot(d, i, m, v);
      SlotBefore(d, m, v, i, i);
      FieldStops(d, i, MergeUpTo(d, m, v, i), t, seen, e0, e1 + tail);
    }
  }

  lemma {:induction false} MessageStops(d: Descriptor, m: Value, v: Value, e: seq<Byte>)
    requires WellFormed(d) && Fits(d, m, false) && Fits(d, v, true) && !Room(d, m, v)
    requires EncodeMessage(d, v) == Some(e) && |e| < TWO32
    ensures DecodeNoInit(d, m, e).Failed?
    decreases v, 2, 0
  {
    var j :| 0 <= j < |d.fields| && !RoomAt(d, j, m, v);
    LoopStops(d, m, v, 0, j, {}, e, []);
    assert e + [] == e;
  }

  // pb_decode_noinit of an encoding succeeds exactly when the arrays have room, and then merges.
  lemma {:induction false} MergesIfRoom(d: Descriptor, m: Value, v: Value, e: seq<Byte>)
    requires WellFormed(d) && Fits(d, m, false) && Fits(d, v, true)
    requires EncodeMessage(d, v) == Some(e) && |e| < TWO32
    ensures DecodeNoInit(d, m, e) == if Room(d, m, v) then Parsed(MergeMessage(d, m, v), []) else Failed
  {
    if Room(d, m, v) {
      MessageMerges(d, m, v, e);
    } else {
      MessageStops(d, m, v, e);
    }
  }
}
