// The proof that decoding an encoding merges it, field by field along the decoder's loop.

module PbMerging {
  import opened Wire
  import opened PbVarint
  import opened PbMessages
  import opened PbEncoding
  import opened PbDecoding
  import opened PbBounds
  import opened PbMerge

  // From here on the decoder does the same as from there.
  ghost predicate Continues(d: Descriptor, m: Value, seen: set<nat>, b: seq<Byte>, w: Value, seen': set<nat>,
                            rest: seq<Byte>) {
    m.Msg? && w.Msg? && DecodeLoop(d, m, seen, b) == DecodeLoop(d, w, seen', rest)
  }

  function Seen(f: Field, i: nat, seen: set<nat>): set<nat> {
    if f.htype.Required? then seen + {i} else seen
  }

  // All required fields from the ith on.
  function SeenFrom(fields: seq<Field>, i: nat, seen: set<nat>): (s: set<nat>)
    requires i <= |fields|
    ensures seen <= s
    ensures forall j :: i <= j < |fields| && fields[j].htype.Required? ==> j in s
    decreases |fields| - i
  {
    if i == |fields| then seen else SeenFrom(fields, i + 1, Seen(fields[i], i, seen))
  }

  // The tag of a field leads the decoder to it.
  lemma {:induction false} TagTaken(d: Descriptor, i: nat, wireType: nat, rest: seq<Byte>)
    requires WellFormed(d) && i < |d.fields| && wireType < 8
    ensures EncodeTag(d.fields[i].tag, wireType) + rest != []
    ensures DecodeTag(EncodeTag(d.fields[i].tag, wireType) + rest) == Tag(d.fields[i].tag, wireType, rest)
    ensures Find(d.fields, d.fields[i].tag, 0) == i
  {
    assert FieldOk(d, i);
    VarintRoundTrip(8 * d.fields[i].tag + wireType, rest);
    FindsItself(d, i);
  }

  // One tag and one field's bytes are one round of the loop.
  lemma {:induction false} RoundTaken(d: Descriptor, m: Value, seen: set<nat>, i: nat, wireType: nat, e: seq<Byte>,
                                      tail: seq<Byte>, s: Slot)
    requires WellFormed(d) && i < |d.fields| && wireType < 8
    requires m.Msg? && d.fields[i].slot < |m.slots|
    requires DecodeField(d.fields[i], m.slots[d.fields[i].slot], wireType, e + tail) == Parsed(s, tail)
    ensures Continues(d, m, seen, EncodeTag(d.fields[i].tag, wireType) + e + tail,
                      SetSlot(m, d.fields[i].slot, s), Seen(d.fields[i], i, seen), tail)
  {
    var f := d.fields[i];
    assert EncodeTag(f.tag, wireType) + e + tail == EncodeTag(f.tag, wireType) + (e + tail);
    TagTaken(d, i, wireType, e + tail);
    assert DecodeStep(d, m, seen, Tag(f.tag, wireType, e + tail)) == At(SetSlot(m, f.slot, s), Seen(f, i, seen), tail);
  }

  // What the loop has at slot i when it comes to field i.
  lemma {:induction false} SlotBefore(d: Descriptor, m: Value, v: Value, n: nat, i: nat)
    requires WellFormed(d) && Fits(d, m, false) && Fits(d, v, false) && n <= i < |d.fields|
    ensures d.fields[i].slot < d.slotCount
    ensures if d.fields[i].htype.Oneof? then MergeUpTo(d, m, v, n).slots[d.fields[i].slot].Union?
            else MergeUpTo(d, m, v, n).slots[d.fields[i].slot] == m.slots[d.fields[i].slot]
  {
    assert FieldOk(d, i) && FitsAt(d, i, m, false);
    assert FitsSlot(d.fields[i], m.slots[d.fields[i].slot], false);
    if n > 0 {
      SlotBefore(d, m, v, n - 1, i);
      assert Apart(d.fields[n - 1], d.fields[i]);
    }
  }

  lemma {:induction false} ValueMerges(f: Field, dest: Value, v: Value, e: seq<Byte>, tail: seq<Byte>)
    requires FitsValue(f, v, true) && EncodeValue(f, v) == Some(e) && |e| < TWO32
    requires f.ltype.Submessage? ==> WellFormed(f.sub) && Fits(f.sub, dest, false) && Room(f.sub, dest, v)
    ensures DecodeValue(f, dest, e + tail) == Parsed(MergeValue(f, dest, v), tail)
    decreases v, 3, 0
  {
    if f.ltype.Submessage? {
      var p := EncodeMessage(f.sub, v).value;
      PrefixedIsTaken(p, tail);
      MessageMerges(f.sub, dest, v, p);
    } else {
      ScalarDecodes(f, dest, v, e, tail);
    }
  }

  lemma SetSame(m: Value, k: nat)
    requires m.Msg? && k < |m.slots|
    ensures SetSlot(m, k, m.slots[k]) == m
  {
  }

  // A packed array is decoded entry by entry.
  lemma {:induction false} PackedMerges(f: Field, items: seq<Value>, t: Slot, k: nat, e: seq<Byte>)
    requires f.ltype.Packable() && t.Many? && k <= |t.items| && |items| + (|t.items| - k) <= f.arraySize
    requires forall j :: 0 <= j < |t.items| ==> FitsValue(f, t.items[j], true)
    requires EncodePacked(f, t, k) == Some(e) && |e| < TWO32
    ensures DecodePacked(f, items, e) == Some(items + t.items[k..])
    decreases |t.items| - k
  {
    if k < |t.items| {
      var e0, e1 := EncodeValue(f, t.items[k]).value, EncodePacked(f, t, k + 1).value;
      ScalarDecodes(f, DefaultValue(f), t.items[k], e0, e1);
      PackedMerges(f, items + [t.items[k]], t, k + 1, e1);
      assert items + [t.items[k]] + t.items[k + 1..] == items + t.items[k..];
    } else {
      assert items + t.items[k..] == items;
    }
  }

  lemma {:induction false} ScalarItems(f: Field, t: Slot, n: nat)
    requires !f.ltype.Submessage? && t.Many? && n <= |t.items|
    ensures MergeItems(f, t, n) == t.items[..n]
  {
    if n > 0 {
      ScalarItems(f, t, n - 1);
      assert t.items[..n] == t.items[..n - 1] + [t.items[n - 1]];
    }
  }

  lemma SetTwice(m: Value, k: nat, s: Slot, t: Slot)
    requires m.Msg?
    ensures SetSlot(SetSlot(m, k, s), k, t) == SetSlot(m, k, t)
  {
  }

  // One entry of any other array.
  lemma {:induction false} EntryMerges(d: Descriptor, i: nat, m: Value, items: seq<Value>, v: Value, seen: set<nat>,
                                       e: seq<Byte>, tail: seq<Byte>)
    requires WellFormed(d) && i < |d.fields| && m.Msg? && d.fields[i].slot < |m.slots|
    requires d.fields[i].htype.Repeated? && !d.fields[i].ltype.Packable()
    requires FitsValue(d.fields[i], v, true) && |items| < d.fields[i].arraySize
    requires m.slots[d.fields[i].slot] == Many(items)
    requires EncodeTagged(d.fields[i], v) == Some(e) && |e| < TWO32
    ensures Continues(d, m, seen, e + tail,
                      SetSlot(m, d.fields[i].slot,
                              Many(items + [MergeValue(d.fields[i], DefaultValue(d.fields[i]), v)])),
                      seen, tail)
    decreases v, 4, 0
  {
    var f := d.fields[i];
    var e0 := EncodeValue(f, v).value;
    DefaultValueFits(d, i);
    FitsValueLoosely(f, v);
    RoomInDefault(f, v);
    ValueMerges(f, DefaultValue(f), v, e0, tail);
    RoundTaken(d, m, seen, i, f.ltype.WireType(), e0, tail, Many(items + [MergeValue(f, DefaultValue(f), v)]));
  }

  // The entries from the kth on.
  lemma {:induction false} EachMerges(d: Descriptor, i: nat, m: Value, base: seq<Value>, t: Slot, k: nat,
                                      seen: set<nat>, e: seq<Byte>, tail: seq<Byte>)
    requires WellFormed(d) && i < |d.fields| && m.Msg? && d.fields[i].slot < |m.slots|
    requires d.fields[i].htype.Repeated? && !d.fields[i].ltype.Packable()
    requires t.Many? && k <= |t.items| && forall j :: 0 <= j < |t.items| ==> FitsValue(d.fields[i], t.items[j], true)
    requires |base| + |t.items| <= d.fields[i].arraySize
    requires m.slots[d.fields[i].slot] == Many(base + MergeItems(d.fields[i], t, k))
    requires EncodeEach(d.fields[i], t, k) == Some(e) && |e| < TWO32
    ensures Continues(d, m, seen, e + tail,
                      SetSlot(m, d.fields[i].slot, Many(base + MergeItems(d.fields[i], t, |t.items|))), seen, tail)
    decreases t, 1, |t.items| - k
  {
    var f := d.fields[i];
    if k < |t.items| {
      var e0, e1 := EncodeTagged(f, t.items[k]).value, EncodeEach(f, t, k + 1).value;
      var items := base + MergeItems(f, t, k);
      EntryMerges(d, i, m, items, t.items[k], seen, e0, e1 + tail);
      var s := Many(base + MergeItems(f, t, k + 1));
      assert items + [MergeValue(f, DefaultValue(f), t.items[k])] == s.items;
      assert e + tail == e0 + (e1 + tail);
      EachMerges(d, i, SetSlot(m, f.slot, s), base, t, k + 1, seen, e1, tail);
      SetTwice(m, f.slot, s, Many(base + MergeItems(f, t, |t.items|)));
    } else {
      assert e + tail == tail;
      SetSame(m, f.slot);
    }
  }

  lemma {:induction false} ArrayMerges(d: Descriptor, i: nat, m: Value, t: Slot, seen: set<nat>, e: seq<Byte>,
                                       tail: seq<Byte>)
    requires WellFormed(d) && i < |d.fields| && m.Msg? && d.fields[i].slot < |m.slots|
    requires d.fields[i].htype.Repeated? && FitsSlot(d.fields[i], t, true)
    requires RoomSlot(d.fields[i], m.slots[d.fields[i].slot], t)
    requires EncodeArray(d.fields[i], t) == Some(e) && |e| < TWO32
    ensures Continues(d, m, seen, e + tail,
                      SetSlot(m, d.fields[i].slot, MergeSlot(d.fields[i], m.slots[d.fields[i].slot], t)),
                      seen, tail)
    decreases t, 2, 0
  {
    var f := d.fields[i];
    var base := m.slots[f.slot].items;
    if t.items == [] {
      assert base + MergeItems(f, t, 0) == base;
      assert e + tail == tail;
      SetSame(m, f.slot);
    } else if f.ltype.Packable() {
      var p := EncodePacked(f, t, 0).value;
      PrefixedIsTaken(p, tail);
      PackedMerges(f, base, t, 0, p);
      ScalarItems(f, t, |t.items|);
      assert t.items[0..] == t.items[..|t.items|];
      RoundTaken(d, m, seen, i, WT_STRING, Prefixed(p), tail, MergeSlot(f, m.slots[f.slot], t));
    } else {
      assert base + MergeItems(f, t, 0) == base;
      EachMerges(d, i, m, base, t, 0, seen, e, tail);
    }
  }

  // A required, optional or singular field, or the member of a oneof, that is set.
  lemma {:induction false} SingleMerges(d: Descriptor, i: nat, m: Value, v: Value, seen: set<nat>, e: seq<Byte>,
                                        tail: seq<Byte>)
    requires WellFormed(d) && i < |d.fields| && m.Msg? && d.fields[i].slot < |m.slots|
    requires !d.fields[i].htype.Repeated? && !m.slots[d.fields[i].slot].Many?
    requires FitsValue(d.fields[i], v, true)
    requires !d.fields[i].htype.Oneof? ==> FitsValue(d.fields[i], m.slots[d.fields[i].slot].value, false)
    requires !d.fields[i].htype.Oneof? ==> RoomValue(d.fields[i], m.slots[d.fields[i].slot].value, v)
    requires EncodeTagged(d.fields[i], v) == Some(e) && |e| < TWO32
    ensures Continues(d, m, seen, e + tail,
                      SetSlot(m, d.fields[i].slot,
                              Stored(d.fields[i], MergeValue(d.fields[i],
                                                             Destination(d.fields[i], m.slots[d.fields[i].slot]), v))),
                      Seen(d.fields[i], i, seen), tail)
    decreases v, 5, 0
  {
    var f := d.fields[i];
    var dest := Destination(f, m.slots[f.slot]);
    var e0 := EncodeValue(f, v).value;
    DefaultValueFits(d, i);
    FitsValueLoosely(f, v);
    RoomInDefault(f, v);
    ValueMerges(f, dest, v, e0, tail);
    RoundTaken(d, m, seen, i, f.ltype.WireType(), e0, tail, Stored(f, MergeValue(f, dest, v)));
  }

  lemma {:induction false} FieldMerges(d: Descriptor, i: nat, m: Value, t: Slot, seen: set<nat>, e: seq<Byte>,
                                       tail: seq<Byte>)
    requires WellFormed(d) && i < |d.fields| && m.Msg? && d.fields[i].slot < |m.slots|
    requires FitsSlot(d.fields[i], t, true)
    requires if d.fields[i].htype.Oneof? then m.slots[d.fields[i].slot].Union?
               else FitsSlot(d.fields[i], m.slots[d.fields[i].slot], false)
    requires RoomSlot(d.fields[i], m.slots[d.fields[i].slot], t)
    requires EncodeField(d.fields[i], t) == Some(e) && |e| < TWO32
    ensures Continues(d, m, seen, e + tail,
                      SetSlot(m, d.fields[i].slot, MergeSlot(d.fields[i], m.slots[d.fields[i].slot], t)),
                      Seen(d.fields[i], i, seen), tail)
    decreases t, 4, 0
  {
    var f := d.fields[i];
    if f.htype.Repeated? {
      ArrayMerges(d, i, m, t, seen, e, tail);
    } else if (t.Opt? && !t.has) || (f.htype.Singular? && IsDefault(f, t.value)) || (t.Union? && t.which != f.tag) {
      assert e + tail == tail;
      SetSame(m, f.slot);
    } else {
      SingleMerges(d, i, m, t.value, seen, e, tail);
    }
  }

  lemma {:induction false} NextFieldMerges(d: Descriptor, m: Value, v: Value, i: nat, seen: set<nat>, e: seq<Byte>,
                                           tail: seq<Byte>)
    requires WellFormed(d) && i < |d.fields|
    requires Fits(d, m, false) && Fits(d, v, true) && RoomAt(d, i, m, v)
    requires d.fields[i].slot < |v.slots| && EncodeField(d.fields[i], v.slots[d.fields[i].slot]) == Some(e)
    requires |e| < TWO32
    ensures Continues(d, MergeUpTo(d, m, v, i), seen, e + tail, MergeUpTo(d, m, v, i + 1),
                      Seen(d.fields[i], i, seen), tail)
    decreases v, 0, 0
  {
    var f := d.fields[i];
    assert FitsAt(d, i, m, false) && FitsAt(d, i, v, true);
    FitsLoosely(d, v);
    SlotBefore(d, m, v, i, i);
    FieldMerges(d, i, MergeUpTo(d, m, v, i), v.slots[f.slot], seen, e, tail);
  }

  lemma {:induction false} LoopMerges(d: Descriptor, m: Value, v: Value, i: nat, seen: set<nat>, e: seq<Byte>,
                                      tail: seq<Byte>)
    requires WellFormed(d) && i <= |d.fields|
    requires Fits(d, m, false) && Fits(d, v, true) && Room(d, m, v)
    requires EncodeFrom(d, v, i) == Some(e) && |e| < TWO32
    ensures Continues(d, MergeUpTo(d, m, v, i), seen, e + tail, MergeMessage(d, m, v),
                      SeenFrom(d.fields, i, seen), tail)
    decreases v, 1, |d.fields| - i
  {
    if i < |d.fields| {
      var f := d.fields[i];
      assert f.slot < |v.slots| && RoomAt(d, i, m, v);
      var e0, e1 := EncodeField(f, v.slots[f.slot]).value, EncodeFrom(d, v, i + 1).value;
      NextFieldMerges(d, m, v, i, seen, e0, e1 + tail);
      assert e + tail == e0 + (e1 + tail);
      LoopMerges(d, m, v, i + 1, Seen(f, i, seen), e1, tail);
    } else {
      assert e + tail == tail;
    }
  }

  // pb_decode_noinit of what pb_encode wrote for v merges v into the message.
  lemma {:induction false} MessageMerges(d: Descriptor, m: Value, v: Value, e: seq<Byte>)
    requires WellFormed(d) && Fits(d, m, false) && Fits(d, v, true) && Room(d, m, v)
    requires EncodeMessage(d, v) == Some(e) && |e| < TWO32
    ensures DecodeNoInit(d, m, e) == Parsed(MergeMessage(d, m, v), [])
    decreases v, 2, 0
  {
    LoopMerges(d, m, v, 0, {}, e, []);
    assert e + [] == e;
    assert DecodeLoop(d, MergeMessage(d, m, v), SeenFrom(d.fields, 0, {}), [])
           == At(MergeMessage(d, m, v), SeenFrom(d.fields, 0, {}), []);
  }
}
