// The bounds of the struct: whatever bytes are decoded, every integer stays in its type, and every
// string, byte array and repeated field within its array.

module PbBounds {
  import opened Wire
  import opened PbVarint
  import opened PbMessages
  import opened PbDecoding

  lemma {:induction false} FitsLoosely(d: Descriptor, v: Value)
    requires Fits(d, v, true)
    ensures Fits(d, v, false)
    decreases v, 1
  {
    forall i | 0 <= i < |d.fields|
      ensures FitsAt(d, i, v, false)
    {
      assert FitsAt(d, i, v, true);
      FitsSlotLoosely(d.fields[i], v.slots[d.fields[i].slot]);
    }
  }

  lemma {:induction false} FitsSlotLoosely(f: Field, s: Slot)
    requires FitsSlot(f, s, true)
    ensures FitsSlot(f, s, false)
    decreases s, 3
  {
    if s.Many? {
      forall k | 0 <= k < |s.items|
        ensures FitsValue(f, s.items[k], false)
      {
        FitsValueLoosely(f, s.items[k]);
      }
    } else if !f.htype.Oneof? || s.which == f.tag {
      FitsValueLoosely(f, s.value);
    }
  }

  lemma {:induction false} FitsValueLoosely(f: Field, v: Value)
    requires FitsValue(f, v, true)
    ensures FitsValue(f, v, false)
    decreases v, 2
  {
    if f.ltype.Submessage? {
      FitsLoosely(f.sub, v);
    }
  }

  lemma {:induction false} DefaultValueFits(d: Descriptor, i: nat)
    requires WellFormed(d) && i < |d.fields|
    ensures FitsValue(d.fields[i], DefaultValue(d.fields[i]), false)
    ensures d.fields[i].ltype.Submessage? ==>
              WellFormed(d.fields[i].sub) && Fits(d.fields[i].sub, DefaultValue(d.fields[i]), false)
  {
    var f := d.fields[i];
    assert FieldOk(d, i);
    if f.ltype.Submessage? {
      DefaultsFit(f.sub);
      FitsLoosely(f.sub, Defaults(f.sub));
    } else {
      FitsValueLoosely(f, DefaultValue(f));
    }
  }

  lemma {:induction false} LoopFits(d: Descriptor, m: Value, seen: set<nat>, b: seq<Byte>)
    requires WellFormed(d) && Fits(d, m, false)
    ensures DecodeLoop(d, m, seen, b).At? ==> Fits(d, DecodeLoop(d, m, seen, b).msg, false)
    decreases |b|, 5, 0
  {
    if b != [] {
      var t := DecodeTag(b);
      if t.Tag? && DecodeStep(d, m, seen, t).At? {
        var s := DecodeStep(d, m, seen, t);
        StepFits(d, m, seen, t);
        LoopFits(d, s.msg, s.seen, s.rest);
      }
    }
  }

  lemma {:induction false} StepFits(d: Descriptor, m: Value, seen: set<nat>, t: TagRead)
    requires WellFormed(d) && Fits(d, m, false) && t.Tag? && DecodeStep(d, m, seen, t).At?
    ensures Fits(d, DecodeStep(d, m, seen, t).msg, false)
    decreases |t.rest|, 4, 0
  {
    var i := Find(d.fields, t.tag, 0);
    if i < |d.fields| {
      var k := d.fields[i].slot;
      assert FieldOk(d, i) && FitsAt(d, i, m, false);
      FieldFits(d, i, m.slots[k], t.wireType, t.rest);
      var s := DecodeField(d.fields[i], m.slots[k], t.wireType, t.rest).value;
      StoreFits(d, i, m, s);
      assert DecodeStep(d, m, seen, t).msg == SetSlot(m, k, s);
    }
  }

  lemma {:induction false} StoreFits(d: Descriptor, i: nat, m: Value, t: Slot)
    requires WellFormed(d) && i < |d.fields| && Fits(d, m, false)
    requires FitsSlot(d.fields[i], t, false) && (d.fields[i].htype.Oneof? ==> t.Union? && t.which == d.fields[i].tag)
    ensures Fits(d, SetSlot(m, d.fields[i].slot, t), false)
  {
    forall j | 0 <= j < |d.fields|
      ensures FitsAt(d, j, SetSlot(m, d.fields[i].slot, t), false)
    {
      assert FieldOk(d, j) && FitsAt(d, j, m, false);
      StoredBesides(d, i, j, t);
    }
  }

  // A slot that field i stores to is in bounds for every field that shares it.
  lemma {:induction false} StoredBesides(d: Descriptor, i: nat, j: nat, t: Slot)
    requires WellFormed(d) && i < |d.fields| && j < |d.fields|
    requires FitsSlot(d.fields[i], t, false) && (d.fields[i].htype.Oneof? ==> t.Union? && t.which == d.fields[i].tag)
    ensures d.fields[i].slot == d.fields[j].slot ==> FitsSlot(d.fields[j], t, false)
  {
  }

  lemma {:induction false} FieldFits(d: Descriptor, i: nat, s: Slot, wireType: nat, b: seq<Byte>)
    requires WellFormed(d) && i < |d.fields| && FitsSlot(d.fields[i], s, false)
    requires DecodeField(d.fields[i], s, wireType, b).Parsed?
    ensures FitsSlot(d.fields[i], DecodeField(d.fields[i], s, wireType, b).value, false)
    ensures d.fields[i].htype.Oneof? ==> DecodeField(d.fields[i], s, wireType, b).value.Union?
                                         && DecodeField(d.fields[i], s, wireType, b).value.which == d.fields[i].tag
    decreases |b|, 3, 0
  {
    var f := d.fields[i];
    DefaultValueFits(d, i);
    if f.htype.Repeated? && wireType == WT_STRING && f.ltype.Packable() {
      PackedFits(f, s.items, TakePrefixed(b).value);
    } else if f.htype.Repeated? {
      ValueFits(d, i, DefaultValue(f), b);
    } else {
      ValueFits(d, i, Destination(f, s), b);
    }
  }

  lemma {:induction false} PackedFits(f: Field, items: seq<Value>, b: seq<Byte>)
    requires f.ltype.Packable() && |items| <= f.arraySize
    requires forall k :: 0 <= k < |items| ==> FitsValue(f, items[k], false)
    requires DecodePacked(f, items, b).Some?
    ensures |DecodePacked(f, items, b).value| <= f.arraySize
    ensures forall k :: 0 <= k < |DecodePacked(f, items, b).value| ==>
              FitsValue(f, DecodePacked(f, items, b).value[k], false)
    decreases |b|, 2, 0
  {
    if b != [] {
      var v := DecodeValue(f, DefaultValue(f), b);
      ScalarFits(f, DefaultValue(f), b);
      PackedFits(f, items + [v.value], v.rest);
    }
  }

  lemma {:induction false} FixedBelow(b: seq<Byte>, w: nat, limit: nat)
    requires (w == 4 && limit == TWO32) || (w == 8 && limit == TWO64)
    requires Take(b, w).Parsed?
    ensures GetLittleEndian(Take(b, w).value) < limit
  {
    Powers();
    LittleEndianBelow(Take(b, w).value);
  }

  lemma {:induction false} ScalarFits(f: Field, dest: Value, b: seq<Byte>)
    requires !f.ltype.Submessage? && DecodeValue(f, dest, b).Parsed?
    requires f.ltype.FixedLengthBytes? ==> FitsValue(f, DefaultValue(f), false)
    ensures FitsValue(f, DecodeValue(f, dest, b).value, false)
  {
    match f.ltype
    case Fixed32 => FixedBelow(b, 4, TWO32);
    case Fixed64 => FixedBelow(b, 8, TWO64);
    case _ =>
  }

  lemma {:induction false} ValueFits(d: Descriptor, i: nat, dest: Value, b: seq<Byte>)
    requires WellFormed(d) && i < |d.fields| && (d.fields[i].ltype.Submessage? ==> Fits(d.fields[i].sub, dest, false))
    requires DecodeValue(d.fields[i], dest, b).Parsed?
    ensures FitsValue(d.fields[i], DecodeValue(d.fields[i], dest, b).value, false)
    decreases |b|, 1, 0
  {
    var f := d.fields[i];
    DefaultValueFits(d, i);
    if f.ltype.Submessage? {
      LoopFits(f.sub, dest, {}, TakePrefixed(b).value);
    } else {
      ScalarFits(f, dest, b);
    }
  }

  // pb_decode of any bytes whatever.
  lemma {:induction false} DecodedFits(d: Descriptor, b: seq<Byte>)
    requires WellFormed(d) && Decode(d, b).Parsed?
    ensures Fits(d, Decode(d, b).value, false)
  {
    DefaultsFit(d);
    FitsLoosely(d, Defaults(d));
    LoopFits(d, Defaults(d), {}, b);
  }
}
