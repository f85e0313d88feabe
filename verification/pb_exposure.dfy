// When a failing pb_decode leaves the bounds of the struct: exactly where an array entry or a oneof
// member whose memory need not fit is announced and then not written.

module PbExposure {
  import opened Wire
  import opened PbVarint
  import opened PbMessages
  import opened PbDecoding
  import opened PbBounds
  import opened PbLeft

  // Memory of the field's type need not fit: it has the size of a byte array or a count in it.
  ghost predicate Loose(f: Field)
    decreases f, 1
  {
    f.ltype.Bytes? || (f.ltype.Submessage? && LooseMessage(f.sub))
  }

  ghost predicate LooseMessage(d: Descriptor)
    decreases d, 0
  {
    exists i :: 0 <= i < |d.fields| && LooseField(d.fields[i])
  }

  ghost predicate LooseField(f: Field)
    decreases f, 2
  {
    Loose(f) || (f.htype.Repeated? && f.arraySize < PB_SIZE_MAX)
  }

  // What may stand in memory is out of bounds for some contents just for these fields.
  lemma {:induction false} LooseHolds(f: Field) returns (held: Value)
    requires Loose(f) && (f.ltype.Submessage? ==> WellFormed(f.sub))
    ensures Holds(f, held) && !FitsValue(f, held, false)
    decreases f, 1
  {
    if f.ltype.Bytes? {
      held := Raw(Zeros(PB_SIZE_MAX));
    } else {
      var d := f.sub;
      var i :| 0 <= i < |d.fields| && LooseField(d.fields[i]);
      assert FieldOk(d, i);
      var s := LooseSlot(d, i);
      held := SetSlot(Defaults(d), d.fields[i].slot, s);
      HeldBesides(d, i, s);
      assert !FitsAt(d, i, held, false);
    }
  }

  lemma {:induction false} LooseSlot(d: Descriptor, i: nat) returns (s: Slot)
    requires WellFormed(d) && i < |d.fields| && LooseField(d.fields[i])
    ensures HoldsSlot(d.fields[i], s) && !FitsSlot(d.fields[i], s, false)
    ensures d.fields[i].htype.Oneof? ==> s.Union? && s.which == d.fields[i].tag
    decreases d.fields[i], 2
  {
    var f := d.fields[i];
    assert FieldOk(d, i);
    if f.htype.Repeated? && f.arraySize < PB_SIZE_MAX {
      BlankIsHeld(f);
      s := Many(seq(PB_SIZE_MAX, _ => Blank(f)));
    } else {
      var held := LooseHolds(f);
      match f.htype
      case Required => s := One(held);
      case Optional => s := Opt(true, held);
      case Singular => s := One(held);
      case Repeated =>
        s := Many([held]);
        assert s.items[0] == held;
      case Oneof => s := Union(f.tag, held);
    }
  }

  lemma {:induction false} HeldBesides(d: Descriptor, i: nat, s: Slot)
    requires WellFormed(d) && i < |d.fields| && HoldsSlot(d.fields[i], s)
    requires d.fields[i].htype.Oneof? ==> s.Union? && s.which == d.fields[i].tag
    ensures HoldsMessage(d, SetSlot(Defaults(d), d.fields[i].slot, s))
  {
    DefaultsFit(d);
    FitsLoosely(d, Defaults(d));
    FittingIsHeld(d, Defaults(d));
    forall j | 0 <= j < |d.fields|
      ensures d.fields[j].slot == d.fields[i].slot ==> HoldsSlot(d.fields[j], s)
    {
      assert j < i ==> Apart(d.fields[j], d.fields[i]);
      assert i < j ==> Apart(d.fields[i], d.fields[j]);
    }
  }

  lemma {:induction false} TightFits(f: Field, v: Value)
    requires !Loose(f) && Holds(f, v) && (f.ltype.Submessage? ==> WellFormed(f.sub))
    requires !f.ltype.Submessage? ==> FitsValue(f, DefaultValue(f), false)
    ensures FitsValue(f, v, false)
    decreases v, 2
  {
    if f.ltype.Submessage? {
      forall i | 0 <= i < |f.sub.fields|
        ensures FitsAt(f.sub, i, v, false)
      {
        assert FieldOk(f.sub, i) && !LooseField(f.sub.fields[i]);
        TightSlotFits(f.sub, i, v.slots[f.sub.fields[i].slot]);
      }
    }
  }

  lemma {:induction false} TightSlotFits(d: Descriptor, i: nat, s: Slot)
    requires WellFormed(d) && i < |d.fields| && !LooseField(d.fields[i]) && HoldsSlot(d.fields[i], s)
    ensures FitsSlot(d.fields[i], s, false)
    decreases s, 2
  {
    var f := d.fields[i];
    assert FieldOk(d, i);
    DefaultValueFits(d, i);
    if s.Many? {
      forall k | 0 <= k < |s.items|
        ensures FitsValue(f, s.items[k], false)
      {
        TightFits(f, s.items[k]);
      }
    } else if !f.htype.Oneof? || s.which == f.tag {
      TightFits(f, s.value);
    }
  }

  // A decoder that fails, in memory of which nothing is known, without writing what does not fit there:
  // a byte array whose length cannot be read or is refused, an array entry whose length cannot be read.
  ghost predicate HeldExposed(f: Field, b: seq<Byte>)
    decreases |b|, 2, 0
  {
    if f.ltype.Bytes? then DecodeVarint32(b).Failed? || !LengthOk(f, DecodeVarint32(b).value)
    else f.ltype.Submessage? && (if TakePrefixed(b).Failed? then Loose(f) else PlaceExposed(f, Defaults(f.sub), b))
  }

  // Inside a submessage.
  ghost predicate PlaceExposed(f: Field, dest: Value, b: seq<Byte>)
    decreases |b|, 1, 0
  {
    && f.ltype.Submessage? && dest.Msg? && TakePrefixed(b).Parsed?
    && Exposed(f.sub, dest, {}, TakePrefixed(b).value)
  }

  ghost predicate FieldExposed(f: Field, s: Slot, wireType: nat, b: seq<Byte>)
    decreases |b|, 3, 0
  {
    if f.htype.Repeated? then
      s.Many? && !(wireType == WT_STRING && f.ltype.Packable()) && |s.items| < f.arraySize && HeldExposed(f, b)
    else
      !s.Many? && if Unset(f, s) then HeldExposed(f, b) else PlaceExposed(f, Place(f, s), b)
  }

  // The loop stops at such a place.
  ghost predicate Exposed(d: Descriptor, m: Value, seen: set<nat>, b: seq<Byte>)
    requires m.Msg?
    decreases |b|, 5, 0
  {
    && b != [] && DecodeTag(b).Tag?
    && var t := DecodeTag(b);
       var s, i := DecodeStep(d, m, seen, t), Find(d.fields, t.tag, 0);
       if s.At? then Exposed(d, s.msg, s.seen, s.rest)
       else i < |d.fields| && d.fields[i].slot < |m.slots|
            && FieldExposed(d.fields[i], m.slots[d.fields[i].slot], t.wireType, t.rest)
  }

  // Elsewhere the struct stays within bounds.

  lemma {:induction false} IntegerStays(f: Field, dest: Value, b: seq<Byte>, v: Value)
    requires f.ltype.Varint? || f.ltype.Uvarint? || f.ltype.Svarint?
    requires IntegerLeaves(f, dest, b, v) && FitsValue(f, dest, false)
    ensures FitsValue(f, v, false)
  {
  }

  lemma {:induction false} ScalarStays(f: Field, dest: Value, b: seq<Byte>, v: Value)
    requires !f.ltype.Submessage? && ValueLeaves(f, dest, b, v)
    requires f.ltype.FixedLengthBytes? ==> FitsValue(f, DefaultValue(f), false)
    requires FitsValue(f, dest, false) || (f.ltype.Bytes? && !HeldExposed(f, b))
    ensures FitsValue(f, v, false)
  {
    if f.ltype.Varint? || f.ltype.Uvarint? || f.ltype.Svarint? {
      IntegerStays(f, dest, b, v);
    } else if DecodeValue(f, dest, b).Parsed? {
      ScalarFits(f, dest, b);
    }
  }

  lemma {:induction false} PlaceStays(d: Descriptor, i: nat, dest: Value, b: seq<Byte>, v: Value)
    requires WellFormed(d) && i < |d.fields| && ValueLeaves(d.fields[i], dest, b, v)
    requires FitsValue(d.fields[i], dest, false) && !d.fields[i].htype.Repeated?
    requires !PlaceExposed(d.fields[i], dest, b)
    ensures FitsValue(d.fields[i], v, false)
    decreases |b|, 1, 0
  {
    var f := d.fields[i];
    assert FieldOk(d, i);
    DefaultValueFits(d, i);
    if !f.ltype.Submessage? {
      ScalarStays(f, dest, b, v);
    } else if TakePrefixed(b).Parsed? {
      LoopStays(f.sub, dest, {}, TakePrefixed(b).value, v);
    }
  }

  lemma {:induction false} HeldStays(d: Descriptor, i: nat, held: Value, b: seq<Byte>, v: Value)
    requires WellFormed(d) && i < |d.fields| && Holds(d.fields[i], held) && ValueLeaves(d.fields[i], held, b, v)
    requires !HeldExposed(d.fields[i], b) && (d.fields[i].ltype.Submessage? ==> d.fields[i].htype.Repeated?)
    ensures FitsValue(d.fields[i], v, false)
    decreases |b|, 2, 0
  {
    var f := d.fields[i];
    assert FieldOk(d, i);
    DefaultValueFits(d, i);
    if !Loose(f) {
      TightFits(f, held);
    }
    if !f.ltype.Submessage? {
      ScalarStays(f, held, b, v);
    } else if TakePrefixed(b).Parsed? {
      LoopStays(f.sub, Defaults(f.sub), {}, TakePrefixed(b).value, v);
    }
  }

  lemma {:induction false} PackedStays(f: Field, items: seq<Value>, b: seq<Byte>)
    requires f.ltype.Packable() && f.htype.Repeated? && FitsSlot(f, Many(items), false)
    ensures FitsSlot(f, Many(PackedLeft(f, items, b)), false)
    decreases |b|
  {
    if b != [] && |items| < f.arraySize && DecodeValue(f, DefaultValue(f), b).Parsed? {
      var v := DecodeValue(f, DefaultValue(f), b);
      ScalarFits(f, DefaultValue(f), b);
      PackedStays(f, items + [v.value], v.rest);
    }
  }

  lemma {:induction false} FieldStays(d: Descriptor, i: nat, s: Slot, wireType: nat, b: seq<Byte>, t: Slot)
    requires WellFormed(d) && i < |d.fields| && FitsSlot(d.fields[i], s, false)
    requires FieldLeaves(d.fields[i], s, wireType, b, t) && !FieldExposed(d.fields[i], s, wireType, b)
    ensures FitsSlot(d.fields[i], t, false)
    decreases |b|, 3, 0
  {
    var f := d.fields[i];
    assert FieldOk(d, i);
    DefaultValueFits(d, i);
    if f.htype.Repeated? {
      if wireType == WT_STRING && f.ltype.Packable() {
        if TakePrefixed(b).Parsed? {
          PackedStays(f, s.items, TakePrefixed(b).value);
        }
      } else if |s.items| < f.arraySize {
        var v := t.items[|s.items|];
        var held :| Holds(f, held) && ValueLeaves(f, held, b, v);
        HeldStays(d, i, held, b, v);
        assert t.items == s.items + [v];
      }
    } else if Unset(f, s) {
      var held :| Holds(f, held) && ValueLeaves(f, held, b, t.value);
      HeldStays(d, i, held, b, t.value);
    } else {
      PlaceStays(d, i, Place(f, s), b, t.value);
    }
  }

  lemma {:induction false} LoopStays(d: Descriptor, m: Value, seen: set<nat>, b: seq<Byte>, r: Value)
    requires WellFormed(d) && Fits(d, m, false) && LoopLeaves(d, m, seen, b, r) && !Exposed(d, m, seen, b)
    ensures Fits(d, r, false)
    decreases |b|, 5, 0
  {
    if b != [] && DecodeTag(b).Tag? {
      var t := DecodeTag(b);
      var s, i := DecodeStep(d, m, seen, t), Find(d.fields, t.tag, 0);
      if s.At? {
        StepFits(d, m, seen, t);
        LoopStays(d, s.msg, s.seen, s.rest, r);
      } else if i < |d.fields| && d.fields[i].slot < |m.slots| {
        var k := d.fields[i].slot;
        assert FitsAt(d, i, m, false);
        FieldStays(d, i, m.slots[k], t.wireType, t.rest, r.slots[k]);
        StoreFits(d, i, m, r.slots[k]);
      }
    }
  }

  // And there it need not.

  lemma {:induction false} HeldEscapes(d: Descriptor, i: nat, b: seq<Byte>) returns (v: Value)
    requires WellFormed(d) && i < |d.fields| && HeldExposed(d.fields[i], b)
    requires d.fields[i].ltype.Submessage? ==> d.fields[i].htype.Repeated?
    ensures HeldLeaves(d.fields[i], b, v) && !FitsValue(d.fields[i], v, false)
    decreases |b|, 2, 0
  {
    var f := d.fields[i];
    assert FieldOk(d, i);
    if f.ltype.Bytes? || TakePrefixed(b).Failed? {
      v := LooseHolds(f);
      assert ValueLeaves(f, v, b, v);
    } else {
      DefaultsFit(f.sub);
      FitsLoosely(f.sub, Defaults(f.sub));
      v := LoopEscapes(f.sub, Defaults(f.sub), {}, TakePrefixed(b).value);
      BlankIsHeld(f);
      assert ValueLeaves(f, Blank(f), b, v);
    }
  }

  lemma {:induction false} FieldEscapes(d: Descriptor, i: nat, s: Slot, wireType: nat, b: seq<Byte>)
    returns (t: Slot)
    requires WellFormed(d) && i < |d.fields| && FitsSlot(d.fields[i], s, false)
    requires FieldExposed(d.fields[i], s, wireType, b)
    ensures FieldLeaves(d.fields[i], s, wireType, b, t) && !FitsSlot(d.fields[i], t, false)
    decreases |b|, 3, 0
  {
    var f := d.fields[i];
    assert FieldOk(d, i);
    DefaultValueFits(d, i);
    if f.htype.Repeated? {
      var v := HeldEscapes(d, i, b);
      t := Many(s.items + [v]);
      assert t.items[|s.items|] == v;
    } else {
      var v;
      if Unset(f, s) {
        v := HeldEscapes(d, i, b);
      } else {
        v := LoopEscapes(f.sub, Place(f, s), {}, TakePrefixed(b).value);
      }
      t := Stored(f, v);
    }
  }

  lemma {:induction false} LoopEscapes(d: Descriptor, m: Value, seen: set<nat>, b: seq<Byte>) returns (r: Value)
    requires WellFormed(d) && Fits(d, m, false) && Exposed(d, m, seen, b)
    ensures LoopLeaves(d, m, seen, b, r) && !Fits(d, r, false)
    decreases |b|, 5, 0
  {
    var t := DecodeTag(b);
    var s, i := DecodeStep(d, m, seen, t), Find(d.fields, t.tag, 0);
    if s.At? {
      StepFits(d, m, seen, t);
      r := LoopEscapes(d, s.msg, s.seen, s.rest);
    } else {
      var k := d.fields[i].slot;
      assert FitsAt(d, i, m, false);
      var left := FieldEscapes(d, i, m.slots[k], t.wireType, t.rest);
      r := Msg(m.slots[k := left]);
      assert !FitsAt(d, i, r, false);
    }
  }

  // For every byte string: all that may be left of a struct within bounds is within bounds exactly
  // when the decoding does not stop at such a place.
  lemma {:induction false} StaysUnlessExposed(d: Descriptor, m: Value, b: seq<Byte>)
    requires WellFormed(d) && Fits(d, m, false)
    ensures (forall r :: LoopLeaves(d, m, {}, b, r) ==> Fits(d, r, false)) <==> !Exposed(d, m, {}, b)
  {
    if Exposed(d, m, {}, b) {
      var r := LoopEscapes(d, m, {}, b);
    } else {
      forall r | LoopLeaves(d, m, {}, b, r)
        ensures Fits(d, r, false)
      {
        LoopStays(d, m, {}, b, r);
      }
    }
  }
}
