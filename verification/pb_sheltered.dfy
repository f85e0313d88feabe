// What holds of every failing pb_decode, and for which messages the struct always stays within bounds.

module PbSheltered {
  import opened Wire
  import opened PbVarint
  import opened PbMessages
  import opened PbDecoding
  import opened PbBounds
  import opened PbMerging
  import opened PbLeft
  import opened PbExposure

  // Within bounds but for the byte array of a oneof and the last entry of an array: every count of the
  // message and of its submessages is within its array, and what has a bound of its own keeps it.
  ghost predicate Contained(d: Descriptor, v: Value)
    decreases v, 1
  {
    && v.Msg? && |v.slots| == d.slotCount
    && forall i :: 0 <= i < |d.fields| ==> ContainedAt(d, i, v)
  }

  ghost predicate ContainedAt(d: Descriptor, i: nat, v: Value)
    requires i < |d.fields|
    decreases v, 0
  {
    && v.Msg? && d.fields[i].slot < |v.slots|
    && ContainedSlot(d.fields[i], v.slots[d.fields[i].slot])
  }

  ghost predicate ContainedSlot(f: Field, s: Slot)
    decreases s, 2
  {
    match f.htype
    case Required => s.One? && ContainedValue(f, s.value)
    case Optional => s.Opt? && ContainedValue(f, s.value)
    case Singular => s.One? && ContainedValue(f, s.value)
    case Repeated =>
      && s.Many? && |s.items| <= f.arraySize
      && (forall k :: 0 <= k < |s.items| - 1 ==> FitsValue(f, s.items[k], false))
      && (|s.items| > 0 && !Loose(f) ==> FitsValue(f, s.items[|s.items| - 1], false))
    case Oneof => s.Union? && (s.which == f.tag ==> f.ltype.Bytes? || ContainedValue(f, s.value))
  }

  ghost predicate ContainedValue(f: Field, v: Value)
    decreases v, 2
  {
    if f.ltype.Submessage? then Contained(f.sub, v) else FitsValue(f, v, false)
  }

  lemma {:induction false} FittingIsContained(d: Descriptor, v: Value)
    requires Fits(d, v, false)
    ensures Contained(d, v)
    decreases v, 1
  {
    forall i | 0 <= i < |d.fields|
      ensures ContainedAt(d, i, v)
    {
      assert FitsAt(d, i, v, false);
      FittingSlotIsContained(d.fields[i], v.slots[d.fields[i].slot]);
    }
  }

  lemma {:induction false} FittingSlotIsContained(f: Field, s: Slot)
    requires FitsSlot(f, s, false)
    ensures ContainedSlot(f, s)
    decreases s, 2
  {
    if !s.Many? && f.ltype.Submessage? && (!f.htype.Oneof? || s.which == f.tag) {
      FittingIsContained(f.sub, s.value);
    }
  }

  lemma {:induction false} PlaceContained(d: Descriptor, i: nat, dest: Value, b: seq<Byte>, v: Value)
    requires WellFormed(d) && i < |d.fields| && ValueLeaves(d.fields[i], dest, b, v)
    requires FitsValue(d.fields[i], dest, false) && !d.fields[i].htype.Repeated?
    ensures ContainedValue(d.fields[i], v)
    decreases |b|, 1, 0
  {
    var f := d.fields[i];
    assert FieldOk(d, i);
    DefaultValueFits(d, i);
    if !f.ltype.Submessage? {
      ScalarStays(f, dest, b, v);
    } else if TakePrefixed(b).Parsed? {
      LoopContained(f.sub, dest, {}, TakePrefixed(b).value, v);
    } else {
      FittingIsContained(f.sub, v);
    }
  }

  lemma {:induction false} HeldContained(d: Descriptor, i: nat, b: seq<Byte>, v: Value)
    requires WellFormed(d) && i < |d.fields| && HeldLeaves(d.fields[i], b, v) && !Loose(d.fields[i])
    requires d.fields[i].ltype.Submessage? ==> d.fields[i].htype.Repeated?
    ensures FitsValue(d.fields[i], v, false)
    decreases |b|, 2, 0
  {
    var f := d.fields[i];
    var held :| Holds(f, held) && ValueLeaves(f, held, b, v);
    TightIsSheltered(f);
    if f.ltype.Submessage? && TakePrefixed(b).Parsed? {
      ShelteredStays(f.sub, Defaults(f.sub), {}, TakePrefixed(b).value);
    }
    HeldStays(d, i, held, b, v);
  }

  lemma {:induction false} FieldContained(d: Descriptor, i: nat, s: Slot, wireType: nat, b: seq<Byte>, t: Slot)
    requires WellFormed(d) && i < |d.fields| && FitsSlot(d.fields[i], s, false)
    requires FieldLeaves(d.fields[i], s, wireType, b, t)
    ensures ContainedSlot(d.fields[i], t)
    decreases |b|, 3, 0
  {
    var f := d.fields[i];
    assert FieldOk(d, i);
    DefaultValueFits(d, i);
    if f.htype.Repeated? {
      if wireType == WT_STRING && f.ltype.Packable() {
        if TakePrefixed(b).Parsed? {
          PackedStays(f, s.items, TakePrefixed(b).value);
        }
      } else if |s.items| < f.arraySize && !Loose(f) {
        HeldContained(d, i, b, t.items[|s.items|]);
      }
    } else if Unset(f, s) {
      if !f.ltype.Bytes? {
        HeldContained(d, i, b, t.value);
      }
    } else {
      PlaceContained(d, i, Place(f, s), b, t.value);
    }
  }

  lemma {:induction false} StoreContained(d: Descriptor, i: nat, m: Value, t: Slot)
    requires WellFormed(d) && i < |d.fields| && Fits(d, m, false) && ContainedSlot(d.fields[i], t)
    requires d.fields[i].htype.Oneof? ==> t.Union? && t.which == d.fields[i].tag
    ensures Contained(d, SetSlot(m, d.fields[i].slot, t))
  {
    forall j | 0 <= j < |d.fields|
      ensures ContainedAt(d, j, SetSlot(m, d.fields[i].slot, t))
    {
      assert FieldOk(d, j) && FitsAt(d, j, m, false);
      assert j < i ==> Apart(d.fields[j], d.fields[i]);
      assert i < j ==> Apart(d.fields[i], d.fields[j]);
      if d.fields[j].slot != d.fields[i].slot {
        FittingSlotIsContained(d.fields[j], m.slots[d.fields[j].slot]);
      }
    }
  }

  // For every byte string, decoded or not.
  lemma {:induction false} LoopContained(d: Descriptor, m: Value, seen: set<nat>, b: seq<Byte>, r: Value)
    requires WellFormed(d) && Fits(d, m, false) && LoopLeaves(d, m, seen, b, r)
    ensures Contained(d, r)
    decreases |b|, 5, 0
  {
    if b != [] && DecodeTag(b).Tag? {
      var t := DecodeTag(b);
      var s, i := DecodeStep(d, m, seen, t), Find(d.fields, t.tag, 0);
      if s.At? {
        StepFits(d, m, seen, t);
        LoopContained(d, s.msg, s.seen, s.rest, r);
      } else if i < |d.fields| && d.fields[i].slot < |m.slots| {
        var k := d.fields[i].slot;
        assert FitsAt(d, i, m, false);
        FieldContained(d, i, m.slots[k], t.wireType, t.rest, r.slots[k]);
        StoreContained(d, i, m, r.slots[k]);
      } else {
        FittingIsContained(d, r);
      }
    } else {
      FittingIsContained(d, r);
    }
  }

  // No oneof has a byte array, and no array entries whose memory need not fit, at any depth.
  ghost predicate Sheltered(d: Descriptor)
    decreases d, 0
  {
    forall i :: 0 <= i < |d.fields| ==> ShelteredField(d.fields[i])
  }

  ghost predicate ShelteredField(f: Field)
    decreases f, 1
  {
    && !(f.htype.Oneof? && f.ltype.Bytes?)
    && !(f.htype.Repeated? && f.arraySize > 0 && Loose(f))
    && (f.ltype.Submessage? && (f.htype.Repeated? ==> f.arraySize > 0) ==> Sheltered(f.sub))
  }

  lemma {:induction false} TightIsSheltered(f: Field)
    requires !Loose(f)
    ensures f.ltype.Submessage? ==> Sheltered(f.sub)
    decreases f
  {
    if f.ltype.Submessage? {
      forall i | 0 <= i < |f.sub.fields|
        ensures ShelteredField(f.sub.fields[i])
      {
        assert !LooseField(f.sub.fields[i]);
        TightIsSheltered(f.sub.fields[i]);
      }
    }
  }

  lemma {:induction false} ShelteredStays(d: Descriptor, m: Value, seen: set<nat>, b: seq<Byte>)
    requires m.Msg? && Sheltered(d)
    ensures !Exposed(d, m, seen, b)
    decreases |b|, 5, 0
  {
    if b != [] && DecodeTag(b).Tag? {
      var t := DecodeTag(b);
      var s, i := DecodeStep(d, m, seen, t), Find(d.fields, t.tag, 0);
      if s.At? {
        ShelteredStays(d, s.msg, s.seen, s.rest);
      } else if i < |d.fields| && d.fields[i].slot < |m.slots| {
        ShelteredFieldStays(d.fields[i], m.slots[d.fields[i].slot], t.wireType, t.rest);
      }
    }
  }

  lemma {:induction false} ShelteredFieldStays(f: Field, s: Slot, wireType: nat, b: seq<Byte>)
    requires ShelteredField(f)
    ensures !FieldExposed(f, s, wireType, b)
    decreases |b|, 3, 0
  {
    if f.ltype.Submessage? && TakePrefixed(b).Parsed? && Sheltered(f.sub) {
      if f.htype.Repeated? {
        ShelteredStays(f.sub, Defaults(f.sub), {}, TakePrefixed(b).value);
        assert !HeldExposed(f, b);
      } else if !s.Many? && Place(f, s).Msg? {
        ShelteredStays(f.sub, Place(f, s), {}, TakePrefixed(b).value);
      }
    }
  }

  // Submessages stand at most k deep in the message.
  ghost predicate Nested(d: Descriptor, k: nat)
    decreases k
  {
    forall i :: 0 <= i < |d.fields| && d.fields[i].ltype.Submessage? ==> k > 0 && Nested(d.fields[i].sub, k - 1)
  }

  lemma {:induction false} ExposedStops(d: Descriptor, m: Value, seen: set<nat>, b: seq<Byte>)
    requires m.Msg? && Exposed(d, m, seen, b)
    ensures DecodeLoop(d, m, seen, b).Stopped?
    decreases |b|
  {
    var s := DecodeStep(d, m, seen, DecodeTag(b));
    if s.At? {
      ExposedStops(d, s.msg, s.seen, s.rest);
    }
  }

  // A field that is announced with bytes at which it is exposed.
  lemma {:induction false} Announced(d: Descriptor, i: nat, b: seq<Byte>)
    requires WellFormed(d) && i < |d.fields| && FieldExposed(d.fields[i], DefaultSlot(d.fields[i]), WT_STRING, b)
    requires DecodeField(d.fields[i], DefaultSlot(d.fields[i]), WT_STRING, b).Failed?
    ensures Exposed(d, Defaults(d), {}, EncodeTag(d.fields[i].tag, WT_STRING) + b)
    ensures |EncodeTag(d.fields[i].tag, WT_STRING)| <= 5
  {
    assert FieldOk(d, i);
    TagTaken(d, i, WT_STRING, b);
    DefaultsAt(d, |d.fields|, i);
    VarintLengths(8 * d.fields[i].tag + WT_STRING);
  }

  lemma {:induction false} PrefixTaken(b: seq<Byte>)
    requires |b| < TWO32
    ensures TakePrefixed(Prefixed(b)) == Parsed(b, []) && |Prefixed(b)| <= |b| + 5
  {
    VarintRoundTrip(|b|, b);
    VarintLengths(|b|);
    assert b[..|b|] == b && b[|b|..] == [];
  }

  // A field that is not sheltered, and bytes that show it.
  lemma {:induction false} UnshelteredExposes(d: Descriptor, k: nat) returns (b: seq<Byte>)
    requires WellFormed(d) && !Sheltered(d) && Nested(d, k) && k <= 0x1000_0000
    ensures Exposed(d, Defaults(d), {}, b) && |b| <= 10 * (k + 1)
    decreases k
  {
    var i :| 0 <= i < |d.fields| && !ShelteredField(d.fields[i]);
    var f := d.fields[i];
    assert FieldOk(d, i);
    b := [];
    if (f.htype.Oneof? && f.ltype.Bytes?) || (f.htype.Repeated? && f.arraySize > 0 && Loose(f)) {
      ExposedAtOnce(d, i);
    } else {
      var deep := UnshelteredExposes(f.sub, k - 1);
      ExposedInside(d, i, deep);
      b := Prefixed(deep);
    }
    Announced(d, i, b);
    b := EncodeTag(f.tag, WT_STRING) + b;
  }

  lemma {:induction false} ExposedAtOnce(d: Descriptor, i: nat)
    requires WellFormed(d) && i < |d.fields|
    requires (d.fields[i].htype.Oneof? && d.fields[i].ltype.Bytes?)
             || (d.fields[i].htype.Repeated? && d.fields[i].arraySize > 0 && Loose(d.fields[i]))
    ensures FieldExposed(d.fields[i], DefaultSlot(d.fields[i]), WT_STRING, [])
    ensures DecodeField(d.fields[i], DefaultSlot(d.fields[i]), WT_STRING, []).Failed?
  {
    assert FieldOk(d, i);
    assert DecodeVarint32([]).Failed?;
  }

  lemma {:induction false} ExposedInside(d: Descriptor, i: nat, deep: seq<Byte>)
    requires WellFormed(d) && i < |d.fields| && d.fields[i].ltype.Submessage? && |deep| < TWO32
    requires d.fields[i].htype.Repeated? ==> d.fields[i].arraySize > 0
    requires Exposed(d.fields[i].sub, Defaults(d.fields[i].sub), {}, deep)
    ensures FieldExposed(d.fields[i], DefaultSlot(d.fields[i]), WT_STRING, Prefixed(deep))
    ensures DecodeField(d.fields[i], DefaultSlot(d.fields[i]), WT_STRING, Prefixed(deep)).Failed?
    ensures |Prefixed(deep)| <= |deep| + 5
  {
    var f, b := d.fields[i], Prefixed(deep);
    PrefixTaken(deep);
    ExposedStops(f.sub, Defaults(f.sub), {}, deep);
    assert FieldOk(d, i);
    assert DefaultValue(f) == Defaults(f.sub) && PlaceExposed(f, Defaults(f.sub), b);
    assert DecodeValue(f, Defaults(f.sub), b).Failed?;
  }

  // Whatever the bytes and whatever the memory held.
  ghost predicate AlwaysStays(d: Descriptor) {
    forall b: seq<Byte>, r: Value :: LoopLeaves(d, Defaults(d), {}, b, r) ==> Fits(d, r, false)
  }

  // pb_decode keeps the struct within bounds, decoded or not, exactly for these messages.
  lemma {:induction false} StaysIfSheltered(d: Descriptor, k: nat)
    requires WellFormed(d) && Nested(d, k) && k <= 0x1000_0000
    ensures AlwaysStays(d) <==> Sheltered(d)
  {
    DefaultsFit(d);
    FitsLoosely(d, Defaults(d));
    if Sheltered(d) {
      forall b: seq<Byte>, r: Value | LoopLeaves(d, Defaults(d), {}, b, r)
        ensures Fits(d, r, false)
      {
        ShelteredStays(d, Defaults(d), {}, b);
        LoopStays(d, Defaults(d), {}, b, r);
      }
    } else {
      var b := UnshelteredExposes(d, k);
      StaysUnlessExposed(d, Defaults(d), b);
    }
  }

  // What the struct is after a decoding from m, all told.
  lemma {:induction false} LeftInBounds(d: Descriptor, m: Value, b: seq<Byte>, r: Value)
    requires WellFormed(d) && Fits(d, m, false) && LoopLeaves(d, m, {}, b, r)
    ensures Contained(d, r)
    ensures DecodeNoInit(d, m, b).Parsed? || Sheltered(d) || !Exposed(d, m, {}, b) ==> Fits(d, r, false)
  {
    LoopContained(d, m, {}, b, r);
    if DecodeNoInit(d, m, b).Parsed? {
      DecodedIsLeft(d, m, {}, b, r);
      LoopFits(d, m, {}, b);
    } else if Sheltered(d) {
      ShelteredStays(d, m, {}, b);
    }
    if !Exposed(d, m, {}, b) {
      LoopStays(d, m, {}, b, r);
    }
  }

  // oneof { int64 a = 1; bytes b = 2 }, for an array of this size.
  function IntegerOrBytes(size: PbSize): Descriptor {
    var none := Descriptor([], 0);
    Descriptor([Field(1, Varint, Oneof, 8, 0, 0, 0, 0, none, None),
                Field(2, Bytes, Oneof, size, 0, 0, 0, 0, none, None)], 1)
  }

  // -1 for the integer and then only the tag of the bytes: 08 ff ff ff ff ff ff ff ff ff 01 12.
  function MinusOneAndTag(): seq<Byte> {
    EncodeTag(1, WT_VARINT) + (EncodeVarint(TWO64 - 1) + (EncodeTag(2, WT_STRING) + []))
  }

  lemma {:induction false} IntegerOrBytesOk(size: PbSize)
    requires BYTES_OFFSET <= size
    ensures WellFormed(IntegerOrBytes(size)) && Defaults(IntegerOrBytes(size)) == Msg([EmptyUnion()])
  {
    var d := IntegerOrBytes(size);
    assert RequiredBefore(d.fields, 0) == 0 && RequiredBefore(d.fields, 1) == 0 && RequiredBefore(d.fields, 2) == 0;
    assert FieldOk(d, 0);
    assert FieldOk(d, 1);
    assert d.fields[0].slot == 0;
    assert WellFormed(d);
    assert DefaultsUpTo(d, 0).slots == [EmptyUnion()];
    assert DefaultsUpTo(d, 1).slots == [EmptyUnion()];
    assert DefaultsUpTo(d, 2).slots == [EmptyUnion()];
  }

  // The decoding fails, and b is the member that is set, with the size that its memory had.
  lemma {:induction false} SizeOfInteger(size: PbSize, stale: seq<Byte>)
    requires BYTES_OFFSET <= size && |stale| <= PB_SIZE_MAX
    ensures var d, b, r := IntegerOrBytes(size), MinusOneAndTag(), Msg([Union(2, Raw(stale))]);
            && WellFormed(d) && Decode(d, b).Failed? && LoopLeaves(d, Defaults(d), {}, b, r)
            && (Fits(d, r, false) <==> |stale| + BYTES_OFFSET <= size)
  {
    IntegerOrBytesOk(size);
    IntegerTaken(size);
    BytesAnnounced(size, stale);
    SizeFits(size, stale);
  }

  lemma {:induction false} IntegerTaken(size: PbSize)
    requires BYTES_OFFSET <= size
    ensures MinusOneAndTag() != [] && DecodeTag(MinusOneAndTag()).Tag?
    ensures DecodeStep(IntegerOrBytes(size), Msg([EmptyUnion()]), {}, DecodeTag(MinusOneAndTag()))
            == At(Msg([Union(1, Int(-1))]), {}, EncodeTag(2, WT_STRING) + [])
  {
    var d, last := IntegerOrBytes(size), EncodeTag(2, WT_STRING) + [];
    IntegerOrBytesOk(size);
    MinusOneTaken(d, 0, Msg([EmptyUnion()]), last);
  }

  lemma {:induction false} MinusOneTaken(d: Descriptor, i: nat, m: Value, rest: seq<Byte>)
    requires WellFormed(d) && i < |d.fields| && m.Msg? && d.fields[i].slot < |m.slots|
    requires d.fields[i].ltype.Varint? && d.fields[i].htype.Oneof? && d.fields[i].dataSize == 8
    requires m.slots[d.fields[i].slot] == EmptyUnion()
    ensures var b := EncodeTag(d.fields[i].tag, WT_VARINT) + (EncodeVarint(TWO64 - 1) + rest);
            && b != [] && DecodeTag(b).Tag?
            && DecodeStep(d, m, {}, DecodeTag(b))
               == At(Msg(m.slots[d.fields[i].slot := Union(d.fields[i].tag, Int(-1))]), {}, rest)
  {
    TagTaken(d, i, WT_VARINT, EncodeVarint(TWO64 - 1) + rest);
    MinusOneDecodes(d.fields[i], rest);
  }

  lemma {:induction false} MinusOneDecodes(f: Field, rest: seq<Byte>)
    requires f.ltype.Varint? && f.htype.Oneof? && f.dataSize == 8
    ensures DecodeField(f, EmptyUnion(), WT_VARINT, EncodeVarint(TWO64 - 1) + rest)
            == Parsed(Union(f.tag, Int(-1)), rest)
  {
    VarintRoundTrip(TWO64 - 1, rest);
    assert DecodeInteger(f, EncodeVarint(TWO64 - 1) + rest) == Parsed(Int(-1), rest);
  }

  lemma {:induction false} BytesAnnounced(size: PbSize, stale: seq<Byte>)
    requires BYTES_OFFSET <= size && |stale| <= PB_SIZE_MAX
    ensures var d, m, last := IntegerOrBytes(size), Msg([Union(1, Int(-1))]), EncodeTag(2, WT_STRING) + [];
            && DecodeLoop(d, m, {}, last).Stopped? && LoopLeaves(d, m, {}, last, Msg([Union(2, Raw(stale))]))
  {
    var d, m, last := IntegerOrBytes(size), Msg([Union(1, Int(-1))]), EncodeTag(2, WT_STRING) + [];
    var r := Msg([Union(2, Raw(stale))]);
    IntegerOrBytesOk(size);
    TagTaken(d, 1, WT_STRING, []);
    LeftAsItWas(d.fields[1], stale);
    assert FieldLeaves(d.fields[1], m.slots[0], WT_STRING, [], r.slots[0]);
    assert r == Msg(m.slots[0 := r.slots[0]]);
  }

  lemma {:induction false} LeftAsItWas(f: Field, stale: seq<Byte>)
    requires f.ltype.Bytes? && |stale| <= PB_SIZE_MAX
    ensures HeldLeaves(f, [], Raw(stale))
  {
    assert DecodeVarint32([]).Failed?;
    assert Holds(f, Raw(stale)) && ValueLeaves(f, Raw(stale), [], Raw(stale));
  }

  lemma {:induction false} SizeFits(size: PbSize, stale: seq<Byte>)
    ensures Fits(IntegerOrBytes(size), Msg([Union(2, Raw(stale))]), false) <==> |stale| + BYTES_OFFSET <= size
  {
    var d, r := IntegerOrBytes(size), Msg([Union(2, Raw(stale))]);
    assert d.fields[1].slot == 0 && d.fields[0].slot == 0;
    assert FitsSlot(d.fields[0], r.slots[0], false);
    assert FitsSlot(d.fields[1], r.slots[0], false) <==> FitsValue(d.fields[1], Raw(stale), false);
    assert FitsAt(d, 0, r, false);
    assert FitsAt(d, 1, r, false) <==> FitsSlot(d.fields[1], r.slots[0], false);
  }
}
