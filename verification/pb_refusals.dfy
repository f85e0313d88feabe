// Which values pb_encode refuses: it looks at sizes and counts, which the struct leaves open.

module PbRefusals {
  import opened Wire
  import opened PbVarint
  import opened PbMessages
  import opened PbEncoding

  // What can stand in the struct: numbers of their types, and any size of bytes and any count of entries.
  predicate Held(d: Descriptor, v: Value)
    decreases v, 1
  {
    v.Msg? && |v.slots| == d.slotCount && forall i :: 0 <= i < |d.fields| ==> HeldAt(d, i, v)
  }

  predicate HeldAt(d: Descriptor, i: nat, v: Value)
    requires i < |d.fields|
    decreases v, 0
  {
    v.Msg? && d.fields[i].slot < |v.slots| && HeldSlot(d.fields[i], v.slots[d.fields[i].slot])
  }

  predicate HeldSlot(f: Field, s: Slot)
    decreases s, 2
  {
    match f.htype
    case Required => s.One? && HeldValue(f, s.value)
    case Optional => s.Opt? && HeldValue(f, s.value)
    case Singular => s.One? && HeldValue(f, s.value)
    case Repeated =>
      s.Many? && (|s.items| <= f.arraySize ==> forall k :: 0 <= k < |s.items| ==> HeldValue(f, s.items[k]))
    case Oneof => s.Union? && (s.which == f.tag ==> HeldValue(f, s.value))
  }

  predicate HeldValue(f: Field, v: Value)
    decreases v, 2
  {
    match f.ltype
    case Varint => v.Int? && FitsSigned(v.n, TWO64)
    case Uvarint => v.Int? && 0 <= v.n < TWO64
    case Svarint => v.Int? && FitsSigned(v.n, TWO64)
    case Fixed32 => v.Int? && 0 <= v.n < TWO32
    case Fixed64 => v.Int? && 0 <= v.n < TWO64
    case Bytes => v.Raw?
    case Str => v.Raw? && |v.bytes| <= f.dataSize
    case Submessage => Held(f.sub, v)
    case FixedLengthBytes => v.Raw? && |v.bytes| == f.dataSize
  }

  // Whether the one value of a field is written.
  predicate IsWritten(f: Field, s: Slot) {
    match f.htype
    case Required => true
    case Optional => s.Opt? && s.has
    case Singular => s.One? && !IsDefault(f, s.value)
    case Repeated => false
    case Oneof => s.Union? && s.which == f.tag
  }

  // All that is written, in submessages too, is within its array, and integers have one of the four sizes.
  predicate Within(d: Descriptor, v: Value)
    decreases v, 2, 0
  {
    WithinFrom(d, v, 0)
  }

  // From the ith field on.
  predicate WithinFrom(d: Descriptor, v: Value, i: nat)
    requires i <= |d.fields|
    decreases v, 1, |d.fields| - i
  {
    i < |d.fields| ==>
      && v.Msg? && d.fields[i].slot < |v.slots|
      && WithinSlot(d.fields[i], v.slots[d.fields[i].slot]) && WithinFrom(d, v, i + 1)
  }

  predicate WithinSlot(f: Field, s: Slot)
    decreases s, 4, 0
  {
    if s.Many? then |s.items| <= f.arraySize && forall k :: 0 <= k < |s.items| ==> WithinValue(f, s.items[k])
    else IsWritten(f, s) ==> WithinValue(f, s.value)
  }

  predicate WithinValue(f: Field, v: Value)
    decreases v, 3, 0
  {
    match f.ltype
    case Bytes => v.Raw? && |v.bytes| + BYTES_OFFSET <= f.dataSize
    case Submessage => Within(f.sub, v)
    case Fixed32 => true
    case Fixed64 => true
    case Str => true
    case FixedLengthBytes => true
    case _ => f.dataSize == 1 || f.dataSize == 2 || f.dataSize == 4 || f.dataSize == 8
  }

  // pb_encode refuses just what is not.
  lemma {:induction false} EncodesIfWithin(d: Descriptor, v: Value)
    requires Held(d, v)
    ensures EncodeMessage(d, v).Some? <==> Within(d, v)
    decreases v, 2, 0
  {
    FieldsEncodeIfWithin(d, v, 0);
  }

  lemma {:induction false} FieldsEncodeIfWithin(d: Descriptor, v: Value, i: nat)
    requires i <= |d.fields| && Held(d, v)
    ensures EncodeFrom(d, v, i).Some? <==> WithinFrom(d, v, i)
    decreases v, 1, |d.fields| - i
  {
    if i < |d.fields| {
      assert HeldAt(d, i, v);
      FieldEncodesIfWithin(d.fields[i], v.slots[d.fields[i].slot]);
      FieldsEncodeIfWithin(d, v, i + 1);
    }
  }

  lemma {:induction false} FieldEncodesIfWithin(f: Field, s: Slot)
    requires HeldSlot(f, s)
    ensures EncodeField(f, s).Some? <==> WithinSlot(f, s)
    decreases s, 4, 0
  {
    if s.Many? {
      if |s.items| <= f.arraySize {
        ItemsEncodeIfWithin(f, s, 0);
      }
    } else if IsWritten(f, s) {
      ValueEncodesIfWithin(f, s.value);
    }
  }

  lemma {:induction false} ItemsEncodeIfWithin(f: Field, s: Slot, k: nat)
    requires s.Many? && k <= |s.items| && forall j :: 0 <= j < |s.items| ==> HeldValue(f, s.items[j])
    ensures EncodePacked(f, s, k).Some? <==> forall j :: k <= j < |s.items| ==> WithinValue(f, s.items[j])
    ensures EncodeEach(f, s, k).Some? <==> forall j :: k <= j < |s.items| ==> WithinValue(f, s.items[j])
    decreases s, 1, |s.items| - k
  {
    if k < |s.items| {
      ValueEncodesIfWithin(f, s.items[k]);
      ItemsEncodeIfWithin(f, s, k + 1);
    }
  }

  lemma {:induction false} ValueEncodesIfWithin(f: Field, v: Value)
    requires HeldValue(f, v)
    ensures EncodeValue(f, v).Some? <==> WithinValue(f, v)
    decreases v, 3, 0
  {
    if f.ltype.Submessage? {
      EncodesIfWithin(f.sub, v);
    }
  }
}
