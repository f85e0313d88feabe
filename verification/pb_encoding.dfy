// What pb_encode writes for a value.

module PbEncoding {
  import opened Wire
  import opened PbVarint
  import opened PbMessages

  // The field encoders. A value of the wrong kind cannot be in the struct; it has no encoding.
  function EncodeValue(f: Field, v: Value): Option<seq<Byte>>
    decreases v, 3, 0
  {
    match f.ltype
    case Varint => if v.Int? && IntLimit(f.dataSize) > 0 then Some(EncodeVarint(Unsigned64(v.n))) else None
    case Uvarint => if v.Int? && IntLimit(f.dataSize) > 0 && 0 <= v.n < TWO64 then Some(EncodeVarint(v.n)) else None
    case Svarint =>
      if v.Int? && IntLimit(f.dataSize) > 0 && FitsSigned(v.n, TWO64) then Some(EncodeVarint(ZigZag(v.n))) else None
    case Fixed32 => if v.Int? && v.n >= 0 then Some(LittleEndian(v.n, 4)) else None
    case Fixed64 => if v.Int? && v.n >= 0 then Some(LittleEndian(v.n, 8)) else None
    case Bytes => if v.Raw? && |v.bytes| + BYTES_OFFSET <= f.dataSize then Some(Prefixed(v.bytes)) else None
    case Str => if v.Raw? && |v.bytes| <= f.dataSize then Some(Prefixed(v.bytes[..StrLen(v.bytes)])) else None
    case Submessage =>
      var e := EncodeMessage(f.sub, v);
      if e.Some? then Some(Prefixed(e.value)) else None
    case FixedLengthBytes => if v.Raw? && |v.bytes| == f.dataSize then Some(Prefixed(v.bytes)) else None
  }

  function EncodeTagged(f: Field, v: Value): Option<seq<Byte>>
    decreases v, 4, 0
  {
    Join(Some(EncodeTag(f.tag, f.ltype.WireType())), EncodeValue(f, v))
  }

  // The entries of a packed array from the kth on.
  function EncodePacked(f: Field, s: Slot, k: nat): Option<seq<Byte>>
    requires s.Many? && k <= |s.items|
    decreases s, 1, |s.items| - k
  {
    if k == |s.items| then Some([]) else Join(EncodeValue(f, s.items[k]), EncodePacked(f, s, k + 1))
  }

  // The entries of any other array, each with its tag.
  function EncodeEach(f: Field, s: Slot, k: nat): Option<seq<Byte>>
    requires s.Many? && k <= |s.items|
    decreases s, 1, |s.items| - k
  {
    if k == |s.items| then Some([]) else Join(EncodeTagged(f, s.items[k]), EncodeEach(f, s, k + 1))
  }

  function EncodeArray(f: Field, s: Slot): Option<seq<Byte>>
    requires s.Many?
    decreases s, 2, 0
  {
    if s.items == [] then Some([])
    else if |s.items| > f.arraySize then None
    else if f.ltype.Packable() then
      var p := EncodePacked(f, s, 0);
      if p.Some? then Some(EncodeTag(f.tag, WT_STRING) + Prefixed(p.value)) else None
    else EncodeEach(f, s, 0)
  }

  // encode_basic_field
  function EncodeField(f: Field, s: Slot): Option<seq<Byte>>
    decreases s, 5, 0
  {
    match f.htype
    case Required => if s.One? then EncodeTagged(f, s.value) else None
    case Optional => if !s.Opt? then None else if s.has then EncodeTagged(f, s.value) else Some([])
    case Singular => if !s.One? then None else if IsDefault(f, s.value) then Some([]) else EncodeTagged(f, s.value)
    case Repeated => if s.Many? then EncodeArray(f, s) else None
    case Oneof => if !s.Union? then None else if s.which == f.tag then EncodeTagged(f, s.value) else Some([])
  }

  // The fields from the ith on.
  function EncodeFrom(d: Descriptor, v: Value, i: nat): Option<seq<Byte>>
    requires i <= |d.fields|
    decreases v, 1, |d.fields| - i
  {
    if i == |d.fields| then Some([])
    else if !v.Msg? || d.fields[i].slot >= |v.slots| then None
    else Join(EncodeField(d.fields[i], v.slots[d.fields[i].slot]), EncodeFrom(d, v, i + 1))
  }

  // pb_encode
  function EncodeMessage(d: Descriptor, v: Value): Option<seq<Byte>>
    decreases v, 2, 0
  {
    EncodeFrom(d, v, 0)
  }

  // Every value that fits has an encoding.
  lemma {:induction false} FittingEncodes(d: Descriptor, v: Value, i: nat)
    requires i <= |d.fields| && Fits(d, v, false)
    ensures EncodeFrom(d, v, i).Some?
    decreases v, 1, |d.fields| - i
  {
    if i < |d.fields| {
      assert FitsAt(d, i, v, false);
      FittingFieldEncodes(d.fields[i], v.slots[d.fields[i].slot]);
      FittingEncodes(d, v, i + 1);
    }
  }

  lemma {:induction false} FittingFieldEncodes(f: Field, s: Slot)
    requires FitsSlot(f, s, false)
    ensures EncodeField(f, s).Some?
    decreases s, 4, 0
  {
    if s.Many? {
      FittingItemsEncode(f, s, 0);
    } else if !(s.Opt? && !s.has) && !(s.Union? && s.which != f.tag) {
      FittingValueEncodes(f, s.value);
    }
  }

  lemma {:induction false} FittingItemsEncode(f: Field, s: Slot, k: nat)
    requires s.Many? && k <= |s.items| && forall j :: 0 <= j < |s.items| ==> FitsValue(f, s.items[j], false)
    ensures EncodePacked(f, s, k).Some? && EncodeEach(f, s, k).Some?
    decreases s, 1, |s.items| - k
  {
    if k < |s.items| {
      FittingValueEncodes(f, s.items[k]);
      FittingItemsEncode(f, s, k + 1);
    }
  }

  lemma {:induction false} FittingValueEncodes(f: Field, v: Value)
    requires FitsValue(f, v, false)
    ensures EncodeValue(f, v).Some?
    decreases v, 3, 0
  {
    if f.ltype.Submessage? {
      FittingEncodes(f.sub, v, 0);
    }
  }
}
