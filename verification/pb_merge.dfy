// Decoding what pb_encode wrote merges it into what was there: the central law of the codec,
// from which round trips and concatenation follow.

module PbMerge {
  import opened Wire
  import opened Words
  import opened PbVarint
  import opened PbMessages
  import opened PbEncoding
  import opened PbDecoding

  // Later scalars win, submessages merge, array entries and oneof submessages start from defaults.
  function MergeValue(f: Field, into: Value, v: Value): Value
    decreases v, 3, 0
  {
    if f.ltype.Submessage? && into.Msg? then MergeMessage(f.sub, into, v) else v
  }

  function MergeItems(f: Field, t: Slot, n: nat): (items: seq<Value>)
    requires t.Many? && n <= |t.items|
    ensures |items| == n
    decreases t, 1, n
  {
    if n == 0 then [] else MergeItems(f, t, n - 1) + [MergeValue(f, DefaultValue(f), t.items[n - 1])]
  }

  function MergeSlot(f: Field, s: Slot, t: Slot): Slot
    decreases t, 4, 0
  {
    match f.htype
    case Required => if s.One? && t.One? then One(MergeValue(f, s.value, t.value)) else s
    case Optional => if s.Opt? && t.Opt? && t.has then Opt(true, MergeValue(f, s.value, t.value)) else s
    case Singular => if s.One? && t.One? && !IsDefault(f, t.value) then One(MergeValue(f, s.value, t.value)) else s
    case Repeated => if s.Many? && t.Many? then Many(s.items + MergeItems(f, t, |t.items|)) else s
    case Oneof => if t.Union? && t.which == f.tag then Union(f.tag, MergeValue(f, DefaultValue(f), t.value)) else s
  }

  // The first n fields of v merged into m.
  function MergeUpTo(d: Descriptor, m: Value, v: Value, n: nat): (w: Value)
    requires m.Msg? && n <= |d.fields|
    ensures w.Msg? && |w.slots| == |m.slots|
    decreases v, 1, n
  {
    if n == 0 then m
    else
      var w, k := MergeUpTo(d, m, v, n - 1), d.fields[n - 1].slot;
      if !v.Msg? || k >= |v.slots| || k >= |w.slots| then w
      else SetSlot(w, k, MergeSlot(d.fields[n - 1], w.slots[k], v.slots[k]))
  }

  function MergeMessage(d: Descriptor, m: Value, v: Value): (w: Value)
    requires m.Msg?
    ensures w.Msg? && |w.slots| == |m.slots|
    decreases v, 2, 0
  {
    MergeUpTo(d, m, v, |d.fields|)
  }

  // The arrays of m can take the entries of v as well.
  predicate Room(d: Descriptor, m: Value, v: Value)
    decreases v, 1
  {
    && m.Msg? && v.Msg?
    && forall i :: 0 <= i < |d.fields| ==> RoomAt(d, i, m, v)
  }

  predicate RoomAt(d: Descriptor, i: nat, m: Value, v: Value)
    requires i < |d.fields|
    decreases v, 0
  {
    var k := d.fields[i].slot;
    m.Msg? && v.Msg? && k < |m.slots| && k < |v.slots| && RoomSlot(d.fields[i], m.slots[k], v.slots[k])
  }

  predicate RoomSlot(f: Field, s: Slot, t: Slot)
    decreases t, 2
  {
    match f.htype
    case Required => s.One? && t.One? && RoomValue(f, s.value, t.value)
    case Optional => s.Opt? && t.Opt? && (t.has ==> RoomValue(f, s.value, t.value))
    case Singular => s.One? && t.One? && RoomValue(f, s.value, t.value)
    case Repeated => s.Many? && t.Many? && |s.items| + |t.items| <= f.arraySize
    case Oneof => true
  }

  predicate RoomValue(f: Field, into: Value, v: Value)
    decreases v, 2
  {
    f.ltype.Submessage? ==> Room(f.sub, into, v)
  }

  lemma {:induction false} RoomInDefaults(d: Descriptor, v: Value)
    requires WellFormed(d) && Fits(d, v, false)
    ensures Room(d, Defaults(d), v)
    decreases v
  {
    DefaultsFit(d);
    forall i | 0 <= i < |d.fields|
      ensures RoomAt(d, i, Defaults(d), v)
    {
      var f := d.fields[i];
      DefaultsAt(d, |d.fields|, i);
      assert FieldOk(d, i) && FitsAt(d, i, v, false);
      var t := v.slots[f.slot];
      assert FitsSlot(f, t, false);
      if f.ltype.Submessage? && (f.htype.Required? || f.htype.Optional?) {
        assert FitsValue(f, t.value, false);
        RoomInDefaults(f.sub, t.value);
      }
      assert RoomSlot(f, DefaultSlot(f), t);
    }
  }

  lemma {:induction false} RoomInDefault(f: Field, v: Value)
    requires FitsValue(f, v, false) && (f.ltype.Submessage? ==> WellFormed(f.sub))
    ensures RoomValue(f, DefaultValue(f), v)
  {
    if f.ltype.Submessage? {
      RoomInDefaults(f.sub, v);
    }
  }

  // Values other than submessages: what the decoders read is what was encoded.
  lemma {:induction false} IntegerDecodes(f: Field, v: Value, e: seq<Byte>, tail: seq<Byte>)
    requires f.ltype.Varint? || f.ltype.Uvarint? || f.ltype.Svarint?
    requires FitsValue(f, v, true) && EncodeValue(f, v) == Some(e)
    ensures DecodeInteger(f, e + tail) == Parsed(v, tail)
  {
    if f.ltype.Varint? {
      VarintRoundTrip(Unsigned64(v.n), tail);
      if f.dataSize == 8 {
        SignedInverts(v.n);
      } else {
        SignedOfSmaller(v.n);
      }
    } else if f.ltype.Uvarint? {
      VarintRoundTrip(v.n, tail);
    } else {
      VarintRoundTrip(ZigZag(v.n), tail);
      ZigZagRoundTrip(v.n);
    }
  }

  lemma {:induction false} FixedDecodes(n: nat, w: nat, tail: seq<Byte>)
    requires w > 0 && n < Pow2(8 * w)
    ensures DecodeFixed(w, LittleEndian(n, w) + tail) == Parsed(Int(n), tail)
  {
    LittleEndianRoundTrip(n, w);
    var b := LittleEndian(n, w) + tail;
    assert b[..w] == LittleEndian(n, w) && b[w..] == tail;
  }

  lemma {:induction false} PrefixedIsTaken(b: seq<Byte>, tail: seq<Byte>)
    requires |b| < TWO32
    ensures DecodeVarint32(Prefixed(b) + tail) == Parsed(|b|, b + tail)
    ensures TakePrefixed(Prefixed(b) + tail) == Parsed(b, tail)
  {
    VarintRoundTrip(|b|, b + tail);
    assert Prefixed(b) + tail == EncodeVarint(|b|) + (b + tail);
    assert (b + tail)[..|b|] == b && (b + tail)[|b|..] == tail;
  }

  lemma {:induction false} RawDecodes(f: Field, v: Value, e: seq<Byte>, tail: seq<Byte>)
    requires f.ltype.Bytes? || f.ltype.Str? || f.ltype.FixedLengthBytes?
    requires FitsValue(f, v, true) && EncodeValue(f, v) == Some(e) && |e| < TWO32
    ensures DecodeRaw(f, e + tail) == Parsed(v, tail)
  {
    assert v.bytes[..|v.bytes|] == v.bytes;
    assert f.dataSize == 0 && |v.bytes| == 0 ==> v.bytes == Zeros(0);
    PrefixedIsTaken(v.bytes, tail);
  }

  lemma {:induction false} ScalarDecodes(f: Field, dest: Value, v: Value, e: seq<Byte>, tail: seq<Byte>)
    requires !f.ltype.Submessage?
    requires FitsValue(f, v, true) && EncodeValue(f, v) == Some(e) && |e| < TWO32
    ensures DecodeValue(f, dest, e + tail) == Parsed(v, tail)
  {
    match f.ltype
    case Varint => IntegerDecodes(f, v, e, tail);
    case Uvarint => IntegerDecodes(f, v, e, tail);
    case Svarint => IntegerDecodes(f, v, e, tail);
    case Fixed32 =>
      Powers();
      FixedDecodes(v.n, 4, tail);
    case Fixed64 =>
      Powers();
      FixedDecodes(v.n, 8, tail);
    case Bytes => RawDecodes(f, v, e, tail);
    case Str => RawDecodes(f, v, e, tail);
    case FixedLengthBytes => RawDecodes(f, v, e, tail);
  }
}
