// pb_encode on streams. Every step writes, or counts, exactly what the encoding says.

module PbEncoder {
  import opened Wire
  import opened PbVarint
  import opened PbMessages
  import opened PbSingular
  import opened PbIterator
  import opened PbOStream
  import opened PbEncoding

  // What the struct's types and the machine's memory see to: fixed-size fields hold unsigned
  // integers, and sizes can be counted.
  ghost predicate Held(d: Descriptor, v: Value)
    decreases v, 1
  {
    v.Msg? ==>
      forall i :: 0 <= i < |d.fields| && d.fields[i].slot < |v.slots| ==>
                    HeldSlot(d.fields[i], v.slots[d.fields[i].slot])
  }

  ghost predicate HeldSlot(f: Field, s: Slot)
    decreases s, 0
  {
    if s.Many? then
      && (forall k :: 0 <= k < |s.items| ==> HeldValue(f, s.items[k]))
      && (EncodePacked(f, s, 0).Some? ==> |EncodePacked(f, s, 0).value| < TWO64)
    else HeldValue(f, s.value)
  }

  ghost predicate HeldValue(f: Field, v: Value)
    decreases v, 2
  {
    && (f.ltype.Fixed32? || f.ltype.Fixed64? ==> v.Int? && v.n >= 0)
    && (f.ltype.Submessage? ==>
          Held(f.sub, v) && (EncodeMessage(f.sub, v).Some? ==> |EncodeMessage(f.sub, v).value| < TWO64))
  }

  // pb_encode_submessage: sized first, then written through a substream of just that size.
  // The substream always takes exactly that many bytes.
  method EncodeSubmessageTo(s: OStream, f: Field, v: Value) returns (ok: bool)
    requires s.Valid() && f.ltype.Submessage? && WellFormed(f.sub) && HeldValue(f, v)
    modifies s`state, s`bytesWritten, s.buf
    ensures Wrote(s, old(s.bytesWritten), old(s.Out()), ok, EncodeValue(f, v))
    decreases v, 2, 2
  {
    var sizing := new OStream.Sizing();
    ok := EncodeTo(sizing, f.sub, v);
    if !ok {
      return;
    }
    var size := sizing.bytesWritten;
    ghost var e := EncodeMessage(f.sub, v).value;
    ok := EncodeVarintTo(s, size);
    if !ok {
      return;
    }
    ghost var mid, midOut := s.bytesWritten, s.Out();
    if s.sizing {
      s.Count(size);
      return true;
    }
    if s.bytesWritten + size > s.maxSize {
      return false;
    }
    ok := EncodeWithin(s, f.sub, v, size);
    WroteBoth(s, old(s.bytesWritten), old(s.Out()), mid, midOut, ok, EncodeVarint(size), Some(e));
  }

  // The message through a substream of the size that was counted.
  method EncodeWithin(s: OStream, d: Descriptor, v: Value, size: nat) returns (ok: bool)
    requires s.Valid() && !s.sizing && s.bytesWritten + size <= s.maxSize && WellFormed(d) && Held(d, v)
    requires EncodeMessage(d, v).Some? && |EncodeMessage(d, v).value| == size
    modifies s`state, s`bytesWritten, s.buf
    ensures Wrote(s, old(s.bytesWritten), old(s.Out()), ok, EncodeMessage(d, v))
    decreases v, 2, 1
  {
    var sub := new OStream.Sub(s, size);
    ok := EncodeTo(sub, d, v);
    s.bytesWritten := s.bytesWritten + sub.bytesWritten;
    s.state := sub.state;
    if sub.bytesWritten != size {
      // "submsg size changed"
      assert false;
    }
  }

  // The field encoders, by ltype.
  method EncodeValueTo(s: OStream, f: Field, v: Value) returns (ok: bool)
    requires s.Valid() && (f.ltype.Submessage? ==> WellFormed(f.sub)) && HeldValue(f, v)
    modifies s`state, s`bytesWritten, s.buf
    ensures Wrote(s, old(s.bytesWritten), old(s.Out()), ok, EncodeValue(f, v))
    decreases v, 3, 0
  {
    if f.ltype.Submessage? {
      ok := EncodeSubmessageTo(s, f, v);
    } else if v.Int? {
      ok := EncodeNumberTo(s, f, v.n);
    } else if v.Raw? {
      ok := EncodeRawTo(s, f, v.bytes);
    } else {
      ok := false;
    }
  }

  // pb_enc_varint, pb_enc_uvarint, pb_enc_svarint, pb_enc_fixed32 and pb_enc_fixed64
  method EncodeNumberTo(s: OStream, f: Field, n: int) returns (ok: bool)
    requires s.Valid() && !f.ltype.Submessage?
    modifies s`state, s`bytesWritten, s.buf
    ensures Wrote(s, old(s.bytesWritten), old(s.Out()), ok, EncodeValue(f, Int(n)))
  {
    var sizeOk := f.dataSize == 1 || f.dataSize == 2 || f.dataSize == 4 || f.dataSize == 8;
    if f.ltype.Varint? && sizeOk {
      ok := EncodeVarintTo(s, Unsigned64(n));
    } else if f.ltype.Uvarint? && sizeOk && 0 <= n < TWO64 {
      ok := EncodeVarintTo(s, n);
    } else if f.ltype.Svarint? && sizeOk && FitsSigned(n, TWO64) {
      ok := EncodeSvarintTo(s, n);
    } else if f.ltype.Fixed32? && n >= 0 {
      ok := EncodeFixedTo(s, n, 4);
    } else if f.ltype.Fixed64? && n >= 0 {
      ok := EncodeFixedTo(s, n, 8);
    } else {
      ok := false;
    }
  }

  // pb_enc_bytes, pb_enc_string and pb_enc_fixed_length_bytes
  method EncodeRawTo(s: OStream, f: Field, b: seq<Byte>) returns (ok: bool)
    requires s.Valid() && !f.ltype.Submessage?
    modifies s`state, s`bytesWritten, s.buf
    ensures Wrote(s, old(s.bytesWritten), old(s.Out()), ok, EncodeValue(f, Raw(b)))
  {
    if f.ltype.Bytes? && |b| + BYTES_OFFSET <= f.dataSize {
      ok := EncodeStringTo(s, b);
    } else if f.ltype.Str? && |b| <= f.dataSize {
      var size := 0;
      while size < |b| && b[size] != 0
        invariant 0 <= size <= |b| && forall i :: 0 <= i < size ==> b[i] != 0
      {
        size := size + 1;
      }
      assert size == StrLen(b);
      ok := EncodeStringTo(s, b[..size]);
    } else if f.ltype.FixedLengthBytes? && |b| == f.dataSize {
      ok := EncodeStringTo(s, b);
    } else {
      ok := false;
    }
  }

  method EncodeTaggedTo(s: OStream, f: Field, v: Value) returns (ok: bool)
    requires s.Valid() && (f.ltype.Submessage? ==> WellFormed(f.sub)) && HeldValue(f, v)
    modifies s`state, s`bytesWritten, s.buf
    ensures Wrote(s, old(s.bytesWritten), old(s.Out()), ok, EncodeTagged(f, v))
    decreases v, 4, 0
  {
    ok := EncodeTagTo(s, f.ltype.WireType(), f.tag);
    if !ok {
      return;
    }
    ghost var mid, midOut := s.bytesWritten, s.Out();
    ok := EncodeValueTo(s, f, v);
    WroteBoth(s, old(s.bytesWritten), old(s.Out()), mid, midOut, ok, EncodeTag(f.tag, f.ltype.WireType()),
              EncodeValue(f, v));
  }

  // The entries of a packed array, one after the other.
  method EncodePackedTo(s: OStream, f: Field, t: Slot) returns (ok: bool)
    requires s.Valid() && f.ltype.Packable() && t.Many? && HeldSlot(f, t)
    modifies s`state, s`bytesWritten, s.buf
    ensures Wrote(s, old(s.bytesWritten), old(s.Out()), ok, EncodePacked(f, t, 0))
    decreases t, 1, 0
  {
    var i := 0;
    ghost var done: seq<Byte> := [];
    ghost var e := EncodePacked(f, t, 0);
    JoinNothing(e);
    while i < |t.items|
      invariant i <= |t.items|
      invariant Wrote(s, old(s.bytesWritten), old(s.Out()), true, Some(done))
      invariant e == Join(Some(done), EncodePacked(f, t, i))
    {
      ghost var mid, midOut := s.bytesWritten, s.Out();
      ok := EncodeValueTo(s, f, t.items[i]);
      WroteNext(s, old(s.bytesWritten), old(s.Out()), done, mid, midOut, ok, EncodeValue(f, t.items[i]),
                EncodePacked(f, t, i + 1));
      if !ok {
        return;
      }
      done := done + EncodeValue(f, t.items[i]).value;
      i := i + 1;
    }
    return true;
  }

  // The size of a packed array's data: by the count for fixed-size entries, and otherwise by a sizing stream.
  method PackedSize(f: Field, t: Slot) returns (ok: bool, size: nat)
    requires f.ltype.Packable() && t.Many? && HeldSlot(f, t)
    ensures ok <==> EncodePacked(f, t, 0).Some?
    ensures ok ==> size == |EncodePacked(f, t, 0).value|
    decreases t, 2, 0
  {
    if f.ltype.Fixed32? {
      FixedSizes(f, t, 0, 4);
      return true, 4 * |t.items|;
    }
    if f.ltype.Fixed64? {
      FixedSizes(f, t, 0, 8);
      return true, 8 * |t.items|;
    }
    var sizing := new OStream.Sizing();
    ok := EncodePackedTo(sizing, f, t);
    size := sizing.bytesWritten;
  }

  lemma {:induction false} FixedSizes(f: Field, t: Slot, k: nat, w: nat)
    requires (f.ltype.Fixed32? && w == 4) || (f.ltype.Fixed64? && w == 8)
    requires t.Many? && k <= |t.items| && forall j :: 0 <= j < |t.items| ==> HeldValue(f, t.items[j])
    ensures EncodePacked(f, t, k).Some? && |EncodePacked(f, t, k).value| == w * (|t.items| - k)
    decreases |t.items| - k
  {
    if k < |t.items| {
      FixedSizes(f, t, k + 1, w);
    }
  }

  // encode_array for a packable type: the tag, the size, and the entries or only their size.
  method EncodePackedArrayTo(s: OStream, f: Field, t: Slot) returns (ok: bool)
    requires s.Valid() && f.ltype.Packable() && t.Many? && HeldSlot(f, t)
    requires 0 < |t.items| <= f.arraySize
    modifies s`state, s`bytesWritten, s.buf
    ensures Wrote(s, old(s.bytesWritten), old(s.Out()), ok, EncodeArray(f, t))
    decreases t, 3, 0
  {
    ghost var e, tag := EncodePacked(f, t, 0), EncodeTag(f.tag, WT_STRING);
    ghost var prefix := if e.Some? then Some(EncodeVarint(|e.value|)) else None;
    JoinArray(f, t);
    ok := EncodeTagTo(s, WT_STRING, f.tag);
    if !ok {
      return;
    }
    ghost var mid, midOut := s.bytesWritten, s.Out();
    var size;
    ok, size := PackedSize(f, t);
    if !ok {
      return;
    }
    ok := EncodeVarintTo(s, size);
    WroteNext(s, old(s.bytesWritten), old(s.Out()), tag, mid, midOut, ok, prefix, e);
    if !ok {
      return;
    }
    mid, midOut := s.bytesWritten, s.Out();
    if s.sizing {
      s.Count(size);
      return true;
    }
    ok := EncodePackedTo(s, f, t);
    WroteBoth(s, old(s.bytesWritten), old(s.Out()), mid, midOut, ok, tag + prefix.value, e);
  }

  lemma JoinArray(f: Field, t: Slot)
    requires t.Many? && 0 < |t.items| <= f.arraySize && f.ltype.Packable()
    ensures var e := EncodePacked(f, t, 0);
            EncodeArray(f, t)
            == Join(Some(EncodeTag(f.tag, WT_STRING)), Join(if e.Some? then Some(EncodeVarint(|e.value|)) else None, e))
  {
  }

  // encode_array for the other types: every entry with its tag.
  method EncodeEachTo(s: OStream, f: Field, t: Slot) returns (ok: bool)
    requires s.Valid() && (f.ltype.Submessage? ==> WellFormed(f.sub)) && t.Many? && HeldSlot(f, t)
    modifies s`state, s`bytesWritten, s.buf
    ensures Wrote(s, old(s.bytesWritten), old(s.Out()), ok, EncodeEach(f, t, 0))
    decreases t, 1, 0
  {
    var i := 0;
    ghost var done: seq<Byte> := [];
    ghost var e := EncodeEach(f, t, 0);
    JoinNothing(e);
    while i < |t.items|
      invariant i <= |t.items|
      invariant Wrote(s, old(s.bytesWritten), old(s.Out()), true, Some(done))
      invariant e == Join(Some(done), EncodeEach(f, t, i))
    {
      ghost var mid, midOut := s.bytesWritten, s.Out();
      ok := EncodeTaggedTo(s, f, t.items[i]);
      WroteNext(s, old(s.bytesWritten), old(s.Out()), done, mid, midOut, ok, EncodeTagged(f, t.items[i]),
                EncodeEach(f, t, i + 1));
      if !ok {
        return;
      }
      done := done + EncodeTagged(f, t.items[i]).value;
      i := i + 1;
    }
    return true;
  }

  // encode_basic_field
  method EncodeFieldTo(s: OStream, f: Field, t: Slot) returns (ok: bool)
    requires s.Valid() && (f.ltype.Submessage? ==> WellFormed(f.sub) && !f.htype.Singular?) && HeldSlot(f, t)
    modifies s`state, s`bytesWritten, s.buf
    ensures Wrote(s, old(s.bytesWritten), old(s.Out()), ok, EncodeField(f, t))
    decreases t, 5, 0
  {
    ok := false;
    match f.htype {
      case Required =>
        if t.One? {
          ok := EncodeTaggedTo(s, f, t.value);
        }
      case Optional =>
        if t.Opt? {
          if t.has {
            ok := EncodeTaggedTo(s, f, t.value);
          } else {
            ok := true;
          }
        }
      case Singular =>
        if t.One? {
          var isDefault := CheckDefault(f, t.value);
          if isDefault {
            ok := true;
          } else {
            ok := EncodeTaggedTo(s, f, t.value);
          }
        }
      case Repeated =>
        if t.Many? {
          if t.items == [] {
            ok := true;
          } else if |t.items| > f.arraySize {
            // "array max size exceeded"
          } else if f.ltype.Packable() {
            ok := EncodePackedArrayTo(s, f, t);
          } else {
            ok := EncodeEachTo(s, f, t);
          }
        }
      case Oneof =>
        if t.Union? {
          if t.which == f.tag {
            ok := EncodeTaggedTo(s, f, t.value);
          } else {
            ok := true;
          }
        }
    }
    assert ok && s.bytesWritten == old(s.bytesWritten) ==> old(s.Out()) + [] == old(s.Out());
  }

  // pb_encode
  method EncodeTo(s: OStream, d: Descriptor, v: Value) returns (ok: bool)
    requires s.Valid() && WellFormed(d) && Held(d, v)
    modifies s`state, s`bytesWritten, s.buf
    ensures Wrote(s, old(s.bytesWritten), old(s.Out()), ok, EncodeMessage(d, v))
    decreases v, 2, 0
  {
    TagsAreNonzero(d);
    var iter := new FieldIter(d.fields);
    ok := EncodeFieldsTo(s, d, v, iter);
  }

  // The loop over the fields.
  method EncodeFieldsTo(s: OStream, d: Descriptor, v: Value, iter: FieldIter) returns (ok: bool)
    requires s.Valid() && WellFormed(d) && Held(d, v) && iter.Valid() && iter.fields == d.fields && iter.pos == 0
    modifies s`state, s`bytesWritten, s.buf, iter
    ensures Wrote(s, old(s.bytesWritten), old(s.Out()), ok, EncodeMessage(d, v))
    decreases v, 1, 1
  {
    var more := d.fields != [];
    ghost var i: nat := 0;
    ghost var done: seq<Byte> := [];
    ghost var e := EncodeMessage(d, v);
    JoinNothing(e);
    ok := true;
    while more
      invariant i <= |d.fields| && iter.Valid() && iter.fields == d.fields
      invariant more <==> i < |d.fields|
      invariant more ==> iter.pos == i
      invariant ok && Wrote(s, old(s.bytesWritten), old(s.Out()), true, Some(done))
      invariant e == Join(Some(done), EncodeFrom(d, v, i))
      decreases |d.fields| - i
    {
      ok, done := EncodeNextTo(s, d, v, iter.pos, old(s.bytesWritten), old(s.Out()), done);
      if !ok {
        return;
      }
      more := iter.Next();
      i := i + 1;
    }
  }

  // One round of the loop: the ith field, behind what is done.
  method EncodeNextTo(s: OStream, d: Descriptor, v: Value, i: nat, ghost before: nat, ghost out: seq<Byte>,
                      ghost done: seq<Byte>)
    returns (ok: bool, ghost done': seq<Byte>)
    requires i < |d.fields| && WellFormed(d) && Held(d, v)
    requires Wrote(s, before, out, true, Some(done))
    modifies s`state, s`bytesWritten, s.buf
    ensures var e := Join(Some(done), EncodeFrom(d, v, i));
            if ok then Wrote(s, before, out, true, Some(done')) && e == Join(Some(done'), EncodeFrom(d, v, i + 1))
            else Wrote(s, before, out, false, e)
    decreases v, 1, 0
  {
    var f := d.fields[i];
    assert FieldOk(d, i);
    if !v.Msg? || f.slot >= |v.slots| {
      return false, done;
    }
    ghost var mid, midOut := s.bytesWritten, s.Out();
    ok := EncodeFieldTo(s, f, v.slots[f.slot]);
    ghost var a := EncodeField(f, v.slots[f.slot]);
    WroteNext(s, before, out, done, mid, midOut, ok, a, EncodeFrom(d, v, i + 1));
    done' := if a.Some? then done + a.value else done;
  }

  // pb_get_encoded_size
  method GetEncodedSize(d: Descriptor, v: Value) returns (ok: bool, size: nat)
    requires WellFormed(d) && Held(d, v)
    ensures ok <==> EncodeMessage(d, v).Some?
    ensures ok ==> size == |EncodeMessage(d, v).value|
  {
    var s := new OStream.Sizing();
    ok := EncodeTo(s, d, v);
    size := s.bytesWritten;
  }
}
