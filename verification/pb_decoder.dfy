// pb_decode on streams. Every step takes and yields exactly what the decoding says.

module PbDecoder {
  import opened Wire
  import opened Words
  import opened PbVarint
  import opened PbMessages
  import opened PbIterator
  import opened PbDecoding
  import opened PbBounds
  import opened PbLeft
  import opened PbExposure
  import opened PbSheltered
  import opened PbIStream
  import opened PbSeen

  // pb_dec_varint, pb_dec_uvarint and pb_dec_svarint. The cast is stored before it is checked.
  method DecodeIntegerFrom(s: IStream, f: Field, dest: Value) returns (ok: bool, v: Value)
    requires s.Valid() && (f.ltype.Varint? || f.ltype.Uvarint? || f.ltype.Svarint?)
    modifies s
    ensures Took(s, old(s.pos + s.bytesLeft), ok, DecodeInteger(f, old(s.Rest())))
    ensures ok ==> v == DecodeInteger(f, old(s.Rest())).value
    ensures IntegerLeaves(f, dest, old(s.Rest()), v)
  {
    v := dest;
    var value;
    ok, value := DecodeVarintFrom(s);
    if !ok {
      return;
    }
    var n := value as int;
    if f.ltype.Varint? {
      n := if f.dataSize == 8 then Signed(value, TWO64) else Signed(value, TWO32);
    } else if f.ltype.Svarint? {
      n := UnZigZag(value);
    }
    var limit := IntLimit(f.dataSize);
    if limit == 0 {
      // "invalid data_size"
      return false, v;
    }
    // the cast, and the check that it did not change the value
    var clamped: int := if f.ltype.Uvarint? then n % limit else Signed(n % TWO64, limit);
    CastIsIdentity(n, limit);
    return clamped == n, Int(clamped);
  }

  lemma {:induction false} CastIsIdentity(n: int, limit: nat)
    requires limit == 0x100 || limit == 0x1_0000 || limit == TWO32 || limit == TWO64
    requires FitsSigned(n, TWO64) || 0 <= n < TWO64
    ensures FitsSigned(n, TWO64) ==> (Signed(n % TWO64, limit) == n <==> FitsSigned(n, limit))
    ensures n >= 0 ==> (n % limit == n <==> n < limit)
  {
    if FitsSigned(n, TWO64) && FitsSigned(n, limit) {
      SignedOfNarrow(n, limit);
    }
  }

  lemma {:induction false} SignedOfNarrow(n: int, limit: nat)
    requires limit == 0x100 || limit == 0x1_0000 || limit == TWO32 || limit == TWO64
    requires FitsSigned(n, limit)
    ensures Signed(n % TWO64, limit) == n
  {
    var q := TWO64 / limit;
    assert TWO64 == q * limit;
    if n < 0 {
      RemainderIsUnique(n + TWO64, limit, q - 1, n + limit);
    } else {
      RemainderIsUnique(n, limit, 0, n);
    }
  }

  // pb_dec_fixed32 and pb_dec_fixed64
  method DecodeFixedFrom(s: IStream, w: nat, dest: Value) returns (ok: bool, v: Value)
    requires s.Valid() && w > 0
    modifies s
    ensures Took(s, old(s.pos + s.bytesLeft), ok, DecodeFixed(w, old(s.Rest())))
    ensures ok ==> v == DecodeFixed(w, old(s.Rest())).value
    ensures FixedLeaves(w, dest, old(s.Rest()), v)
  {
    var bytes;
    ok, bytes := s.Read(w);
    v := if ok then Int(GetLittleEndian(bytes)) else dest;
  }

  // The tests of the three on the length.
  predicate LengthFits(f: Field, size: nat): (ok: bool)
    requires f.ltype.Bytes? || f.ltype.Str? || f.ltype.FixedLengthBytes?
    requires size < TWO32
    ensures ok <==> LengthOk(f, size)
  {
    if f.ltype.Bytes? then
      size <= PB_SIZE_MAX && size + BYTES_OFFSET <= f.dataSize
    else if f.ltype.Str? then
      // alloc_size is 32 bits wide
      var allocSize := (size + 1) % TWO32;
      size <= allocSize <= f.dataSize
    else
      size <= PB_SIZE_MAX && (size == 0 || size == f.dataSize)
  }

  // pb_dec_bytes, pb_dec_string and pb_dec_fixed_length_bytes
  method DecodeRawFrom(s: IStream, f: Field, dest: Value) returns (ok: bool, v: Value)
    requires s.Valid() && (f.ltype.Bytes? || f.ltype.Str? || f.ltype.FixedLengthBytes?)
    modifies s
    ensures Took(s, old(s.pos + s.bytesLeft), ok, DecodeRaw(f, old(s.Rest())))
    ensures ok ==> v == DecodeRaw(f, old(s.Rest())).value
    ensures RawLeaves(f, dest, old(s.Rest()), v)
  {
    v := dest;
    var size, bytes;
    ok, size := DecodeVarint32From(s);
    if !ok {
      return;
    }
    if !LengthFits(f, size) {
      return false, v;
    }
    if f.ltype.FixedLengthBytes? && size == 0 {
      return true, Raw(Zeros(f.dataSize));
    }
    ok, bytes := s.Read(size);
    if ok {
      v := Raw(bytes);
    } else {
      v := CutRaw(f, dest, size);
    }
  }

  // What a length leaves whose bytes are missing.
  method CutRaw(f: Field, dest: Value, size: nat) returns (v: Value)
    ensures CutLeaves(f, dest, size, v)
  {
    v := dest;
    if f.ltype.Bytes? {
      var blank: seq<Byte> := seq(size, i => if dest.Raw? && 0 <= i < |dest.bytes| then dest.bytes[i] else 0);
      assert |blank| == size && (dest.Raw? ==> StartAlike(blank, dest.bytes));
      var held: seq<Byte> :| |held| == size && (dest.Raw? ==> StartAlike(held, dest.bytes));
      v := Raw(held);
    } else if f.ltype.Str? && dest.Raw? && size < |dest.bytes| {
      v := Raw(dest.bytes[size := 0]);
    }
  }

  // pb_dec_submessage, without the reset that comes first for a oneof. An entry of an array is set
  // to defaults when its length is known.
  method DecodeSubmessageFrom(s: IStream, f: Field, dest: Value) returns (ok: bool, v: Value)
    requires s.Valid() && f.ltype.Submessage? && WellFormed(f.sub) && Start(f, dest).Msg?
    modifies s
    ensures Took(s, old(s.pos + s.bytesLeft), ok, DecodeValue(f, Start(f, dest), old(s.Rest())))
    ensures ok ==> v == DecodeValue(f, Start(f, dest), old(s.Rest())).value
    ensures ValueLeaves(f, dest, old(s.Rest()), v)
    decreases s.bytesLeft, 0
  {
    v := dest;
    ghost var b, end := s.Rest(), s.pos + s.bytesLeft;
    SubmessageIs(f, dest, b);
    var sub;
    ok, sub := MakeSubstream(s);
    if !ok {
      return;
    }
    ok, v := DecodeStarted(s, sub, f, dest, end, TakePrefixed(b).rest);
  }

  lemma SubmessageIs(f: Field, dest: Value, b: seq<Byte>)
    requires f.ltype.Submessage? && Start(f, dest).Msg?
    ensures var t, p := TakePrefixed(b), DecodeValue(f, Start(f, dest), b);
            && (p.Parsed? <==> t.Parsed? && DecodeNoInit(f.sub, Start(f, dest), t.value).Parsed?)
            && (p.Parsed? ==> p == Parsed(DecodeNoInit(f.sub, Start(f, dest), t.value).value, t.rest))
    ensures TakePrefixed(b).Failed? ==> ValueLeaves(f, dest, b, dest)
  {
  }

  method DecodeStarted(s: IStream, sub: IStream, f: Field, dest: Value, ghost end: nat, ghost rest: seq<Byte>)
    returns (ok: bool, r: Value)
    requires IsSub(sub, s, end, rest) && sub.pos + sub.bytesLeft + s.bytesLeft == end && s.pos <= sub.pos
    requires f.ltype.Submessage? && WellFormed(f.sub) && Start(f, dest).Msg?
    modifies s`pos, sub
    ensures s.Valid() && s.pos + s.bytesLeft <= end
    ensures ok <==> DecodeNoInit(f.sub, Start(f, dest), old(sub.Rest())).Parsed?
    ensures ok ==> r == DecodeNoInit(f.sub, Start(f, dest), old(sub.Rest())).value
    ensures ok ==> s.Rest() == rest && s.pos + s.bytesLeft == end
    ensures LoopLeaves(f.sub, Start(f, dest), {}, old(sub.Rest()), r)
    decreases sub.bytesLeft, 8
  {
    var m := dest;
    if f.htype.Repeated? {
      m := SetToDefaults(f.sub);
    }
    ok, r := DecodeWithin(s, sub, f.sub, m, end, rest);
  }

  // A message out of the substream, which is then closed.
  method DecodeWithin(s: IStream, sub: IStream, d: Descriptor, m: Value, ghost end: nat, ghost rest: seq<Byte>)
    returns (ok: bool, r: Value)
    requires IsSub(sub, s, end, rest) && sub.pos + sub.bytesLeft + s.bytesLeft == end && s.pos <= sub.pos
    requires WellFormed(d) && m.Msg?
    modifies s`pos, sub
    ensures s.Valid() && s.pos + s.bytesLeft <= end
    ensures ok <==> DecodeNoInit(d, m, old(sub.Rest())).Parsed?
    ensures ok ==> r == DecodeNoInit(d, m, old(sub.Rest())).value
    ensures ok ==> s.Rest() == rest && s.pos + s.bytesLeft == end
    ensures LoopLeaves(d, m, {}, old(sub.Rest()), r)
    decreases sub.bytesLeft, 7
  {
    ok, r := DecodeNoInitFrom(sub, d, m);
    var closed := CloseSubstream(s, sub, end, rest);
    ok := ok && closed;
  }

  // The field decoders, by ltype, with dest at the destination.
  method DecodeValueFrom(s: IStream, f: Field, dest: Value) returns (ok: bool, v: Value)
    requires s.Valid() && (f.ltype.Submessage? ==> WellFormed(f.sub))
    modifies s
    ensures Took(s, old(s.pos + s.bytesLeft), ok, DecodeValue(f, Start(f, dest), old(s.Rest())))
    ensures ok ==> v == DecodeValue(f, Start(f, dest), old(s.Rest())).value
    ensures ValueLeaves(f, dest, old(s.Rest()), v)
    decreases s.bytesLeft, 1, 0
  {
    match f.ltype {
      case Varint => ok, v := DecodeIntegerFrom(s, f, dest);
      case Uvarint => ok, v := DecodeIntegerFrom(s, f, dest);
      case Svarint => ok, v := DecodeIntegerFrom(s, f, dest);
      case Fixed32 => ok, v := DecodeFixedFrom(s, 4, dest);
      case Fixed64 => ok, v := DecodeFixedFrom(s, 8, dest);
      case Bytes => ok, v := DecodeRawFrom(s, f, dest);
      case Str => ok, v := DecodeRawFrom(s, f, dest);
      case FixedLengthBytes => ok, v := DecodeRawFrom(s, f, dest);
      case Submessage =>
        if !f.htype.Repeated? && !dest.Msg? {
          return false, dest;
        }
        ok, v := DecodeSubmessageFrom(s, f, dest);
    }
  }

  // What stands in memory that nobody wrote.
  method Memory(f: Field) returns (held: Value)
    requires f.ltype.Submessage? ==> WellFormed(f.sub)
    ensures Holds(f, held)
  {
    BlankIsHeld(f);
    held :| Holds(f, held);
  }

  // A decoder at work there.
  method DecodeHeldFrom(s: IStream, f: Field) returns (ok: bool, v: Value)
    requires s.Valid() && (f.ltype.Submessage? ==> f.htype.Repeated? && WellFormed(f.sub))
    modifies s
    ensures Took(s, old(s.pos + s.bytesLeft), ok, DecodeValue(f, DefaultValue(f), old(s.Rest())))
    ensures ok ==> v == DecodeValue(f, DefaultValue(f), old(s.Rest())).value
    ensures HeldLeaves(f, old(s.Rest()), v)
    decreases s.bytesLeft, 1, 1
  {
    var held := Memory(f);
    if !f.ltype.Submessage? {
      PlaceIsIgnored(f, held, DefaultValue(f), s.Rest());
    }
    ok, v := DecodeValueFrom(s, f, held);
  }

  // The packed branch of decode_static_field: an entry counts once it is decoded.
  method DecodePackedFrom(s: IStream, f: Field, items: seq<Value>) returns (ok: bool, r: seq<Value>)
    requires s.Valid() && f.ltype.Packable()
    modifies s
    ensures s.Valid() && s.pos + s.bytesLeft <= old(s.pos + s.bytesLeft)
    ensures ok ==> s.bytesLeft == 0 && s.pos == old(s.pos + s.bytesLeft)
    ensures ok <==> DecodePacked(f, items, old(s.Rest())).Some?
    ensures ok ==> r == DecodePacked(f, items, old(s.Rest())).value
    ensures r == PackedLeft(f, items, old(s.Rest()))
    decreases s.bytesLeft, 2
  {
    r := items;
    ghost var e := DecodePacked(f, items, s.Rest());
    while s.bytesLeft > 0 && |r| < f.arraySize
      invariant s.Valid() && s.pos + s.bytesLeft == old(s.pos + s.bytesLeft) && s.bytesLeft <= old(s.bytesLeft)
      invariant e == DecodePacked(f, r, s.Rest())
      invariant PackedLeft(f, r, s.Rest()) == PackedLeft(f, items, old(s.Rest()))
      decreases s.bytesLeft
    {
      var v;
      ok, v := DecodeHeldFrom(s, f);
      if !ok {
        return false, r;
      }
      r := r + [v];
    }
    // "array overflow" when bytes are left
    return s.bytesLeft == 0, r;
  }

  // decode_static_field, for a packed array.
  method DecodePackedFieldFrom(s: IStream, f: Field, slot: Slot) returns (ok: bool, r: Slot)
    requires s.Valid() && f.htype.Repeated? && f.ltype.Packable() && slot.Many?
    modifies s
    ensures Took(s, old(s.pos + s.bytesLeft), ok, DecodeField(f, slot, WT_STRING, old(s.Rest())))
    ensures ok ==> r == DecodeField(f, slot, WT_STRING, old(s.Rest())).value
    ensures FieldLeaves(f, slot, WT_STRING, old(s.Rest()), r)
    decreases s.bytesLeft, 3
  {
    r := slot;
    ghost var b, end := s.Rest(), s.pos + s.bytesLeft;
    PackedFieldIs(f, slot, b);
    var sub, items;
    ok, sub := MakeSubstream(s);
    if !ok {
      return;
    }
    ok, items := DecodePackedWithin(s, sub, f, slot.items, end, TakePrefixed(b).rest);
    r := Many(items);
  }

  // The entries out of the substream, which is then closed.
  method DecodePackedWithin(s: IStream, sub: IStream, f: Field, items: seq<Value>, ghost end: nat,
                            ghost rest: seq<Byte>)
    returns (ok: bool, r: seq<Value>)
    requires IsSub(sub, s, end, rest) && sub.pos + sub.bytesLeft + s.bytesLeft == end && s.pos <= sub.pos
    requires f.ltype.Packable()
    modifies s`pos, sub
    ensures s.Valid() && s.pos + s.bytesLeft <= end
    ensures ok <==> DecodePacked(f, items, old(sub.Rest())).Some?
    ensures ok ==> r == DecodePacked(f, items, old(sub.Rest())).value
    ensures r == PackedLeft(f, items, old(sub.Rest()))
    ensures ok ==> s.Rest() == rest && s.pos + s.bytesLeft == end
    decreases sub.bytesLeft, 3
  {
    ok, r := DecodePackedFrom(sub, f, items);
    if ok {
      ok := CloseSubstream(s, sub, end, rest);
    }
  }

  lemma PackedFieldIs(f: Field, slot: Slot, b: seq<Byte>)
    requires f.htype.Repeated? && f.ltype.Packable() && slot.Many?
    ensures var t, p := TakePrefixed(b), DecodeField(f, slot, WT_STRING, b);
            && (p.Parsed? <==> t.Parsed? && DecodePacked(f, slot.items, t.value).Some?)
            && (p.Parsed? ==> p == Parsed(Many(DecodePacked(f, slot.items, t.value).value), t.rest))
  {
  }

  // decode_static_field
  method DecodeFieldFrom(s: IStream, f: Field, slot: Slot, wireType: nat) returns (ok: bool, r: Slot)
    requires s.Valid() && (f.ltype.Submessage? ==> WellFormed(f.sub))
    modifies s
    ensures Took(s, old(s.pos + s.bytesLeft), ok, DecodeField(f, slot, wireType, old(s.Rest())))
    ensures ok ==> r == DecodeField(f, slot, wireType, old(s.Rest())).value
    ensures FieldLeaves(f, slot, wireType, old(s.Rest()), r)
    decreases s.bytesLeft, 4
  {
    r := slot;
    var v;
    if f.htype.Repeated? != slot.Many? {
      return false, r;
    }
    match f.htype {
      case Required =>
        ok, v := DecodeValueFrom(s, f, slot.value);
        r := One(v);
      case Optional =>
        ok, v := DecodeValueFrom(s, f, slot.value);
        r := Opt(true, v);
      case Singular =>
        ok, v := DecodeValueFrom(s, f, slot.value);
        r := One(v);
      case Repeated =>
        if wireType == WT_STRING && f.ltype.Packable() {
          ok, r := DecodePackedFieldFrom(s, f, slot);
        } else {
          if |slot.items| >= f.arraySize {
            return false, r;
          }
          ok, v := DecodeHeldFrom(s, f);
          r := Many(slot.items + [v]);
        }
      case Oneof =>
        ok, v := DecodeMemberFrom(s, f, slot);
        r := Union(f.tag, v);
    }
  }

  // A member of a oneof: a submessage is reset first, and anything else stands where the members do.
  method DecodeMemberFrom(s: IStream, f: Field, slot: Slot) returns (ok: bool, v: Value)
    requires s.Valid() && f.htype.Oneof? && !slot.Many? && (f.ltype.Submessage? ==> WellFormed(f.sub))
    modifies s
    ensures Took(s, old(s.pos + s.bytesLeft), ok, DecodeValue(f, DefaultValue(f), old(s.Rest())))
    ensures ok ==> v == DecodeValue(f, DefaultValue(f), old(s.Rest())).value
    ensures if Unset(f, slot) then HeldLeaves(f, old(s.Rest()), v) else ValueLeaves(f, Place(f, slot), old(s.Rest()), v)
    decreases s.bytesLeft, 1, 2
  {
    if f.ltype.Submessage? {
      var m := SetToDefaults(f.sub);
      ok, v := DecodeValueFrom(s, f, m);
    } else if slot.Union? && slot.which == f.tag {
      PlaceIsIgnored(f, slot.value, DefaultValue(f), s.Rest());
      ok, v := DecodeValueFrom(s, f, slot.value);
    } else {
      ok, v := DecodeHeldFrom(s, f);
    }
  }

  // fields_seen[index >> 5] |= 1 << (index & 31)
  method MarkSeen(d: Descriptor, i: nat, index: nat, fieldsSeen: array<nat>, ghost seen: set<nat>)
    requires WellFormed(d) && i < |d.fields| && d.fields[i].htype.Required? && index == RequiredBefore(d.fields, i)
    requires fieldsSeen.Length == 2 && Bits(d.fields, seen, fieldsSeen[0], fieldsSeen[1])
    modifies fieldsSeen
    ensures Bits(d.fields, seen + {i}, fieldsSeen[0], fieldsSeen[1])
  {
    RequiredIndexBelow(d.fields, i);
    if index < PB_MAX_REQUIRED_FIELDS {
      BitsOneMore(d.fields, seen, fieldsSeen[0], fieldsSeen[1], i);
      fieldsSeen[index / 32] := Or(fieldsSeen[index / 32], Pow2(index % 32));
    }
  }

  method NoteSeen(d: Descriptor, i: nat, index: nat, fieldsSeen: array<nat>, ghost seen: set<nat>)
    returns (ghost seen': set<nat>)
    requires WellFormed(d) && i < |d.fields| && index == RequiredBefore(d.fields, i)
    requires fieldsSeen.Length == 2 && Bits(d.fields, seen, fieldsSeen[0], fieldsSeen[1])
    modifies fieldsSeen
    ensures seen' == if d.fields[i].htype.Required? then seen + {i} else seen
    ensures Bits(d.fields, seen', fieldsSeen[0], fieldsSeen[1])
  {
    seen' := seen;
    if d.fields[i].htype.Required? {
      MarkSeen(d, i, index, fieldsSeen, seen);
      seen' := seen + {i};
    }
  }

  // One round of the loop of pb_decode_noinit, after its tag.
  method DecodeRound(s: IStream, d: Descriptor, iter: FieldIter, fieldsSeen: array<nat>, m: Value,
                     ghost seen: set<nat>, wireType: nat, tag: nat)
    returns (ok: bool, r: Value, ghost seen': set<nat>)
    requires s.Valid() && WellFormed(d) && m.Msg? && wireType < 8
    requires iter.Valid() && iter.fields == d.fields && fieldsSeen.Length == 2
    requires Bits(d.fields, seen, fieldsSeen[0], fieldsSeen[1])
    modifies s, iter, fieldsSeen
    ensures s.Valid() && s.pos + s.bytesLeft <= old(s.pos + s.bytesLeft) && iter.Valid()
    ensures !ok ==> StepLeaves(d, m, Tag(tag, wireType, old(s.Rest())), r)
    ensures ok <==> DecodeStep(d, m, seen, Tag(tag, wireType, old(s.Rest()))).At?
    ensures ok ==> DecodeStep(d, m, seen, Tag(tag, wireType, old(s.Rest()))) == At(r, seen', s.Rest())
    ensures ok ==>
              Bits(d.fields, seen', fieldsSeen[0], fieldsSeen[1])
              && s.pos + s.bytesLeft == old(s.pos + s.bytesLeft)
    decreases s.bytesLeft, 5, 1
  {
    r, seen' := m, seen;
    var found := iter.Find(tag);
    if !found {
      NotFound(d.fields, tag);
      ok := SkipFieldFrom(s, wireType);
      return;
    }
    if d.fields == [] {
      // the terminator, as a required varint of no size
      return false, r, seen';
    }
    var f, index := d.fields[iter.pos], iter.requiredFieldIndex;
    FindsItself(d, iter.pos);
    assert FieldOk(d, iter.pos);
    if f.slot >= |m.slots| {
      return false, r, seen';
    }
    seen' := NoteSeen(d, iter.pos, index, fieldsSeen, seen);
    ok, r := DecodeKnownFrom(s, d, iter.pos, m, seen, wireType);
  }

  // The field that was found, decoded into the message.
  method DecodeKnownFrom(s: IStream, d: Descriptor, i: nat, m: Value, ghost seen: set<nat>, wireType: nat)
    returns (ok: bool, r: Value)
    requires s.Valid() && WellFormed(d) && i < |d.fields| && m.Msg? && d.fields[i].slot < |m.slots| && wireType < 8
    modifies s
    ensures s.Valid() && s.pos + s.bytesLeft <= old(s.pos + s.bytesLeft)
    ensures !ok ==> StepLeaves(d, m, Tag(d.fields[i].tag, wireType, old(s.Rest())), r)
    ensures ok <==> DecodeStep(d, m, seen, Tag(d.fields[i].tag, wireType, old(s.Rest()))).At?
    ensures ok ==> s.pos + s.bytesLeft == old(s.pos + s.bytesLeft)
    ensures ok ==> DecodeStep(d, m, seen, Tag(d.fields[i].tag, wireType, old(s.Rest()))) ==
                     At(r, if d.fields[i].htype.Required? then seen + {i} else seen, s.Rest())
    decreases s.bytesLeft, 5, 0
  {
    var f := d.fields[i];
    FindsItself(d, i);
    assert FieldOk(d, i);
    var slot;
    ok, slot := DecodeFieldFrom(s, f, m.slots[f.slot], wireType);
    r := Msg(m.slots[f.slot := slot]);
  }

  lemma {:induction false} RequiredIndexBelow(fields: seq<Field>, i: nat)
    requires i < |fields| && fields[i].htype.Required?
    ensures RequiredBefore(fields, i) < RequiredBefore(fields, |fields|)
  {
    IndicesGrow(fields, i, |fields|);
  }

  lemma NotFound(fields: seq<Field>, tag: nat)
    requires forall i :: 0 <= i < |fields| ==> fields[i].tag != tag
    ensures Find(fields, tag, 0) == |fields|
  {
  }

  // The end of pb_decode_noinit: the iterator is run to the last field to count the required ones.
  method RequiredFieldCount(iter: FieldIter) returns (count: nat)
    requires iter.Valid()
    modifies iter
    ensures iter.Valid() && count == RequiredBefore(iter.fields, |iter.fields|)
  {
    var last := iter.pos;
    count := iter.requiredFieldIndex;
    var more := iter.Next();
    while more
      invariant iter.Valid()
      invariant if more then iter.pos == last + 1 < |iter.fields| else iter.pos == 0 && last + 1 >= |iter.fields|
      invariant if iter.fields == [] then count == 0
                else last < |iter.fields| && count == RequiredBefore(iter.fields, last)
      decreases if more then |iter.fields| - iter.pos else 0
    {
      last := iter.pos;
      count := iter.requiredFieldIndex;
      more := iter.Next();
    }
    if iter.Tag() != 0 && iter.fields[last].htype.Required? {
      count := count + 1;
    }
  }

  // The words are compared: whole ones, and the bits of the last.
  method WordsSeen(fieldsSeen: array<nat>, count: nat) returns (ok: bool)
    requires fieldsSeen.Length == 2 && RequiredCountOk(count)
    ensures ok <==> count == 0 || WordsFull(fieldsSeen[0], fieldsSeen[1], count)
  {
    if count == 0 {
      return true;
    }
    var allbits := Pow2(32) - 1;
    var i := 0;
    while i < count / 32
      invariant 0 <= i <= count / 32
      invariant forall j :: 0 <= j < i ==> fieldsSeen[j] == allbits
    {
      if fieldsSeen[i] != allbits {
        return false;
      }
      i := i + 1;
    }
    ShiftedOnes(count % 32);
    LastWord(fieldsSeen[0], fieldsSeen[1], count);
    return fieldsSeen[count / 32] == allbits / Pow2(32 - count % 32);
  }

  lemma LastWord(w0: nat, w1: nat, count: nat)
    requires 0 < count && RequiredCountOk(count)
    ensures count < 32 ==> count / 32 == 0 && (WordsFull(w0, w1, count) <==> w0 == Pow2(count % 32) - 1)
    ensures count >= 32 ==>
              && count / 32 == 1
              && (WordsFull(w0, w1, count) <==> w0 == Pow2(32) - 1 && w1 == Pow2(count % 32) - 1)
  {
  }

  method RequiredCheck(d: Descriptor, iter: FieldIter, fieldsSeen: array<nat>, ghost seen: set<nat>)
    returns (ok: bool)
    requires WellFormed(d) && iter.Valid() && iter.fields == d.fields
    requires fieldsSeen.Length == 2 && Bits(d.fields, seen, fieldsSeen[0], fieldsSeen[1])
    modifies iter
    ensures ok <==> RequiredSeen(d.fields, seen)
  {
    var count := RequiredFieldCount(iter);
    WordsDecide(d.fields, seen, fieldsSeen[0], fieldsSeen[1]);
    AllIndicesSeen(d.fields, seen);
    ok := WordsSeen(fieldsSeen, count);
  }

  // The loop of pb_decode_noinit.
  method DecodeFieldsFrom(s: IStream, d: Descriptor, iter: FieldIter, fieldsSeen: array<nat>, m: Value)
    returns (ok: bool, r: Value, ghost seen: set<nat>)
    requires s.Valid() && WellFormed(d) && m.Msg? && iter.Valid() && iter.fields == d.fields
    requires fieldsSeen.Length == 2 && Bits(d.fields, {}, fieldsSeen[0], fieldsSeen[1])
    modifies s, iter, fieldsSeen
    ensures s.Valid() && s.pos + s.bytesLeft <= old(s.pos + s.bytesLeft) && iter.Valid()
    ensures LoopLeaves(d, m, {}, old(s.Rest()), r)
    ensures ok <==> DecodeLoop(d, m, {}, old(s.Rest())).At?
    ensures ok ==> DecodeLoop(d, m, {}, old(s.Rest())) == At(r, seen, s.Rest())
    ensures ok ==> Bits(d.fields, seen, fieldsSeen[0], fieldsSeen[1]) && s.pos + s.bytesLeft == old(s.pos + s.bytesLeft)
    decreases s.bytesLeft, 5, 3
  {
    r, seen := m, {};
    ghost var all := DecodeLoop(d, m, {}, s.Rest());
    while s.bytesLeft > 0
      invariant s.Valid() && s.pos + s.bytesLeft == old(s.pos + s.bytesLeft) && s.bytesLeft <= old(s.bytesLeft)
      invariant iter.Valid() && Bits(d.fields, seen, fieldsSeen[0], fieldsSeen[1])
      invariant r.Msg? && all == DecodeLoop(d, r, seen, s.Rest())
      invariant Follows(d, m, {}, old(s.Rest()), r, seen, s.Rest())
      decreases s.bytesLeft
    {
      var eof;
      ok, eof, r, seen := DecodeNextFrom(s, d, iter, fieldsSeen, r, seen);
      if !ok || eof {
        return;
      }
    }
    ok := true;
  }

  // One round of it.
  method DecodeNextFrom(s: IStream, d: Descriptor, iter: FieldIter, fieldsSeen: array<nat>, m: Value,
                        ghost seen: set<nat>)
    returns (ok: bool, eof: bool, r: Value, ghost seen': set<nat>)
    requires s.Valid() && s.bytesLeft > 0 && WellFormed(d) && m.Msg? && iter.Valid() && iter.fields == d.fields
    requires fieldsSeen.Length == 2 && Bits(d.fields, seen, fieldsSeen[0], fieldsSeen[1])
    modifies s, iter, fieldsSeen
    ensures s.Valid() && s.pos + s.bytesLeft <= old(s.pos + s.bytesLeft) && iter.Valid()
    ensures !ok || eof ==> LoopLeaves(d, m, seen, old(s.Rest()), r)
    ensures ok && !eof ==> r.Msg? && Follows(d, m, seen, old(s.Rest()), r, seen', s.Rest())
    ensures !ok ==> DecodeLoop(d, m, seen, old(s.Rest())).Stopped?
    ensures ok ==>
              Bits(d.fields, seen', fieldsSeen[0], fieldsSeen[1])
              && s.pos + s.bytesLeft == old(s.pos + s.bytesLeft)
    ensures ok && eof ==> DecodeLoop(d, m, seen, old(s.Rest())) == At(r, seen', s.Rest())
    ensures ok && !eof ==> DecodeLoop(d, m, seen, old(s.Rest())) == DecodeLoop(d, r, seen', s.Rest())
    ensures ok && !eof ==> s.bytesLeft < old(s.bytesLeft)
    decreases s.bytesLeft, 5, 2
  {
    r, seen' := m, seen;
    var wireType, tag;
    ok, wireType, tag, eof := DecodeTagFrom(s);
    if !ok {
      return eof, eof, r, seen;
    }
    ok, r, seen' := DecodeRound(s, d, iter, fieldsSeen, r, seen, wireType, tag);
    eof := false;
  }

  // pb_decode_noinit
  method DecodeNoInitFrom(s: IStream, d: Descriptor, m: Value) returns (ok: bool, r: Value)
    requires s.Valid() && WellFormed(d) && m.Msg?
    modifies s
    ensures Took(s, old(s.pos + s.bytesLeft), ok, DecodeNoInit(d, m, old(s.Rest())))
    ensures ok ==> r == DecodeNoInit(d, m, old(s.Rest())).value
    // whatever the bytes are, and whether or not they decode
    ensures LoopLeaves(d, m, {}, old(s.Rest()), r)
    decreases s.bytesLeft, 6
  {
    TagsAreNonzero(d);
    var fieldsSeen := new nat[2](_ => 0);
    var iter := new FieldIter(d.fields);
    NoBits(d.fields);
    ghost var seen;
    ok, r, seen := DecodeFieldsFrom(s, d, iter, fieldsSeen, m);
    if ok {
      ok := RequiredCheck(d, iter, fieldsSeen, seen);
    }
  }

  // pb_message_set_to_defaults
  method SetToDefaults(d: Descriptor) returns (v: Value)
    ensures v == Defaults(d)
  {
    v := Msg(seq(d.slotCount, i => EmptyUnion()));
    var n := 0;
    assert v == DefaultsUpTo(d, 0);
    while n < |d.fields|
      invariant n <= |d.fields| && v == DefaultsUpTo(d, n)
    {
      v := SetSlot(v, d.fields[n].slot, DefaultSlot(d.fields[n]));
      n := n + 1;
    }
  }

  // pb_decode
  method DecodeFrom(s: IStream, d: Descriptor) returns (ok: bool, r: Value)
    requires s.Valid() && WellFormed(d)
    modifies s
    ensures Took(s, old(s.pos + s.bytesLeft), ok, Decode(d, old(s.Rest())))
    ensures ok ==> r == Decode(d, old(s.Rest())).value
    ensures LoopLeaves(d, Defaults(d), {}, old(s.Rest()), r) && Contained(d, r)
    ensures ok || Sheltered(d) || !Exposed(d, Defaults(d), {}, old(s.Rest())) ==> Fits(d, r, false)
  {
    ghost var b := s.Rest();
    var m := SetToDefaults(d);
    ok, r := DecodeNoInitFrom(s, d, m);
    DefaultsFit(d);
    FitsLoosely(d, m);
    LeftInBounds(d, m, b, r);
  }

  // pb_decode_delimited: on success the stream is just behind the message's bytes. A length that
  // cannot be read leaves the struct as it was.
  method DecodeDelimitedFrom(s: IStream, d: Descriptor, dest: Value) returns (ok: bool, r: Value)
    requires s.Valid() && WellFormed(d)
    modifies s
    ensures Took(s, old(s.pos + s.bytesLeft), ok, DecodeDelimited(d, old(s.Rest())))
    ensures ok ==> r == DecodeDelimited(d, old(s.Rest())).value
    ensures ok || Sheltered(d) ==> r == dest || Fits(d, r, false)
    ensures r == dest || Contained(d, r)
  {
    r := dest;
    ghost var b, end := s.Rest(), s.pos + s.bytesLeft;
    var sub;
    ok, sub := MakeSubstream(s);
    if !ok {
      return;
    }
    ok, r := DecodeFromWithin(s, sub, d, end, TakePrefixed(b).rest);
  }

  method DecodeFromWithin(s: IStream, sub: IStream, d: Descriptor, ghost end: nat, ghost rest: seq<Byte>)
    returns (ok: bool, r: Value)
    requires IsSub(sub, s, end, rest) && sub.pos + sub.bytesLeft + s.bytesLeft == end && s.pos <= sub.pos
    requires WellFormed(d)
    modifies s`pos, sub
    ensures s.Valid() && s.pos + s.bytesLeft <= end
    ensures ok <==> Decode(d, old(sub.Rest())).Parsed?
    ensures ok ==> r == Decode(d, old(sub.Rest())).value
    ensures ok ==> s.Rest() == rest && s.pos + s.bytesLeft == end
    ensures LoopLeaves(d, Defaults(d), {}, old(sub.Rest()), r) && Contained(d, r)
    ensures ok || Sheltered(d) || !Exposed(d, Defaults(d), {}, old(sub.Rest())) ==> Fits(d, r, false)
  {
    ghost var b := sub.Rest();
    var m := SetToDefaults(d);
    ok, r := DecodeWithin(s, sub, d, m, end, rest);
    DefaultsFit(d);
    FitsLoosely(d, m);
    LeftInBounds(d, m, b, r);
  }
}
