// What pb_decode leaves in the struct, whether or not it succeeds. A field that fails has been
// written as far as its decoder got; where that is not at all, what was in the memory stays.

module PbLeft {
  import opened Wire
  import opened PbVarint
  import opened PbMessages
  import opened PbDecoding
  import opened PbBounds

  // What memory that nobody wrote can hold: any number of the field's type, but also any size of a
  // byte array and any count.
  predicate Holds(f: Field, v: Value)
    decreases v, 2
  {
    match f.ltype
    case Bytes => v.Raw? && |v.bytes| <= PB_SIZE_MAX
    case Submessage => HoldsMessage(f.sub, v)
    case Fixed32 => FitsValue(f, v, false)
    case Fixed64 => FitsValue(f, v, false)
    case Str => FitsValue(f, v, false)
    case FixedLengthBytes => FitsValue(f, v, false)
    case _ => v.Int? && (IntLimit(f.dataSize) > 0 ==> FitsValue(f, v, false))
  }

  predicate HoldsMessage(d: Descriptor, v: Value)
    decreases v, 1
  {
    && v.Msg? && |v.slots| == d.slotCount
    && forall i :: 0 <= i < |d.fields| && d.fields[i].slot < |v.slots| ==>
         HoldsSlot(d.fields[i], v.slots[d.fields[i].slot])
  }

  predicate HoldsSlot(f: Field, s: Slot)
    decreases s, 2
  {
    match f.htype
    case Required => s.One? && Holds(f, s.value)
    case Optional => s.Opt? && Holds(f, s.value)
    case Singular => s.One? && Holds(f, s.value)
    case Repeated => s.Many? && |s.items| <= PB_SIZE_MAX && forall k :: 0 <= k < |s.items| ==> Holds(f, s.items[k])
    case Oneof => s.Union? && (s.which == f.tag ==> Holds(f, s.value))
  }

  // The cast of the integer decoders, which is stored before it is compared.
  function Cast(f: Field, n: nat): int
    requires n < TWO64 && IntLimit(f.dataSize) > 0
  {
    var limit := IntLimit(f.dataSize);
    if f.ltype.Uvarint? then n % limit
    else if f.ltype.Svarint? then Signed(UnZigZag(n) % TWO64, limit)
    else if f.dataSize == 8 then Signed(Signed(n, TWO64) % TWO64, limit)
    else Signed(Signed(n, TWO32) % TWO64, limit)
  }

  ghost predicate IntegerLeaves(f: Field, dest: Value, b: seq<Byte>, v: Value) {
    var n := DecodeVarint(b);
    v == if n.Failed? || IntLimit(f.dataSize) == 0 then dest else Int(Cast(f, n.value))
  }

  ghost predicate FixedLeaves(w: nat, dest: Value, b: seq<Byte>, v: Value)
    requires w > 0
  {
    var p := DecodeFixed(w, b);
    v == if p.Failed? then dest else p.value
  }

  predicate StartAlike(a: seq<Byte>, b: seq<Byte>) {
    forall i :: 0 <= i < |a| && i < |b| ==> a[i] == b[i]
  }

  // A length that is not refused, and not enough bytes: the new size of a byte array stands before
  // what the array held, and a string ends where it would have.
  ghost predicate CutLeaves(f: Field, dest: Value, n: nat, v: Value) {
    if f.ltype.Bytes? then
      && v.Raw? && |v.bytes| == n
      && (dest.Raw? ==> StartAlike(v.bytes, dest.bytes))
    else if f.ltype.Str? && dest.Raw? && n < |dest.bytes| then v == Raw(dest.bytes[n := 0])
    else v == dest
  }

  ghost predicate RawLeaves(f: Field, dest: Value, b: seq<Byte>, v: Value)
    requires f.ltype.Bytes? || f.ltype.Str? || f.ltype.FixedLengthBytes?
  {
    var n, p := DecodeVarint32(b), DecodeRaw(f, b);
    if p.Parsed? then v == p.value
    else if n.Failed? || !LengthOk(f, n.value) then v == dest
    else CutLeaves(f, dest, n.value, v)
  }

  // Where a submessage is decoded into: an entry of an array is set to defaults first, once its
  // length is known.
  function Start(f: Field, dest: Value): Value {
    if f.ltype.Submessage? && f.htype.Repeated? then Defaults(f.sub) else dest
  }

  // The field decoders, with dest at the destination.
  ghost predicate ValueLeaves(f: Field, dest: Value, b: seq<Byte>, v: Value)
    decreases |b|, 1, 0
  {
    match f.ltype
    case Varint => IntegerLeaves(f, dest, b, v)
    case Uvarint => IntegerLeaves(f, dest, b, v)
    case Svarint => IntegerLeaves(f, dest, b, v)
    case Fixed32 => FixedLeaves(4, dest, b, v)
    case Fixed64 => FixedLeaves(8, dest, b, v)
    case Bytes => RawLeaves(f, dest, b, v)
    case Str => RawLeaves(f, dest, b, v)
    case FixedLengthBytes => RawLeaves(f, dest, b, v)
    case Submessage =>
      var t := TakePrefixed(b);
      if t.Failed? || !Start(f, dest).Msg? then v == dest
      else LoopLeaves(f.sub, Start(f, dest), {}, t.value, v)
  }

  // The same in memory of which nothing is known.
  ghost predicate HeldLeaves(f: Field, b: seq<Byte>, v: Value)
    decreases |b|, 2, 0
  {
    exists held: Value :: Holds(f, held) && ValueLeaves(f, held, b, v)
  }

  // The entries of a packed array that were decoded.
  function PackedLeft(f: Field, items: seq<Value>, b: seq<Byte>): (r: seq<Value>)
    ensures items <= r
    decreases |b|
  {
    if b == [] || |items| >= f.arraySize then items
    else
      var v := DecodeValue(f, DefaultValue(f), b);
      if v.Failed? then items else PackedLeft(f, items + [v.value], v.rest)
  }

  // A member of a oneof that is not the one set before, and not a submessage, which would be reset.
  predicate Unset(f: Field, s: Slot) {
    f.htype.Oneof? && !f.ltype.Submessage? && !(s.Union? && s.which == f.tag)
  }

  function Place(f: Field, s: Slot): Value
    requires !s.Many?
  {
    if f.htype.Oneof? && f.ltype.Submessage? then Defaults(f.sub) else s.value
  }

  // decode_static_field: the count, the has-flag or the tag of the oneof is written first.
  ghost predicate FieldLeaves(f: Field, s: Slot, wireType: nat, b: seq<Byte>, t: Slot)
    decreases |b|, 3, 0
  {
    if f.htype.Repeated? && s.Many? then
      if wireType == WT_STRING && f.ltype.Packable() then
        var p := TakePrefixed(b);
        t == if p.Failed? then s else Many(PackedLeft(f, s.items, p.value))
      else if |s.items| >= f.arraySize then t == s
      else
        && t.Many? && |t.items| == |s.items| + 1 && t.items[..|s.items|] == s.items
        && HeldLeaves(f, b, t.items[|s.items|])
    else if !f.htype.Repeated? && !s.Many? then
      && !t.Many? && t == Stored(f, t.value)
      && if Unset(f, s) then HeldLeaves(f, b, t.value) else ValueLeaves(f, Place(f, s), b, t.value)
    else t == s
  }

  // One round of the loop that stops it.
  ghost predicate StepLeaves(d: Descriptor, m: Value, t: TagRead, r: Value)
    requires t.Tag? && m.Msg?
    decreases |t.rest|, 4, 0
  {
    var i := Find(d.fields, t.tag, 0);
    if i == |d.fields| || d.fields[i].slot >= |m.slots| then r == m
    else
      var k := d.fields[i].slot;
      && r.Msg? && |r.slots| == |m.slots| && r == Msg(m.slots[k := r.slots[k]])
      && FieldLeaves(d.fields[i], m.slots[k], t.wireType, t.rest, r.slots[k])
  }

  // pb_decode_noinit, from m on.
  ghost predicate LoopLeaves(d: Descriptor, m: Value, seen: set<nat>, b: seq<Byte>, r: Value)
    requires m.Msg?
    decreases |b|, 5, 0
  {
    if b == [] then r == m
    else
      var t := DecodeTag(b);
      if !t.Tag? then r == m
      else
        var s := DecodeStep(d, m, seen, t);
        if s.At? then LoopLeaves(d, s.msg, s.seen, s.rest, r) else StepLeaves(d, m, t, r)
  }

  // What decodes is what is left.
  lemma {:induction false} DecodedIsLeft(d: Descriptor, m: Value, seen: set<nat>, b: seq<Byte>, r: Value)
    requires m.Msg? && DecodeLoop(d, m, seen, b).At?
    ensures LoopLeaves(d, m, seen, b, r) <==> r == DecodeLoop(d, m, seen, b).msg
    decreases |b|
  {
    if b != [] && DecodeTag(b).Tag? {
      var s := DecodeStep(d, m, seen, DecodeTag(b));
      DecodedIsLeft(d, s.msg, s.seen, s.rest, r);
    }
  }

  // Whatever is left of a decoding from m' on is left of the one from m.
  ghost predicate Follows(d: Descriptor, m: Value, seen: set<nat>, b: seq<Byte>, m': Value, seen': set<nat>,
                          b': seq<Byte>)
    requires m.Msg? && m'.Msg?
  {
    forall r: Value :: LoopLeaves(d, m', seen', b', r) ==> LoopLeaves(d, m, seen, b, r)
  }

  lemma {:induction false} PlaceIsIgnored(f: Field, x: Value, y: Value, b: seq<Byte>)
    requires !f.ltype.Submessage?
    ensures DecodeValue(f, x, b) == DecodeValue(f, y, b)
  {
  }

  // Memory, for one.
  function Blank(f: Field): Value {
    if f.ltype.Submessage? then Defaults(f.sub)
    else if f.ltype.Bytes? || f.ltype.Str? then Raw([])
    else if f.ltype.FixedLengthBytes? then Raw(Zeros(f.dataSize))
    else Int(0)
  }

  lemma {:induction false} BlankIsHeld(f: Field)
    requires f.ltype.Submessage? ==> WellFormed(f.sub)
    ensures Holds(f, Blank(f))
  {
    if f.ltype.Submessage? {
      DefaultsFit(f.sub);
      FitsLoosely(f.sub, Defaults(f.sub));
      FittingIsHeld(f.sub, Defaults(f.sub));
    }
  }

  lemma {:induction false} FittingIsHeld(d: Descriptor, v: Value)
    requires Fits(d, v, false)
    ensures HoldsMessage(d, v)
    decreases v, 1
  {
    forall i | 0 <= i < |d.fields| && d.fields[i].slot < |v.slots|
      ensures HoldsSlot(d.fields[i], v.slots[d.fields[i].slot])
    {
      assert FitsAt(d, i, v, false);
      FittingSlotIsHeld(d.fields[i], v.slots[d.fields[i].slot]);
    }
  }

  lemma {:induction false} FittingSlotIsHeld(f: Field, s: Slot)
    requires FitsSlot(f, s, false)
    ensures HoldsSlot(f, s)
    decreases s, 2
  {
    if s.Many? {
      forall k | 0 <= k < |s.items|
        ensures Holds(f, s.items[k])
      {
        FittingValueIsHeld(f, s.items[k]);
      }
    } else if !f.htype.Oneof? || s.which == f.tag {
      FittingValueIsHeld(f, s.value);
    }
  }

  lemma {:induction false} FittingValueIsHeld(f: Field, v: Value)
    requires FitsValue(f, v, false)
    ensures Holds(f, v)
    decreases v, 2
  {
    if f.ltype.Submessage? {
      FittingIsHeld(f.sub, v);
    }
  }
}
