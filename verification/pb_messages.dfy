// Message descriptors and the values they describe: the pb_field_t arrays, with a message's
// struct as a row of slots. The members of a oneof share a slot.

module PbMessages {
  import opened Wire
  import opened Words
  import opened PbVarint

  // sizeof(pb_size_t): 1, or as the build asks 2 or 4. Which it is stays open here.
  type SizeBytes = n: nat | n == 1 || n == 2 || n == 4 witness 1
  const SIZE_BYTES: SizeBytes

  const PB_SIZE_MAX: nat := if SIZE_BYTES == 1 then 0xff else if SIZE_BYTES == 2 then 0xffff else 0xffff_ffff
  // offsetof(pb_bytes_array_t, bytes)
  const BYTES_OFFSET: nat := SIZE_BYTES
  const PB_MAX_REQUIRED_FIELDS := 64
  // The largest tag is one less (Protocol Buffers Language Guide, Assigning Field Numbers).
  const FIELD_NUMBER_LIMIT := 0x2000_0000

  datatype LType = Varint | Uvarint | Svarint | Fixed32 | Fixed64 | Bytes | Str | Submessage | FixedLengthBytes {
    predicate Packable() {
      Varint? || Uvarint? || Svarint? || Fixed32? || Fixed64?
    }

    // pb_encode_tag_for_field
    function WireType(): nat {
      if Varint? || Uvarint? || Svarint? then WT_VARINT
      else if Fixed32? then WT_32BIT
      else if Fixed64? then WT_64BIT
      else WT_STRING
    }
  }

  const WT_VARINT := 0
  const WT_64BIT := 1
  const WT_STRING := 2
  const WT_32BIT := 5

  // Singular is the optional field of proto3, which has no has_ field.
  datatype HType = Required | Optional | Singular | Repeated | Oneof

  // pb_size_t
  type PbSize = n: nat | n <= PB_SIZE_MAX

  datatype Field = Field(tag: PbSize, ltype: LType, htype: HType, dataSize: PbSize, arraySize: PbSize, slot: nat,
                         dataOffset: PbSize, sizeOffset: int, sub: Descriptor, initial: Option<Value>)

  datatype Descriptor = Descriptor(fields: seq<Field>, slotCount: nat)

  // A string is what stands before its terminator, or the whole array when there is none.
  datatype Value = Int(n: int) | Raw(bytes: seq<Byte>) | Msg(slots: seq<Slot>)

  // A required or singular field; has_ and the field; the count and the entries it counts; which_ and the union.
  datatype Slot =
    | One(value: Value)
    | Opt(has: bool, value: Value)
    | Many(items: seq<Value>)
    | Union(which: nat, value: Value)

  // The number of values of an integer field, or 0 for a size the coders refuse.
  function IntLimit(dataSize: nat): nat {
    if dataSize == 1 then 0x100 else if dataSize == 2 then 0x1_0000
    else if dataSize == 4 then TWO32 else if dataSize == 8 then TWO64 else 0
  }

  function StrLen(b: seq<Byte>): (n: nat)
    ensures n <= |b|
    ensures n < |b| ==> b[n] == 0
    ensures forall i :: 0 <= i < n ==> b[i] != 0
  {
    if b == [] || b[0] == 0 then 0
    else
      var n := StrLen(b[1..]);
      assert forall i :: 0 < i <= n ==> b[i] == b[1..][i - 1];
      1 + n
  }

  // What the C types and array sizes allow; strict also has every string end in its array,
  // before any other zero byte.
  predicate Fits(d: Descriptor, v: Value, strict: bool)
    decreases v, 1
  {
    && v.Msg? && |v.slots| == d.slotCount
    && forall i :: 0 <= i < |d.fields| ==> FitsAt(d, i, v, strict)
  }

  predicate FitsAt(d: Descriptor, i: nat, v: Value, strict: bool)
    requires i < |d.fields|
    decreases v, 0
  {
    && v.Msg? && d.fields[i].slot < |v.slots|
    && FitsSlot(d.fields[i], v.slots[d.fields[i].slot], strict)
  }

  predicate FitsSlot(f: Field, s: Slot, strict: bool)
    decreases s, 2
  {
    match f.htype
    case Required => s.One? && FitsValue(f, s.value, strict)
    case Optional => s.Opt? && FitsValue(f, s.value, strict)
    case Singular => s.One? && FitsValue(f, s.value, strict)
    case Repeated =>
      s.Many? && |s.items| <= f.arraySize && forall k :: 0 <= k < |s.items| ==> FitsValue(f, s.items[k], strict)
    case Oneof => s.Union? && (s.which == f.tag ==> FitsValue(f, s.value, strict))
  }

  predicate FitsValue(f: Field, v: Value, strict: bool)
    decreases v, 2
  {
    match f.ltype
    case Varint => v.Int? && FitsSigned(v.n, IntLimit(f.dataSize))
    case Uvarint => v.Int? && 0 <= v.n < IntLimit(f.dataSize)
    case Svarint => v.Int? && FitsSigned(v.n, IntLimit(f.dataSize))
    case Fixed32 => v.Int? && 0 <= v.n < TWO32
    case Fixed64 => v.Int? && 0 <= v.n < TWO64
    case Bytes => v.Raw? && |v.bytes| + BYTES_OFFSET <= f.dataSize
    case Str => v.Raw? && |v.bytes| <= f.dataSize && (strict ==> |v.bytes| < f.dataSize && StrLen(v.bytes) == |v.bytes|)
    case Submessage => Fits(f.sub, v, strict)
    case FixedLengthBytes => v.Raw? && |v.bytes| == f.dataSize
  }

  // pb_field_set_to_default: the descriptor's value, or zeros.
  function DefaultValue(f: Field): Value
    decreases f, 0
  {
    if f.ltype.Submessage? then Defaults(f.sub)
    else if f.initial.Some? then f.initial.value
    else if f.ltype.Bytes? || f.ltype.Str? then Raw([])
    else if f.ltype.FixedLengthBytes? then Raw(Zeros(f.dataSize))
    else Int(0)
  }

  // What the generator makes of a singular field, other than a submessage: no default value, and a
  // size that is the type's.
  predicate SingularOk(f: Field) {
    && !f.ltype.Submessage? && f.initial.None?
    && (f.ltype.Fixed32? ==> f.dataSize == 4) && (f.ltype.Fixed64? ==> f.dataSize == 8)
  }

  // pb_check_proto3_default_value, but for submessages: integers are compared with zero byte by byte.
  predicate IsDefault(f: Field, v: Value) {
    match f.ltype
    case Bytes => v.Raw? && v.bytes == []
    case Str => v.Raw? && StrLen(v.bytes) == 0
    case FixedLengthBytes => f.dataSize == 0
    case Submessage => false
    case _ => v.Int? && v.n % Pow2(8 * f.dataSize) == 0
  }

  lemma ZeroRemainder(n: int, p: nat)
    requires n < p && 0 < n + p
    ensures n % p == 0 <==> n == 0
  {
    if n < 0 {
      RemainderIsUnique(n, p, -1, n + p);
    }
  }

  lemma {:induction false} LimitIsPower(dataSize: nat)
    ensures IntLimit(dataSize) == 0 || IntLimit(dataSize) == Pow2(8 * dataSize)
  {
    Powers();
    BytePowers();
  }

  lemma {:induction false} IntegerFillsBytes(f: Field, n: int)
    requires SingularOk(f) && FitsValue(f, Int(n), true)
    ensures n < Pow2(8 * f.dataSize) && 0 < n + Pow2(8 * f.dataSize)
  {
    LimitIsPower(f.dataSize);
  }

  // A singular field that counts as unset has its default value.
  lemma {:induction false} UnsetIsDefault(f: Field, v: Value)
    requires SingularOk(f) && FitsValue(f, v, true)
    ensures IsDefault(f, v) <==> v == DefaultValue(f) && (f.ltype.FixedLengthBytes? ==> f.dataSize == 0)
  {
    if v.Int? {
      IntegerFillsBytes(f, v.n);
      ZeroRemainder(v.n, Pow2(8 * f.dataSize));
    }
  }

  lemma DefaultIsUnset(f: Field, v: Value)
    requires SingularOk(f) && IsDefault(f, v)
    ensures IsDefault(f, DefaultValue(f))
  {
  }

  // Nothing is known of an array's entries or a union's contents.
  function DefaultSlot(f: Field): Slot
    decreases f, 1
  {
    match f.htype
    case Required => One(DefaultValue(f))
    case Optional => Opt(false, DefaultValue(f))
    case Singular => One(DefaultValue(f))
    case Repeated => Many([])
    case Oneof => EmptyUnion()
  }

  function EmptyUnion(): Slot {
    Union(0, Int(0))
  }

  // pb_message_set_to_defaults
  function Defaults(d: Descriptor): (v: Value)
    ensures v.Msg? && |v.slots| == d.slotCount
    decreases d, |d.fields| + 1
  {
    DefaultsUpTo(d, |d.fields|)
  }

  function DefaultsUpTo(d: Descriptor, n: nat): (v: Value)
    requires n <= |d.fields|
    ensures v.Msg? && |v.slots| == d.slotCount
    decreases d, n
  {
    if n == 0 then Msg(seq(d.slotCount, i => EmptyUnion()))
    else SetSlot(DefaultsUpTo(d, n - 1), d.fields[n - 1].slot, DefaultSlot(d.fields[n - 1]))
  }

  function SetSlot(v: Value, k: nat, s: Slot): (w: Value)
    requires v.Msg?
    ensures w.Msg? && |w.slots| == |v.slots|
  {
    if k < |v.slots| then Msg(v.slots[k := s]) else v
  }

  // What the generator sees to, and what the coders need of it.
  ghost predicate WellFormed(d: Descriptor)
    decreases d
  {
    && (forall i :: 0 <= i < |d.fields| ==> FieldOk(d, i))
    && (forall i, j :: 0 <= i < j < |d.fields| ==> Apart(d.fields[i], d.fields[j]))
    && (forall k :: 0 <= k < d.slotCount ==> Owned(d, k))
    && RequiredCountOk(RequiredBefore(d.fields, |d.fields|))
  }

  ghost predicate FieldOk(d: Descriptor, i: nat)
    requires i < |d.fields|
    decreases d, 0
  {
    var f := d.fields[i];
    && f.slot < d.slotCount && 0 < f.tag < FIELD_NUMBER_LIMIT
    && (f.htype.Singular? ==> SingularOk(f))
    && (if f.ltype.Submessage? then WellFormed(f.sub) else FitsValue(f, DefaultValue(f), true))
  }

  ghost predicate Apart(f: Field, g: Field) {
    && f.tag != g.tag
    && (f.slot == g.slot ==> f.htype.Oneof? && g.htype.Oneof?)
  }

  ghost predicate Owned(d: Descriptor, k: nat) {
    exists i :: 0 <= i < |d.fields| && d.fields[i].slot == k
  }

  // The source's 64-bit set of required fields has room, and no shift by a whole word.
  predicate RequiredCountOk(n: nat) {
    n < PB_MAX_REQUIRED_FIELDS && (n % 32 == 0 ==> n == 0)
  }

  function RequiredBefore(fields: seq<Field>, i: nat): (n: nat)
    requires i <= |fields|
    ensures n <= i
  {
    if i == 0 then 0 else RequiredBefore(fields, i - 1) + if fields[i - 1].htype.Required? then 1 else 0
  }

  lemma {:induction false} DefaultsAt(d: Descriptor, n: nat, i: nat)
    requires WellFormed(d) && i < n <= |d.fields|
    ensures d.fields[i].slot < d.slotCount
    ensures DefaultsUpTo(d, n).slots[d.fields[i].slot] == DefaultSlot(d.fields[i])
  {
    assert FieldOk(d, i) && FieldOk(d, n - 1);
    if i < n - 1 {
      DefaultsAt(d, n - 1, i);
      assert Apart(d.fields[i], d.fields[n - 1]);
    }
  }

  lemma {:induction false} DefaultsFit(d: Descriptor)
    requires WellFormed(d)
    ensures Fits(d, Defaults(d), true)
  {
    forall i | 0 <= i < |d.fields|
      ensures FitsAt(d, i, Defaults(d), true)
    {
      assert FieldOk(d, i);
      DefaultsAt(d, |d.fields|, i);
      DefaultFits(d.fields[i]);
      var s := DefaultSlot(d.fields[i]);
      assert FitsSlot(d.fields[i], s, true);
    }
  }

  lemma {:induction false} DefaultFits(f: Field)
    requires if f.ltype.Submessage? then WellFormed(f.sub) else FitsValue(f, DefaultValue(f), true)
    ensures FitsValue(f, DefaultValue(f), true)
  {
    if f.ltype.Submessage? {
      DefaultsFit(f.sub);
    }
  }
}
