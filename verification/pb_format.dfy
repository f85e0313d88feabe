// The Protocol Buffers wire format as any parser sees it: a message is a sequence of records,
// a record a tag and a payload. What pb_encode writes is such a sequence, with the format's
// numbers and the right values in it.

module PbFormat {
  import opened Wire
  import opened Words
  import opened PbVarint
  import opened PbMessages
  import opened PbEncoding

  // What a record carries. A message or a packed array is a length and that many bytes.
  datatype Payload =
    | VarintP(n: nat)
    | I64P(n: nat)
    | LenP(bytes: seq<Byte>)
    | MessageP(records: seq<Rec>)
    | PackedP(items: seq<Payload>)
    | I32P(n: nat)
  {
    // The wire types VARINT, I64, LEN and I32.
    function WireNumber(): nat {
      match this
      case VarintP(_) => 0
      case I64P(_) => 1
      case I32P(_) => 5
      case _ => 2
    }
  }

  datatype Rec = Rec(number: nat, payload: Payload)

  // Seven bits a byte, least significant first, the high bit set on all but the last. A short one
  // has no more bytes than it takes; parsers go on over zeros at its end, up to a number of bytes.
  predicate IsVarint(b: seq<Byte>, n: nat, short: bool) {
    if b == [] then false
    else if |b| == 1 then b[0] < 128 && n == b[0]
    else b[0] >= 128 && (short ==> n >= 128) && n % 128 == b[0] - 128 && IsVarint(b[1..], n / 128, short)
  }

  // Byte i holds the bits from 8i on.
  ghost predicate IsLittleEndian(b: seq<Byte>, n: nat) {
    forall i :: 0 <= i < |b| ==> b[i] == n / Pow2(8 * i) % 256
  }

  ghost predicate IsLen(b: seq<Byte>, body: seq<Byte>, short: bool) {
    exists t :: IsVarint(t, |body|, short) && (short || |t| <= 5) && b == t + body
  }

  ghost predicate IsPayload(b: seq<Byte>, p: Payload, short: bool)
    decreases p
  {
    match p
    case VarintP(n) => n < 0x1_0000_0000_0000_0000 && IsVarint(b, n, short) && (short || |b| <= 10)
    case I64P(n) => |b| == 8 && IsLittleEndian(b, n)
    case LenP(bytes) => IsLen(b, bytes, short)
    case MessageP(records) => exists e :: IsLen(b, e, short) && IsRecords(e, records, short)
    case PackedP(items) => exists e :: IsLen(b, e, short) && ArePayloads(e, items, short)
    case I32P(n) => |b| == 4 && IsLittleEndian(b, n)
  }

  predicate IsTag(t: seq<Byte>, number: nat, wireType: nat, short: bool) {
    IsVarint(t, 8 * number + wireType, short) && (short || |t| <= 5)
  }

  ghost predicate IsRecord(b: seq<Byte>, r: Rec, short: bool)
    decreases r
  {
    exists t, x :: IsTag(t, r.number, r.payload.WireNumber(), short) && IsPayload(x, r.payload, short) && b == t + x
  }

  ghost predicate IsRecords(b: seq<Byte>, records: seq<Rec>, short: bool)
    decreases records
  {
    if records == [] then b == []
    else exists x, y :: IsRecord(x, records[0], short) && IsRecords(y, records[1..], short) && b == x + y
  }

  ghost predicate ArePayloads(b: seq<Byte>, items: seq<Payload>, short: bool)
    decreases items
  {
    if items == [] then b == []
    else exists x, y :: IsPayload(x, items[0], short) && ArePayloads(y, items[1..], short) && b == x + y
  }

  // The records the format has for a value. Integers are varints in two's complement, the
  // sint types alternating between positive and negative; fixed32 and fixed64 have 4 and 8 bytes.
  function PayloadOf(f: Field, v: Value): Payload
    requires FitsValue(f, v, false)
    decreases v, 3, 0
  {
    match f.ltype
    case Varint => VarintP(if v.n < 0 then v.n + 0x1_0000_0000_0000_0000 else v.n)
    case Uvarint => VarintP(v.n)
    case Svarint => VarintP(if v.n < 0 then -2 * v.n - 1 else 2 * v.n)
    case Fixed32 => I32P(v.n)
    case Fixed64 => I64P(v.n)
    case Bytes => LenP(v.bytes)
    case Str => LenP(v.bytes[..StrLen(v.bytes)])
    case Submessage => MessageP(RecordsFrom(f.sub, v, 0))
    case FixedLengthBytes => LenP(v.bytes)
  }

  function PayloadsFrom(f: Field, s: Slot, k: nat): seq<Payload>
    requires s.Many? && k <= |s.items| && forall j :: 0 <= j < |s.items| ==> FitsValue(f, s.items[j], false)
    decreases s, 1, |s.items| - k
  {
    if k == |s.items| then [] else [PayloadOf(f, s.items[k])] + PayloadsFrom(f, s, k + 1)
  }

  function EachFrom(f: Field, s: Slot, k: nat): seq<Rec>
    requires s.Many? && k <= |s.items| && forall j :: 0 <= j < |s.items| ==> FitsValue(f, s.items[j], false)
    decreases s, 1, |s.items| - k
  {
    if k == |s.items| then [] else [Rec(f.tag, PayloadOf(f, s.items[k]))] + EachFrom(f, s, k + 1)
  }

  // Arrays of numbers are packed into one record; unset fields have none.
  function FieldRecords(f: Field, s: Slot): seq<Rec>
    requires FitsSlot(f, s, false)
    decreases s, 5, 0
  {
    match f.htype
    case Required => [Rec(f.tag, PayloadOf(f, s.value))]
    case Optional => if s.has then [Rec(f.tag, PayloadOf(f, s.value))] else []
    case Singular => if IsDefault(f, s.value) then [] else [Rec(f.tag, PayloadOf(f, s.value))]
    case Repeated =>
      if s.items == [] then []
      else if f.ltype.Bytes? || f.ltype.Str? || f.ltype.Submessage? || f.ltype.FixedLengthBytes? then EachFrom(f, s, 0)
      else [Rec(f.tag, PackedP(PayloadsFrom(f, s, 0)))]
    case Oneof => if s.which == f.tag then [Rec(f.tag, PayloadOf(f, s.value))] else []
  }

  // The fields from the ith on, in the descriptor's order.
  function RecordsFrom(d: Descriptor, v: Value, i: nat): seq<Rec>
    requires i <= |d.fields| && Fits(d, v, false)
    decreases v, 1, |d.fields| - i
  {
    if i == |d.fields| then []
    else
      assert FitsAt(d, i, v, false);
      FieldRecords(d.fields[i], v.slots[d.fields[i].slot]) + RecordsFrom(d, v, i + 1)
  }

  lemma {:induction false} EncodedIsVarint(n: nat)
    ensures IsVarint(EncodeVarint(n), n, true)
  {
    if n >= 0x80 {
      EncodedIsVarint(n / 0x80);
      assert EncodeVarint(n)[1..] == EncodeVarint(n / 0x80);
    }
  }

  lemma {:induction false} VarintIsEncoded(b: seq<Byte>, n: nat)
    requires IsVarint(b, n, true)
    ensures b == EncodeVarint(n)
  {
    if |b| > 1 {
      VarintIsEncoded(b[1..], n / 128);
      assert b == [b[0]] + b[1..];
    }
  }

  lemma {:induction false} DivideTwice(n: nat, a: nat, b: nat)
    requires a > 0 && b > 0
    ensures a * b > 0 && (n / a) / b == n / (a * b)
  {
    var q := n / a;
    assert n == a * (b * (q / b) + q % b) + n % a;
    assert a * (b * (q / b)) == (a * b) * (q / b);
    assert a * (q % b) <= a * (b - 1);
    RemainderIsUnique(n, a * b, q / b, a * (q % b) + n % a);
  }

  lemma {:induction false} EncodedIsLittleEndian(n: nat, w: nat, i: nat)
    requires i < w
    ensures LittleEndian(n, w)[i] == n / Pow2(8 * i) % 256
  {
    if i > 0 {
      EncodedIsLittleEndian(n / 0x100, w - 1, i - 1);
      BytePowers();
      PowerOfSum(8 * (i - 1), 8);
      DivideTwice(n, 0x100, Pow2(8 * (i - 1)));
    }
  }

  lemma {:induction false} FixedIsLittleEndian(n: nat, w: nat)
    ensures IsLittleEndian(LittleEndian(n, w), n)
  {
    forall i | 0 <= i < w
      ensures LittleEndian(n, w)[i] == n / Pow2(8 * i) % 256
    {
      EncodedIsLittleEndian(n, w, i);
    }
  }

  lemma {:induction false} PrefixedIsLen(b: seq<Byte>)
    ensures IsLen(Prefixed(b), b, true)
  {
    EncodedIsVarint(|b|);
  }

  lemma {:induction false} RecordsJoin(a: seq<Byte>, ra: seq<Rec>, b: seq<Byte>, rb: seq<Rec>)
    requires IsRecords(a, ra, true) && IsRecords(b, rb, true)
    ensures IsRecords(a + b, ra + rb, true)
    decreases |ra|
  {
    if ra == [] {
      assert a + b == b && ra + rb == rb;
    } else {
      var x, r, y, rest := FirstRecord(a, ra);
      RecordsJoin(y, rest, b, rb);
      RecordInFront(x, r, y + b, rest + rb);
      Regrouped(x, y, b);
      Regrouped([r], rest, rb);
    }
  }

  lemma Regrouped<T>(a: seq<T>, b: seq<T>, c: seq<T>)
    ensures a + (b + c) == a + b + c
  {
  }

  lemma {:induction false} FirstRecord(a: seq<Byte>, ra: seq<Rec>)
    returns (x: seq<Byte>, r: Rec, y: seq<Byte>, rest: seq<Rec>)
    requires IsRecords(a, ra, true) && ra != []
    ensures IsRecord(x, r, true) && IsRecords(y, rest, true) && a == x + y && ra == [r] + rest
  {
    r, rest := ra[0], ra[1..];
    x, y :| IsRecord(x, r, true) && IsRecords(y, rest, true) && a == x + y;
  }

  lemma {:induction false} RecordInFront(x: seq<Byte>, r: Rec, y: seq<Byte>, rest: seq<Rec>)
    requires IsRecord(x, r, true) && IsRecords(y, rest, true)
    ensures IsRecords(x + y, [r] + rest, true)
  {
    assert ([r] + rest)[1..] == rest;
  }

  lemma {:induction false} OneRecord(b: seq<Byte>, r: Rec)
    requires IsRecord(b, r, true)
    ensures IsRecords(b, [r], true)
  {
    RecordInFront(b, r, [], []);
    assert b + [] == b && [r] + [] == [r];
  }

  // The bits of a signed number, as an unsigned one.
  lemma {:induction false} UnsignedValue(v: int)
    requires FitsSigned(v, TWO64)
    ensures Unsigned64(v) == if v < 0 then v + 0x1_0000_0000_0000_0000 else v
  {
    RemainderIsUnique(v, TWO64, if v < 0 then -1 else 0, if v < 0 then v + TWO64 else v);
  }

  lemma {:induction false} IntegerHasFormat(f: Field, v: Value)
    requires FitsValue(f, v, false) && (f.ltype.Varint? || f.ltype.Uvarint? || f.ltype.Svarint?)
    ensures EncodeValue(f, v).Some? && IsPayload(EncodeValue(f, v).value, PayloadOf(f, v), true)
  {
    if f.ltype.Varint? {
      UnsignedValue(v.n);
      EncodedIsVarint(Unsigned64(v.n));
    } else if f.ltype.Uvarint? {
      EncodedIsVarint(v.n);
    } else {
      ZigZagValue(v.n);
      EncodedIsVarint(ZigZag(v.n));
    }
  }

  lemma {:induction false} FixedHasFormat(f: Field, v: Value)
    requires FitsValue(f, v, false) && (f.ltype.Fixed32? || f.ltype.Fixed64?)
    ensures EncodeValue(f, v).Some? && IsPayload(EncodeValue(f, v).value, PayloadOf(f, v), true)
  {
    FixedIsLittleEndian(v.n, if f.ltype.Fixed32? then 4 else 8);
  }

  lemma {:induction false} BytesHaveFormat(f: Field, v: Value)
    requires FitsValue(f, v, false) && (f.ltype.Bytes? || f.ltype.Str? || f.ltype.FixedLengthBytes?)
    ensures EncodeValue(f, v).Some? && IsPayload(EncodeValue(f, v).value, PayloadOf(f, v), true)
  {
    PrefixedIsLen(if f.ltype.Str? then v.bytes[..StrLen(v.bytes)] else v.bytes);
  }

  // Every value is encoded as its payload.
  lemma {:induction false} ValueHasFormat(f: Field, v: Value)
    requires FitsValue(f, v, false)
    ensures EncodeValue(f, v).Some? && IsPayload(EncodeValue(f, v).value, PayloadOf(f, v), true)
    decreases v, 3, 0
  {
    if f.ltype.Submessage? {
      RecordsHaveFormat(f.sub, v, 0);
      var e := EncodeMessage(f.sub, v).value;
      PrefixedIsLen(e);
      assert IsPayload(Prefixed(e), MessageP(RecordsFrom(f.sub, v, 0)), true);
    } else if f.ltype.Fixed32? || f.ltype.Fixed64? {
      FixedHasFormat(f, v);
    } else if f.ltype.Packable() {
      IntegerHasFormat(f, v);
    } else {
      BytesHaveFormat(f, v);
    }
  }

  // Every field is written under its number with the wire type of its payload.
  lemma {:induction false} TaggedHasFormat(f: Field, v: Value)
    requires FitsValue(f, v, false)
    ensures EncodeTagged(f, v).Some? && IsRecord(EncodeTagged(f, v).value, Rec(f.tag, PayloadOf(f, v)), true)
    decreases v, 4, 0
  {
    ValueHasFormat(f, v);
    EncodedIsVarint(8 * f.tag + f.ltype.WireType());
  }

  lemma {:induction false} PackedHasFormat(f: Field, s: Slot, k: nat)
    requires s.Many? && k <= |s.items| && forall j :: 0 <= j < |s.items| ==> FitsValue(f, s.items[j], false)
    ensures EncodePacked(f, s, k).Some? && ArePayloads(EncodePacked(f, s, k).value, PayloadsFrom(f, s, k), true)
    decreases s, 1, |s.items| - k
  {
    if k < |s.items| {
      ValueHasFormat(f, s.items[k]);
      PackedHasFormat(f, s, k + 1);
      assert PayloadsFrom(f, s, k)[1..] == PayloadsFrom(f, s, k + 1);
    }
  }

  lemma {:induction false} EachHasFormat(f: Field, s: Slot, k: nat)
    requires s.Many? && k <= |s.items| && forall j :: 0 <= j < |s.items| ==> FitsValue(f, s.items[j], false)
    ensures EncodeEach(f, s, k).Some? && IsRecords(EncodeEach(f, s, k).value, EachFrom(f, s, k), true)
    decreases s, 1, |s.items| - k
  {
    if k < |s.items| {
      TaggedHasFormat(f, s.items[k]);
      EachHasFormat(f, s, k + 1);
      assert EachFrom(f, s, k)[1..] == EachFrom(f, s, k + 1);
    }
  }

  lemma {:induction false} PackedArrayHasFormat(f: Field, s: Slot, p: seq<Byte>)
    requires f.ltype.Packable() && s.Many? && forall j :: 0 <= j < |s.items| ==> FitsValue(f, s.items[j], false)
    requires ArePayloads(p, PayloadsFrom(f, s, 0), true)
    ensures IsRecords(EncodeTag(f.tag, WT_STRING) + Prefixed(p), [Rec(f.tag, PackedP(PayloadsFrom(f, s, 0)))], true)
  {
    PrefixedIsLen(p);
    EncodedIsVarint(8 * f.tag + WT_STRING);
    assert IsPayload(Prefixed(p), PackedP(PayloadsFrom(f, s, 0)), true);
    OneRecord(EncodeTag(f.tag, WT_STRING) + Prefixed(p), Rec(f.tag, PackedP(PayloadsFrom(f, s, 0))));
  }

  lemma {:induction false} ArrayHasFormat(f: Field, s: Slot)
    requires f.htype.Repeated? && FitsSlot(f, s, false)
    ensures EncodeField(f, s).Some? && IsRecords(EncodeField(f, s).value, FieldRecords(f, s), true)
    decreases s, 4, 0
  {
    if s.items == [] {
      assert EncodeField(f, s) == Some([]);
    } else if f.ltype.Packable() {
      PackedHasFormat(f, s, 0);
      PackedArrayHasFormat(f, s, EncodePacked(f, s, 0).value);
    } else {
      EachHasFormat(f, s, 0);
    }
  }

  lemma {:induction false} FieldHasFormat(f: Field, s: Slot)
    requires FitsSlot(f, s, false)
    ensures EncodeField(f, s).Some? && IsRecords(EncodeField(f, s).value, FieldRecords(f, s), true)
    decreases s, 5, 0
  {
    if f.htype.Repeated? {
      ArrayHasFormat(f, s);
    } else if FieldRecords(f, s) != [] {
      TaggedHasFormat(f, s.value);
      OneRecord(EncodeTagged(f, s.value).value, Rec(f.tag, PayloadOf(f, s.value)));
    }
  }

  lemma {:induction false} RecordsHaveFormat(d: Descriptor, v: Value, i: nat)
    requires i <= |d.fields| && Fits(d, v, false)
    ensures EncodeFrom(d, v, i).Some? && IsRecords(EncodeFrom(d, v, i).value, RecordsFrom(d, v, i), true)
    decreases v, 1, |d.fields| - i
  {
    if i < |d.fields| {
      assert FitsAt(d, i, v, false);
      var f := d.fields[i];
      FieldHasFormat(f, v.slots[f.slot]);
      RecordsHaveFormat(d, v, i + 1);
      RecordsJoin(EncodeField(f, v.slots[f.slot]).value, FieldRecords(f, v.slots[f.slot]),
                  EncodeFrom(d, v, i + 1).value, RecordsFrom(d, v, i + 1));
    }
  }

  // What pb_encode writes for a value is a message of the format that holds it: said without
  // the decoder, and with the format's own numbers.
  lemma {:induction false} EncodingHasFormat(d: Descriptor, v: Value)
    requires Fits(d, v, false)
    ensures EncodeMessage(d, v).Some? && IsRecords(EncodeMessage(d, v).value, RecordsFrom(d, v, 0), true)
  {
    RecordsHaveFormat(d, v, 0);
  }
}
