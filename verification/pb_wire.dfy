// What the decoder makes of a message of the format, whoever wrote it: record by record, with
// nothing said of bytes.

module PbWire {
  import opened Wire
  import opened Words
  import opened PbVarint
  import opened PbMessages
  import opened PbDecoding
  import opened PbMerge
  import opened PbFormat

  // The payload is of the field's type. An array of numbers may come packed or one by one.
  ghost predicate TypedSingle(f: Field, p: Payload)
    decreases p, 1
  {
    match f.ltype
    case Fixed32 => p.I32P? && p.n < 0x1_0000_0000
    case Fixed64 => p.I64P? && p.n < 0x1_0000_0000_0000_0000
    case Submessage => p.MessageP? && TypedAll(f.sub, p.records)
    case Varint => p.VarintP?
    case Uvarint => p.VarintP?
    case Svarint => p.VarintP?
    case _ => p.LenP?
  }

  ghost predicate Typed(f: Field, p: Payload)
    decreases p, 2
  {
    if f.htype.Repeated? && f.ltype.Packable() && p.PackedP? then
      forall k :: 0 <= k < |p.items| ==> TypedSingle(f, p.items[k])
    else TypedSingle(f, p)
  }

  // A record has a field number, and its payload is of the type of the field it is for, if there is one.
  ghost predicate TypedRec(d: Descriptor, r: Rec)
    decreases r
  {
    && 0 < r.number < FIELD_NUMBER_LIMIT
    && var i := Find(d.fields, r.number, 0);
       i < |d.fields| ==> Typed(d.fields[i], r.payload)
  }

  ghost predicate TypedAll(d: Descriptor, records: seq<Rec>)
    decreases records
  {
    forall k :: 0 <= k < |records| ==> TypedRec(d, records[k])
  }

  // The value of a payload for a field, or none when the field cannot hold it. A 32-bit integer is
  // read off the low 32 bits of its varint; a fixed-length field takes its length or nothing.
  function TakeNumber(f: Field, n: nat): Option<Value>
    requires f.ltype.Varint? || f.ltype.Uvarint? || f.ltype.Svarint?
  {
    var word := if f.dataSize == 8 then 0x1_0000_0000_0000_0000 else 0x1_0000_0000;
    var low := n % word;
    var v: int := if f.ltype.Uvarint? then n
             else if f.ltype.Svarint? then (if n % 2 == 0 then n / 2 else -(n / 2) - 1)
             else if 2 * low >= word then low - word else low;
    var limit := IntLimit(f.dataSize);
    if (if f.ltype.Uvarint? then v < limit else 0 <= 2 * v + limit < 2 * limit) then Some(Int(v)) else None
  }

  function TakeBytes(f: Field, bytes: seq<Byte>): Option<Value>
    requires f.ltype.Bytes? || f.ltype.Str? || f.ltype.FixedLengthBytes?
  {
    match f.ltype
    case Bytes => if |bytes| <= PB_SIZE_MAX && |bytes| + BYTES_OFFSET <= f.dataSize then Some(Raw(bytes)) else None
    case Str => if |bytes| < f.dataSize then Some(Raw(bytes)) else None
    case FixedLengthBytes =>
      if bytes == [] then Some(Raw(Zeros(f.dataSize)))
      else if |bytes| == f.dataSize then Some(Raw(bytes)) else None
  }

  ghost function TakePayload(f: Field, dest: Value, p: Payload): Option<Value>
    requires TypedSingle(f, p)
    decreases p, 3
  {
    match f.ltype
    case Fixed32 => Some(Int(p.n))
    case Fixed64 => Some(Int(p.n))
    case Varint => TakeNumber(f, p.n)
    case Uvarint => TakeNumber(f, p.n)
    case Svarint => TakeNumber(f, p.n)
    case Submessage =>
      if !dest.Msg? then None
      else
        var w := TakeAll(f.sub, dest, {}, p.records);
        if w.Some? && RequiredSeen(f.sub.fields, w.value.1) then Some(w.value.0) else None
    case _ => TakeBytes(f, p.bytes)
  }

  // The entries of a packed array are added while the array has room.
  ghost function TakeItems(f: Field, have: seq<Value>, items: seq<Payload>): Option<seq<Value>>
    requires forall k :: 0 <= k < |items| ==> TypedSingle(f, items[k])
    decreases items
  {
    if items == [] then Some(have)
    else if |have| >= f.arraySize then None
    else
      var v := TakePayload(f, DefaultValue(f), items[0]);
      if v.None? then None else TakeItems(f, have + [v.value], items[1..])
  }

  // What a record does to its field's slot: entries are added to an array, a message is merged
  // into what is there, a oneof changes over, and anything else is overwritten.
  ghost function TakeSlot(f: Field, s: Slot, p: Payload): Option<Slot>
    requires Typed(f, p)
    decreases p, 4
  {
    if f.htype.Repeated? != s.Many? then None
    else if f.htype.Repeated? then
      if f.ltype.Packable() && p.PackedP? then
        var items := TakeItems(f, s.items, p.items);
        if items.Some? then Some(Many(items.value)) else None
      else if |s.items| >= f.arraySize then None
      else
        var v := TakePayload(f, DefaultValue(f), p);
        if v.Some? then Some(Many(s.items + [v.value])) else None
    else
      var v := TakePayload(f, if f.htype.Oneof? then DefaultValue(f) else s.value, p);
      if v.None? then None
      else if f.htype.Optional? then Some(Opt(true, v.value))
      else if f.htype.Oneof? then Some(Union(f.tag, v.value)) else Some(One(v.value))
  }

  // An unknown record is skipped, and a required field noted.
  ghost function TakeRec(d: Descriptor, m: Value, seen: set<nat>, r: Rec): (w: Option<(Value, set<nat>)>)
    requires m.Msg? && TypedRec(d, r)
    ensures w.Some? ==> w.value.0.Msg? && |w.value.0.slots| == |m.slots|
    decreases r
  {
    var i := Find(d.fields, r.number, 0);
    if i == |d.fields| then Some((m, seen))
    else
      var f := d.fields[i];
      if f.slot >= |m.slots| then None
      else
        var s := TakeSlot(f, m.slots[f.slot], r.payload);
        if s.None? then None
        else Some((Msg(m.slots[f.slot := s.value]), if f.htype.Required? then seen + {i} else seen))
  }

  ghost function TakeAll(d: Descriptor, m: Value, seen: set<nat>, records: seq<Rec>): (w: Option<(Value, set<nat>)>)
    requires m.Msg? && TypedAll(d, records)
    ensures w.Some? ==> w.value.0.Msg? && |w.value.0.slots| == |m.slots|
    decreases records
  {
    if records == [] then Some((m, seen))
    else
      var w := TakeRec(d, m, seen, records[0]);
      if w.None? then None else TakeAll(d, w.value.0, w.value.1, records[1..])
  }

  // The decoder does the same.

  ghost function AsParsed(v: Option<Value>, tail: seq<Byte>): Parsed<Value> {
    if v.Some? then Parsed(v.value, tail) else Failed
  }

  lemma {:induction false} VarintIsGroups(t: seq<Byte>, n: nat, tail: seq<Byte>, short: bool)
    requires IsVarint(t, n, short)
    ensures Continued(t + tail) == |t| - 1 && Groups(t) == n
  {
    if |t| > 1 {
      assert (t + tail)[1..] == t[1..] + tail;
      VarintIsGroups(t[1..], n / 128, tail, short);
    } else {
      assert t[1..] == [];
    }
  }

  lemma {:induction false} VarintIsRead(t: seq<Byte>, n: nat, tail: seq<Byte>, short: bool)
    requires IsVarint(t, n, short) && n < TWO64
    ensures short || |t| <= 10 ==> DecodeVarint(t + tail) == Parsed(n, tail)
    ensures n < TWO32 && (short || |t| <= 5) ==> DecodeVarint32(t + tail) == Parsed(n, tail)
  {
    VarintIsGroups(t, n, tail, short);
    if short {
      VarintIsEncoded(t, n);
      VarintLengths(n);
    }
    assert (t + tail)[..|t|] == t && (t + tail)[|t|..] == tail;
    RemainderIsUnique(n, TWO64, 0, n);
    if n < TWO32 {
      RemainderIsUnique(n, TWO32, 0, n);
    }
  }

  lemma {:induction false} LenIsTaken(b: seq<Byte>, body: seq<Byte>, tail: seq<Byte>, short: bool)
    requires IsLen(b, body, short) && |body| < TWO32
    ensures DecodeVarint32(b + tail) == Parsed(|body|, body + tail)
    ensures TakePrefixed(b + tail) == Parsed(body, tail)
    ensures |body| < |b|
  {
    var t :| IsVarint(t, |body|, short) && (short || |t| <= 5) && b == t + body;
    VarintIsRead(t, |body|, body + tail, short);
    assert b + tail == t + (body + tail);
    assert (body + tail)[..|body|] == body && (body + tail)[|body|..] == tail;
  }

  lemma {:induction false} NumberIsTaken(f: Field, n: nat)
    requires (f.ltype.Varint? || f.ltype.Uvarint? || f.ltype.Svarint?) && n < TWO64
    ensures CastInteger(f, n) == TakeNumber(f, n)
  {
    if f.ltype.Svarint? && n % 2 == 1 {
      HalfIsNegative(n);
    }
  }

  lemma {:induction false} HalfIsNegative(n: nat)
    requires n < TWO64
    ensures n % 2 == 1 ==> UnZigZag(n) == -(n / 2) - 1
  {
  }

  lemma {:induction false} IntegerIsDecoded(f: Field, n: nat, x: seq<Byte>, tail: seq<Byte>, short: bool)
    requires f.ltype.Varint? || f.ltype.Uvarint? || f.ltype.Svarint?
    requires IsPayload(x, VarintP(n), short)
    ensures DecodeInteger(f, x + tail) == AsParsed(TakeNumber(f, n), tail)
  {
    VarintIsRead(x, n, tail, short);
    NumberIsTaken(f, n);
  }

  // Eight bits of a number at a time.
  lemma {:induction false} BytesAreNumber(b: seq<Byte>, n: nat)
    requires IsLittleEndian(b, n) && n < Pow2(8 * |b|)
    ensures GetLittleEndian(b) == n
  {
    if b != [] {
      var w := |b| - 1;
      BytePowers();
      PowerOfSum(8 * w, 8);
      assert n / 0x100 < Pow2(8 * w);
      assert Pow2(0) == 1 && b[0] == n / Pow2(8 * 0) % 256;
      forall i | 0 <= i < w
        ensures b[1..][i] == (n / 0x100) / Pow2(8 * i) % 256
      {
        assert b[1..][i] == b[i + 1] == n / Pow2(8 * (i + 1)) % 256;
        PowerOfSum(8 * i, 8);
        DivideTwice(n, 0x100, Pow2(8 * i));
      }
      BytesAreNumber(b[1..], n / 0x100);
    }
  }

  lemma {:induction false} FixedIsDecoded(n: nat, x: seq<Byte>, tail: seq<Byte>)
    requires x != [] && IsLittleEndian(x, n) && n < Pow2(8 * |x|)
    ensures DecodeFixed(|x|, x + tail) == Parsed(Int(n), tail)
  {
    BytesAreNumber(x, n);
    assert (x + tail)[..|x|] == x && (x + tail)[|x|..] == tail;
  }

  lemma {:induction false} BytesAreDecoded(f: Field, bytes: seq<Byte>, x: seq<Byte>, tail: seq<Byte>, short: bool)
    requires f.ltype.Bytes? || f.ltype.Str? || f.ltype.FixedLengthBytes?
    requires IsLen(x, bytes, short) && |bytes| < TWO32
    ensures DecodeRaw(f, x + tail) == AsParsed(TakeBytes(f, bytes), tail)
  {
    LenIsTaken(x, bytes, tail, short);
    assert (bytes + tail)[..|bytes|] == bytes && (bytes + tail)[|bytes|..] == tail;
  }

  lemma {:induction false} PayloadIsDecoded(f: Field, dest: Value, p: Payload, x: seq<Byte>, tail: seq<Byte>,
                                            short: bool)
    requires TypedSingle(f, p) && IsPayload(x, p, short) && |x| < TWO32
    ensures DecodeValue(f, dest, x + tail) == AsParsed(TakePayload(f, dest, p), tail)
    decreases p, 3
  {
    if f.ltype.Submessage? {
      MessageIsDecoded(f, dest, p, x, tail, short);
    } else if p.LenP? {
      LenIsShort(x, p.bytes, short);
      BytesAreDecoded(f, p.bytes, x, tail, short);
    } else if p.VarintP? {
      IntegerIsDecoded(f, p.n, x, tail, short);
    } else {
      Powers();
      FixedIsDecoded(p.n, x, tail);
    }
  }

  lemma {:induction false} LenIsShort(x: seq<Byte>, body: seq<Byte>, short: bool)
    requires IsLen(x, body, short)
    ensures |body| < |x|
  {
  }

  lemma {:induction false} MessageIsDecoded(f: Field, dest: Value, p: Payload, x: seq<Byte>, tail: seq<Byte>,
                                            short: bool)
    requires f.ltype.Submessage? && TypedSingle(f, p) && IsPayload(x, p, short) && |x| < TWO32
    ensures DecodeValue(f, dest, x + tail) == AsParsed(TakePayload(f, dest, p), tail)
    decreases p, 2
  {
    var e :| IsLen(x, e, short) && IsRecords(e, p.records, short);
    LenIsShort(x, e, short);
    LenIsTaken(x, e, tail, short);
    if dest.Msg? {
      AllAreDecoded(f.sub, dest, {}, p.records, e, [], short);
      assert e + [] == e;
    }
  }

  lemma {:induction false} NumberHasBytes(x: seq<Byte>, p: Payload, short: bool)
    requires IsPayload(x, p, short) && (p.VarintP? || p.I64P? || p.I32P?)
    ensures x != []
  {
  }

  lemma {:induction false} ItemsAreDecoded(f: Field, have: seq<Value>, items: seq<Payload>, e: seq<Byte>, short: bool)
    requires f.ltype.Packable() && forall k :: 0 <= k < |items| ==> TypedSingle(f, items[k])
    requires ArePayloads(e, items, short) && |e| < TWO32
    ensures DecodePacked(f, have, e) == TakeItems(f, have, items)
    decreases items
  {
    if items != [] {
      var x, y :| IsPayload(x, items[0], short) && ArePayloads(y, items[1..], short) && e == x + y;
      assert TypedSingle(f, items[0]);
      NumberHasBytes(x, items[0], short);
      PayloadIsDecoded(f, DefaultValue(f), items[0], x, y, short);
      var v := TakePayload(f, DefaultValue(f), items[0]);
      if v.Some? {
        ItemsAreDecoded(f, have + [v.value], items[1..], y, short);
      }
    }
  }

  ghost function SlotParsed(s: Option<Slot>, tail: seq<Byte>): Parsed<Slot> {
    if s.Some? then Parsed(s.value, tail) else Failed
  }

  lemma {:induction false} PackedIsDecoded(f: Field, s: Slot, p: Payload, x: seq<Byte>, tail: seq<Byte>, short: bool)
    requires f.htype.Repeated? && f.ltype.Packable() && p.PackedP?
    requires Typed(f, p) && IsPayload(x, p, short) && |x| < TWO32
    ensures DecodeField(f, s, 2, x + tail) == SlotParsed(TakeSlot(f, s, p), tail)
    decreases p, 4
  {
    var e :| IsLen(x, e, short) && ArePayloads(e, p.items, short);
    LenIsShort(x, e, short);
    LenIsTaken(x, e, tail, short);
    if s.Many? {
      ItemsAreDecoded(f, s.items, p.items, e, short);
    }
  }

  // One field's data, packed or not.
  lemma {:induction false} SlotIsDecoded(f: Field, s: Slot, p: Payload, x: seq<Byte>, tail: seq<Byte>, short: bool)
    requires Typed(f, p) && IsPayload(x, p, short) && |x| < TWO32
    ensures DecodeField(f, s, p.WireNumber(), x + tail) == SlotParsed(TakeSlot(f, s, p), tail)
    decreases p, 5
  {
    if f.htype.Repeated? && f.ltype.Packable() && p.PackedP? {
      PackedIsDecoded(f, s, p, x, tail, short);
    } else if f.htype.Repeated? {
      PayloadIsDecoded(f, DefaultValue(f), p, x, tail, short);
    } else if !s.Many? {
      PayloadIsDecoded(f, Destination(f, s), p, x, tail, short);
    }
  }

  // Data of any kind is skipped by its wire type, and nothing behind it.
  lemma {:induction false} PayloadIsSkipped(p: Payload, x: seq<Byte>, tail: seq<Byte>, short: bool)
    requires IsPayload(x, p, short) && |x| < TWO32
    ensures SkipField(p.WireNumber(), x + tail) == Parsed((), tail)
  {
    match p
    case VarintP(n) =>
      VarintIsGroups(x, n, tail, short);
      assert (x + tail)[|x|..] == tail;
    case I64P(n) => assert (x + tail)[8..] == tail;
    case I32P(n) => assert (x + tail)[4..] == tail;
    case LenP(bytes) =>
      LenIsShort(x, bytes, short);
      LenIsTaken(x, bytes, tail, short);
    case MessageP(records) =>
      var e :| IsLen(x, e, short) && IsRecords(e, records, short);
      LenIsShort(x, e, short);
      LenIsTaken(x, e, tail, short);
    case PackedP(items) =>
      var e :| IsLen(x, e, short) && ArePayloads(e, items, short);
      LenIsShort(x, e, short);
      LenIsTaken(x, e, tail, short);
  }

  // Decoding goes on as what the records made of the message says.
  ghost predicate GoesOn(d: Descriptor, m: Value, seen: set<nat>, b: seq<Byte>, w: Option<(Value, set<nat>)>,
                         tail: seq<Byte>) {
    && m.Msg?
    && if w.None? then DecodeLoop(d, m, seen, b).Stopped?
       else w.value.0.Msg? && DecodeLoop(d, m, seen, b) == DecodeLoop(d, w.value.0, w.value.1, tail)
  }

  lemma {:induction false} TagIsRead(t: seq<Byte>, number: nat, wireType: nat, rest: seq<Byte>, short: bool)
    requires IsTag(t, number, wireType, short) && 0 < number < FIELD_NUMBER_LIMIT && wireType < 8
    ensures t + rest != [] && DecodeTag(t + rest) == Tag(number, wireType, rest)
  {
    VarintIsRead(t, 8 * number + wireType, rest, short);
  }

  lemma {:induction false} StepIsDecoded(d: Descriptor, m: Value, seen: set<nat>, r: Rec, x: seq<Byte>,
                                         tail: seq<Byte>, short: bool)
    requires m.Msg? && TypedRec(d, r) && IsPayload(x, r.payload, short) && |x| < TWO32
    ensures var w := TakeRec(d, m, seen, r);
            DecodeStep(d, m, seen, Tag(r.number, r.payload.WireNumber(), x + tail))
            == if w.None? then Stopped else At(w.value.0, w.value.1, tail)
    decreases r, 0
  {
    var i := Find(d.fields, r.number, 0);
    if i == |d.fields| {
      PayloadIsSkipped(r.payload, x, tail, short);
    } else if d.fields[i].slot < |m.slots| {
      SlotIsDecoded(d.fields[i], m.slots[d.fields[i].slot], r.payload, x, tail, short);
    }
  }

  lemma {:induction false} RecIsDecoded(d: Descriptor, m: Value, seen: set<nat>, r: Rec, b: seq<Byte>,
                                        tail: seq<Byte>, short: bool)
    requires m.Msg? && TypedRec(d, r) && IsRecord(b, r, short) && |b| < TWO32
    ensures GoesOn(d, m, seen, b + tail, TakeRec(d, m, seen, r), tail)
    decreases r, 1
  {
    var t, x :| IsTag(t, r.number, r.payload.WireNumber(), short) && IsPayload(x, r.payload, short) && b == t + x;
    assert b + tail == t + (x + tail);
    TagIsRead(t, r.number, r.payload.WireNumber(), x + tail, short);
    StepIsDecoded(d, m, seen, r, x, tail, short);
  }

  lemma {:induction false} AllAreDecoded(d: Descriptor, m: Value, seen: set<nat>, records: seq<Rec>, b: seq<Byte>,
                                         tail: seq<Byte>, short: bool)
    requires m.Msg? && TypedAll(d, records) && IsRecords(b, records, short) && |b| < TWO32
    ensures GoesOn(d, m, seen, b + tail, TakeAll(d, m, seen, records), tail)
    decreases records
  {
    if records == [] {
      assert b + tail == tail;
    } else {
      var x, y :| IsRecord(x, records[0], short) && IsRecords(y, records[1..], short) && b == x + y;
      assert b + tail == x + (y + tail);
      assert TypedRec(d, records[0]);
      RecIsDecoded(d, m, seen, records[0], x, y + tail, short);
      var w := TakeRec(d, m, seen, records[0]);
      if w.Some? {
        AllAreDecoded(d, w.value.0, w.value.1, records[1..], y, tail, short);
      }
    }
  }

  // pb_decode_noinit on a message of the format, from any encoder: it makes of the struct what the
  // records say, and fails exactly when one of them does not fit or a required field is missing.
  lemma {:induction false} FormatIsDecoded(d: Descriptor, m: Value, records: seq<Rec>, b: seq<Byte>, short: bool)
    requires m.Msg? && TypedAll(d, records) && IsRecords(b, records, short) && |b| < TWO32
    ensures var w := TakeAll(d, m, {}, records);
            DecodeNoInit(d, m, b)
            == if w.Some? && RequiredSeen(d.fields, w.value.1) then Parsed(w.value.0, []) else Failed
  {
    AllAreDecoded(d, m, {}, records, b, [], short);
    assert b + [] == b;
  }

  // A known field goes by its own type, whatever wire type the tag has; only for an array of numbers
  // does it say whether the entries are packed.
  lemma {:induction false} WireTypeIsIgnored(d: Descriptor, m: Value, seen: set<nat>, r: Rec, wireType: nat,
                                             t: seq<Byte>, x: seq<Byte>, tail: seq<Byte>, short: bool)
    requires m.Msg? && TypedRec(d, r) && Find(d.fields, r.number, 0) < |d.fields|
    requires var f := d.fields[Find(d.fields, r.number, 0)];
             f.htype.Repeated? && f.ltype.Packable() ==> (wireType == 2 <==> r.payload.PackedP?)
    requires IsTag(t, r.number, wireType, short) && wireType < 8 && IsPayload(x, r.payload, short) && |x| < TWO32
    ensures GoesOn(d, m, seen, t + (x + tail), TakeRec(d, m, seen, r), tail)
  {
    var f := d.fields[Find(d.fields, r.number, 0)];
    TagIsRead(t, r.number, wireType, x + tail, short);
    StepIsDecoded(d, m, seen, r, x, tail, short);
    assert Typed(f, r.payload);
    if f.slot < |m.slots| {
      assert f.htype.Repeated? && f.ltype.Packable() && !r.payload.PackedP? ==> TypedSingle(f, r.payload);
      SameField(f, m.slots[f.slot], wireType, r.payload.WireNumber(), x + tail);
    }
  }

  lemma SameField(f: Field, s: Slot, w: nat, w': nat, b: seq<Byte>)
    requires f.htype.Repeated? && f.ltype.Packable() ==> (w == WT_STRING <==> w' == WT_STRING)
    ensures DecodeField(f, s, w, b) == DecodeField(f, s, w', b)
  {
  }

  // A zero byte where a tag should be ends the message there, as in a buffer filled with zeros.
  lemma {:induction false} ZeroTagEnds(d: Descriptor, m: Value, seen: set<nat>, records: seq<Rec>, b: seq<Byte>,
                                       rest: seq<Byte>, short: bool)
    requires m.Msg? && TypedAll(d, records) && IsRecords(b, records, short) && |b| < TWO32
    requires TakeAll(d, m, seen, records).Some?
    ensures var w := TakeAll(d, m, seen, records).value;
            DecodeLoop(d, m, seen, b + [0] + rest) == At(w.0, w.1, rest)
  {
    AllAreDecoded(d, m, seen, records, b, [0] + rest, short);
    assert b + [0] + rest == b + ([0] + rest);
    assert EncodeVarint(0) == [0];
    VarintRoundTrip(0, rest);
  }

  // So does one in a submessage: what is left of its bytes is dropped.
  lemma {:induction false} ZeroTagEndsSubmessage(f: Field, dest: Value, records: seq<Rec>, e: seq<Byte>,
                                                 rest: seq<Byte>, x: seq<Byte>, tail: seq<Byte>, short: bool)
    requires f.ltype.Submessage? && dest.Msg? && TypedAll(f.sub, records) && IsRecords(e, records, short)
    requires IsLen(x, e + [0] + rest, short) && |x| < TWO32
    requires TakeAll(f.sub, dest, {}, records).Some?
    ensures DecodeValue(f, dest, x + tail) == AsParsed(TakePayload(f, dest, MessageP(records)), tail)
  {
    var body := e + [0] + rest;
    LenIsShort(x, body, short);
    LenIsTaken(x, body, tail, short);
    ZeroTagEnds(f.sub, dest, {}, records, e, rest, short);
    EndedIsTaken(f.sub, dest, body, TakeAll(f.sub, dest, {}, records).value, rest);
    MessageIsTaken(f, dest, x + tail, body, tail);
  }

  lemma EndedIsTaken(d: Descriptor, m: Value, b: seq<Byte>, w: (Value, set<nat>), rest: seq<Byte>)
    requires m.Msg? && DecodeLoop(d, m, {}, b) == At(w.0, w.1, rest)
    ensures DecodeNoInit(d, m, b) == if RequiredSeen(d.fields, w.1) then Parsed(w.0, rest) else Failed
  {
  }

  lemma MessageIsTaken(f: Field, dest: Value, b: seq<Byte>, body: seq<Byte>, tail: seq<Byte>)
    requires f.ltype.Submessage? && dest.Msg? && TakePrefixed(b) == Parsed(body, tail)
    ensures var m := DecodeNoInit(f.sub, dest, body);
            DecodeValue(f, dest, b) == if m.Failed? then Failed else Parsed(m.value, tail)
  {
  }

  // A record of an unknown field with any other wire type cannot be skipped.
  lemma {:induction false} OtherWireTypesFail(d: Descriptor, m: Value, seen: set<nat>, number: nat, wireType: nat,
                                              t: seq<Byte>, rest: seq<Byte>, short: bool)
    requires m.Msg? && IsTag(t, number, wireType, short) && 0 < number < FIELD_NUMBER_LIMIT
    requires wireType == 3 || wireType == 4 || wireType == 6 || wireType == 7
    requires Find(d.fields, number, 0) == |d.fields|
    ensures DecodeLoop(d, m, seen, t + rest).Stopped?
  {
    TagIsRead(t, number, wireType, rest, short);
  }
}
