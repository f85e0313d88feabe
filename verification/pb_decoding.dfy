// What pb_decode makes of any bytes.

module PbDecoding {
  import opened Wire
  import opened PbVarint
  import opened PbMessages

  // pb_decode_tag. At a failing varint the source takes the message to be over when no
  // bytes are left, whether or not the tag was complete.
  datatype TagRead = Tag(tag: nat, wireType: nat, rest: seq<Byte>) | Eof(rest: seq<Byte>) | BadTag

  function DecodeTag(b: seq<Byte>): (t: TagRead)
    requires b != []
    ensures t.Tag? || t.Eof? ==> |t.rest| < |b|
    ensures t.Tag? ==> t.wireType < 8
  {
    var p := DecodeVarint32(b);
    if p.Failed? then (if |b| <= 5 then Eof([]) else BadTag)
    else if p.value == 0 then Eof(p.rest)
    else Tag(p.value / 8, p.value % 8, p.rest)
  }

  // Some number of bytes from the front, as pb_read takes them.
  function Take(b: seq<Byte>, n: nat): (p: Parsed<seq<Byte>>)
    ensures p.Parsed? ==> |p.value| == n && b == p.value + p.rest
  {
    if |b| < n then Failed else Parsed(b[..n], b[n..])
  }

  // A varint32 length and that many bytes: what pb_make_string_substream delimits.
  function TakePrefixed(b: seq<Byte>): (p: Parsed<seq<Byte>>)
    ensures p.Parsed? ==> |p.value| + |p.rest| < |b|
  {
    var n := DecodeVarint32(b);
    if n.Failed? then Failed else Take(n.rest, n.value)
  }

  // pb_skip_varint has no limit on the length.
  function SkipVarint(b: seq<Byte>): (p: Parsed<()>)
    ensures p.Parsed? ==> |p.rest| < |b|
  {
    var k := Continued(b);
    if k == |b| then Failed else Parsed((), b[k + 1..])
  }

  function Drop(p: Parsed<seq<Byte>>): Parsed<()> {
    if p.Failed? then Failed else Parsed((), p.rest)
  }

  // pb_skip_field
  function SkipField(wireType: nat, b: seq<Byte>): (p: Parsed<()>)
    ensures p.Parsed? ==> |p.rest| < |b|
  {
    if wireType == WT_VARINT then SkipVarint(b)
    else if wireType == WT_64BIT then Drop(Take(b, 8))
    else if wireType == WT_STRING then Drop(TakePrefixed(b))
    else if wireType == WT_32BIT then Drop(Take(b, 4))
    else Failed
  }

  // The casts of pb_dec_varint, pb_dec_uvarint and pb_dec_svarint, which refuse what does not fit.
  function CastVarint(f: Field, n: nat): Option<Value>
    requires n < TWO64
  {
    var v := if f.dataSize == 8 then Signed(n, TWO64) else Signed(n, TWO32);
    if FitsSigned(v, IntLimit(f.dataSize)) then Some(Int(v)) else None
  }

  function CastUvarint(f: Field, n: nat): Option<Value> {
    if n < IntLimit(f.dataSize) then Some(Int(n)) else None
  }

  function CastSvarint(f: Field, n: nat): Option<Value>
    requires n < TWO64
  {
    var v := UnZigZag(n);
    if FitsSigned(v, IntLimit(f.dataSize)) then Some(Int(v)) else None
  }

  function CastInteger(f: Field, n: nat): Option<Value>
    requires f.ltype.Varint? || f.ltype.Uvarint? || f.ltype.Svarint?
    requires n < TWO64
  {
    if f.ltype.Varint? then CastVarint(f, n) else if f.ltype.Uvarint? then CastUvarint(f, n) else CastSvarint(f, n)
  }

  function DecodeInteger(f: Field, b: seq<Byte>): (p: Parsed<Value>)
    requires f.ltype.Varint? || f.ltype.Uvarint? || f.ltype.Svarint?
    ensures p.Parsed? ==> |p.rest| < |b|
  {
    var n := DecodeVarint(b);
    if n.Failed? then Failed
    else
      var v := CastInteger(f, n.value);
      if v.None? then Failed else Parsed(v.value, n.rest)
  }

  function DecodeFixed(w: nat, b: seq<Byte>): (p: Parsed<Value>)
    requires w > 0
    ensures p.Parsed? ==> |p.rest| < |b|
  {
    var t := Take(b, w);
    if t.Failed? then Failed else Parsed(Int(GetLittleEndian(t.value)), t.rest)
  }

  // pb_dec_bytes, pb_dec_string and pb_dec_fixed_length_bytes look at the length before the bytes.
  predicate LengthOk(f: Field, n: nat)
    requires f.ltype.Bytes? || f.ltype.Str? || f.ltype.FixedLengthBytes?
  {
    match f.ltype
    case Bytes => n <= PB_SIZE_MAX && n + BYTES_OFFSET <= f.dataSize
    case Str => n + 1 <= f.dataSize
    case FixedLengthBytes => n <= PB_SIZE_MAX && (n == 0 || n == f.dataSize)
  }

  function DecodeRaw(f: Field, b: seq<Byte>): (p: Parsed<Value>)
    requires f.ltype.Bytes? || f.ltype.Str? || f.ltype.FixedLengthBytes?
    ensures p.Parsed? ==> |p.rest| < |b|
  {
    var n := DecodeVarint32(b);
    if n.Failed? || !LengthOk(f, n.value) then Failed
    else if f.ltype.FixedLengthBytes? && n.value == 0 then Parsed(Raw(Zeros(f.dataSize)), n.rest)
    else
      var t := Take(n.rest, n.value);
      if t.Failed? then Failed else Parsed(Raw(t.value), t.rest)
  }

  // The field decoders. dest is what stands at the destination: a submessage is decoded into it.
  function DecodeValue(f: Field, dest: Value, b: seq<Byte>): (p: Parsed<Value>)
    ensures p.Parsed? ==> |p.rest| < |b|
    decreases |b|, 1, 0
  {
    match f.ltype
    case Varint => DecodeInteger(f, b)
    case Uvarint => DecodeInteger(f, b)
    case Svarint => DecodeInteger(f, b)
    case Fixed32 => DecodeFixed(4, b)
    case Fixed64 => DecodeFixed(8, b)
    case Bytes => DecodeRaw(f, b)
    case Str => DecodeRaw(f, b)
    case FixedLengthBytes => DecodeRaw(f, b)
    case Submessage =>
      var t := TakePrefixed(b);
      if t.Failed? || !dest.Msg? then Failed
      else
        var m := DecodeNoInit(f.sub, dest, t.value);
        if m.Failed? then Failed else Parsed(m.value, t.rest)
  }

  // The loop over a packed array's bytes: it stops when the array is full, which is an
  // error unless the bytes are used up.
  function DecodePacked(f: Field, items: seq<Value>, b: seq<Byte>): Option<seq<Value>>
    decreases |b|, 2, 0
  {
    if b == [] then Some(items)
    else if |items| >= f.arraySize then None
    else
      var v := DecodeValue(f, DefaultValue(f), b);
      if v.Failed? then None else DecodePacked(f, items + [v.value], v.rest)
  }

  // decode_static_field
  function DecodeField(f: Field, s: Slot, wireType: nat, b: seq<Byte>): (p: Parsed<Slot>)
    ensures p.Parsed? ==> |p.rest| < |b|
    decreases |b|, 3, 0
  {
    if f.htype.Repeated? && s.Many? then
      if wireType == WT_STRING && f.ltype.Packable() then
        var t := TakePrefixed(b);
        if t.Failed? then Failed
        else
          var items := DecodePacked(f, s.items, t.value);
          if items.None? then Failed else Parsed(Many(items.value), t.rest)
      else if |s.items| >= f.arraySize then Failed
      else
        var v := DecodeValue(f, DefaultValue(f), b);
        if v.Failed? then Failed else Parsed(Many(s.items + [v.value]), v.rest)
    else if !f.htype.Repeated? && !s.Many? then
      var v := DecodeValue(f, Destination(f, s), b);
      if v.Failed? then Failed else Parsed(Stored(f, v.value), v.rest)
    else Failed
  }

  // A submessage of a oneof is reset before it is decoded.
  function Destination(f: Field, s: Slot): Value
    requires !s.Many?
  {
    if f.htype.Oneof? then DefaultValue(f) else s.value
  }

  function Stored(f: Field, v: Value): Slot
    requires !f.htype.Repeated?
  {
    match f.htype
    case Required => One(v)
    case Optional => Opt(true, v)
    case Singular => One(v)
    case Oneof => Union(f.tag, v)
  }

  // The position of the field with this tag, or the number of fields.
  function Find(fields: seq<Field>, tag: nat, i: nat): (k: nat)
    requires i <= |fields|
    ensures i <= k <= |fields|
    ensures k < |fields| ==> fields[k].tag == tag
    ensures forall j :: i <= j < k ==> fields[j].tag != tag
    decreases |fields| - i
  {
    if i == |fields| || fields[i].tag == tag then i else Find(fields, tag, i + 1)
  }

  lemma {:induction false} FindsItself(d: Descriptor, i: nat)
    requires WellFormed(d) && i < |d.fields|
    ensures Find(d.fields, d.fields[i].tag, 0) == i
  {
  }

  // How far the loop of pb_decode_noinit gets: the message, the positions of the required fields
  // that were seen, and the bytes that were not read.
  datatype Progress = Stopped | At(msg: Value, seen: set<nat>, rest: seq<Byte>)

  // One round of the loop, or None at the end of the message.
  function DecodeStep(d: Descriptor, m: Value, seen: set<nat>, t: TagRead): (p: Progress)
    requires t.Tag? && m.Msg?
    ensures p.At? ==> p.msg.Msg? && |p.msg.slots| == |m.slots| && |p.rest| < |t.rest|
    decreases |t.rest|, 4, 0
  {
    var i := Find(d.fields, t.tag, 0);
    if d.fields == [] && t.tag == 0 then
      // The terminator of an empty field list matches tag 0; it decodes as a field of no size.
      Stopped
    else if i == |d.fields| then
      var s := SkipField(t.wireType, t.rest);
      if s.Failed? then Stopped else At(m, seen, s.rest)
    else
      var f := d.fields[i];
      if f.slot >= |m.slots| then Stopped
      else
        var s := DecodeField(f, m.slots[f.slot], t.wireType, t.rest);
        if s.Failed? then Stopped
        else At(Msg(m.slots[f.slot := s.value]), if f.htype.Required? then seen + {i} else seen, s.rest)
  }

  function DecodeLoop(d: Descriptor, m: Value, seen: set<nat>, b: seq<Byte>): (p: Progress)
    requires m.Msg?
    ensures p.At? ==> p.msg.Msg? && |p.msg.slots| == |m.slots| && |p.rest| <= |b|
    decreases |b|, 5, 0
  {
    if b == [] then At(m, seen, b)
    else
      var t := DecodeTag(b);
      if t.BadTag? then Stopped
      else if t.Eof? then At(m, seen, t.rest)
      else
        var s := DecodeStep(d, m, seen, t);
        if s.Stopped? then Stopped else DecodeLoop(d, s.msg, s.seen, s.rest)
  }

  predicate RequiredSeen(fields: seq<Field>, seen: set<nat>) {
    forall i :: 0 <= i < |fields| && fields[i].htype.Required? ==> i in seen
  }

  // pb_decode_noinit
  function DecodeNoInit(d: Descriptor, m: Value, b: seq<Byte>): (p: Parsed<Value>)
    requires m.Msg?
    ensures p.Parsed? ==> p.value.Msg? && |p.value.slots| == |m.slots| && |p.rest| <= |b|
    decreases |b|, 6, 0
  {
    var p := DecodeLoop(d, m, {}, b);
    if p.Stopped? || !RequiredSeen(d.fields, p.seen) then Failed else Parsed(p.msg, p.rest)
  }

  // pb_decode
  function Decode(d: Descriptor, b: seq<Byte>): (p: Parsed<Value>)
    ensures p.Parsed? ==> p.value.Msg? && |p.rest| <= |b|
  {
    DecodeNoInit(d, Defaults(d), b)
  }

  // pb_decode_delimited
  function DecodeDelimited(d: Descriptor, b: seq<Byte>): (p: Parsed<Value>) {
    var t := TakePrefixed(b);
    if t.Failed? then Failed
    else
      var m := Decode(d, t.value);
      if m.Failed? then Failed else Parsed(m.value, t.rest)
  }
}
