// Big-endian integers, the DTLS handshake fragment header (section 4.2.2 of RFC 6347)
// and the DTLS record header (section 4.1 of RFC 6347), with their parsers.

module Wire {

  type Byte = x: nat | x < 0x100

  const HM_HEADER_LENGTH := 12
  const RT_HEADER_LENGTH := 13

  // Record types, the ChangeCipherSpec message, and the messages a flight can have.
  const RT_CHANGE_CIPHER_SPEC := 20
  const RT_ALERT := 21
  const RT_HANDSHAKE := 22
  const RT_APPLICATION_DATA := 23
  const MT_CCS := 1
  const MAX_FLIGHT := 7

  const MAX_PLAIN_LENGTH := 16384
  const MAX_ENCRYPTED_LENGTH := MAX_PLAIN_LENGTH + 256 + 64
  const SEQUENCE_LIMIT := 0x1_0000_0000_0000

  datatype Option<+T> = None | Some(value: T)

  function Zeros(n: nat): (z: seq<Byte>)
    ensures |z| == n
  {
    seq(n, i => 0)
  }

  // The w-byte big-endian form of n.
  function BigEndian(n: nat, w: nat): (b: seq<Byte>)
    ensures |b| == w
  {
    if w == 0 then [] else BigEndian(n / 0x100, w - 1) + [n % 0x100]
  }

  function GetBigEndian(b: seq<Byte>, i: nat, w: nat): nat
    requires i + w <= |b|
  {
    if w == 0 then 0 else GetBigEndian(b, i, w - 1) * 0x100 + b[i + w - 1]
  }

  function Limit(w: nat): (n: nat)
    ensures n > 0
  {
    if w == 0 then 1 else Limit(w - 1) * 0x100
  }

  lemma {:induction false} GetInverts(n: nat, w: nat, b: seq<Byte>, i: nat)
    requires n < Limit(w) && i + w <= |b| && b[i..i + w] == BigEndian(n, w)
    ensures GetBigEndian(b, i, w) == n
  {
    if w > 0 {
      assert b[i..i + w - 1] == b[i..i + w][..w - 1] == BigEndian(n / 0x100, w - 1);
      assert b[i + w - 1] == b[i..i + w][w - 1] == n % 0x100;
      GetInverts(n / 0x100, w - 1, b, i);
    }
  }

  // A byte is what it is written as.
  lemma {:induction false} BigEndianOfGet(b: seq<Byte>, i: nat, w: nat)
    requires i + w <= |b|
    ensures BigEndian(GetBigEndian(b, i, w), w) == b[i..i + w]
  {
    if w > 0 {
      BigEndianOfGet(b, i, w - 1);
      assert b[i..i + w] == b[i..i + w - 1] + [b[i + w - 1]];
    }
  }

  lemma {:induction false} GetBelow(b: seq<Byte>, i: nat, w: nat)
    requires i + w <= |b|
    ensures GetBigEndian(b, i, w) < Limit(w)
  {
    if w > 0 {
      GetBelow(b, i, w - 1);
    }
  }

  lemma {:induction false} Limits()
    ensures Limit(1) == 0x100 && Limit(2) == 0x1_0000 && Limit(3) == 0x100_0000 && Limit(6) == SEQUENCE_LIMIT
  {
  }

  // A structure is written field by field, as the source does with its byte builder.
  datatype HeaderField = HeaderField(value: nat, width: nat)

  function Serialize(fields: seq<HeaderField>): seq<Byte> {
    if fields == [] then [] else BigEndian(fields[0].value, fields[0].width) + Serialize(fields[1..])
  }

  function Widths(fields: seq<HeaderField>): nat {
    if fields == [] then 0 else fields[0].width + Widths(fields[1..])
  }

  lemma {:induction false} SerializedLength(fields: seq<HeaderField>)
    ensures |Serialize(fields)| == Widths(fields)
  {
    if fields != [] {
      SerializedLength(fields[1..]);
    }
  }

  lemma {:induction false} WidthsGrow(fields: seq<HeaderField>, k: nat)
    requires k < |fields|
    ensures Widths(fields[..k + 1]) == Widths(fields[..k]) + fields[k].width
  {
    if k > 0 {
      WidthsGrow(fields[1..], k - 1);
      assert fields[..k + 1][1..] == fields[1..][..k] && fields[..k][1..] == fields[1..][..k - 1];
    }
  }

  // Field k is read back at the offset its predecessors' widths add up to.
  lemma {:induction false} FieldInverts(fields: seq<HeaderField>, k: nat, b: seq<Byte>, i: nat)
    requires k < |fields| && fields[k].value < Limit(fields[k].width)
    requires i + Widths(fields) <= |b| && b[i..i + Widths(fields)] == Serialize(fields)
    ensures Widths(fields[..k]) + fields[k].width <= Widths(fields)
    ensures GetBigEndian(b, i + Widths(fields[..k]), fields[k].width) == fields[k].value
  {
    var w := fields[0].width;
    FirstAndRest(fields, b, i);
    if k == 0 {
      GetInverts(fields[0].value, w, b, i);
    } else {
      var rest := fields[1..];
      assert Widths(fields[..k]) == w + Widths(rest[..k - 1]) by {
        assert fields[..k][1..] == rest[..k - 1];
      }
      FieldInverts(rest, k - 1, b, i + w);
    }
  }

  lemma {:induction false} FirstAndRest(fields: seq<HeaderField>, b: seq<Byte>, i: nat)
    requires fields != [] && i + Widths(fields) <= |b| && b[i..i + Widths(fields)] == Serialize(fields)
    ensures Widths(fields) == fields[0].width + Widths(fields[1..])
    ensures b[i..i + fields[0].width] == BigEndian(fields[0].value, fields[0].width)
    ensures b[i + fields[0].width..i + Widths(fields)] == Serialize(fields[1..])
  {
    var w, total := fields[0].width, Widths(fields);
    SerializedLength(fields[1..]);
    assert b[i..i + w] == b[i..i + total][..w];
    assert b[i + w..i + total] == b[i..i + total][w..];
  }

  // type, message length, message sequence number, fragment offset, fragment length
  datatype HmHeader = HmHeader(typ: nat, msgLen: nat, seqNum: nat, fragOff: nat, fragLen: nat) {
    predicate Fits() {
      typ < 0x100 && msgLen < 0x100_0000 && seqNum < 0x1_0000 && fragOff < 0x100_0000 && fragLen < 0x100_0000
    }

    function Fields(): seq<HeaderField> {
      [HeaderField(typ, 1), HeaderField(msgLen, 3), HeaderField(seqNum, 2), HeaderField(fragOff, 3),
       HeaderField(fragLen, 3)]
    }
  }

  datatype Fragment = Fragment(header: HmHeader, body: seq<Byte>)

  lemma {:induction false} HmWidths(h: HmHeader)
    ensures Widths(h.Fields()) == HM_HEADER_LENGTH
    ensures Widths(h.Fields()[..0]) == 0 && Widths(h.Fields()[..1]) == 1 && Widths(h.Fields()[..2]) == 4
    ensures Widths(h.Fields()[..3]) == 6 && Widths(h.Fields()[..4]) == 9
  {
    var f := h.Fields();
    assert f[..5] == f;
    WidthsGrow(f, 0);
    WidthsGrow(f, 1);
    WidthsGrow(f, 2);
    WidthsGrow(f, 3);
    WidthsGrow(f, 4);
  }

  function HeaderBytes(h: HmHeader): (b: seq<Byte>)
    ensures |b| == HM_HEADER_LENGTH
  {
    SerializedLength(h.Fields());
    HmWidths(h);
    Serialize(h.Fields())
  }

  lemma {:induction false} TwoBytes(n: nat)
    requires n < 0x1_0000
    ensures BigEndian(n, 1) == [n % 0x100] && BigEndian(n, 2) == [n / 0x100, n % 0x100]
  {
    assert BigEndian(n / 0x100, 1) == BigEndian(n / 0x100 / 0x100, 0) + [n / 0x100 % 0x100];
  }

  lemma {:induction false} ThreeBytes(n: nat)
    requires n < 0x100_0000
    ensures BigEndian(n, 3) == [n / 0x1_0000, n / 0x100 % 0x100, n % 0x100]
  {
    TwoBytes(n / 0x100);
  }

  lemma {:induction false} SixBytes(n: nat)
    requires n < 0x1_0000_0000_0000
    ensures BigEndian(n, 6) == [n / 0x100_0000_0000, n / 0x1_0000_0000 % 0x100, n / 0x100_0000 % 0x100,
                                n / 0x1_0000 % 0x100, n / 0x100 % 0x100, n % 0x100]
  {
    var a, b, c := n / 0x100, n / 0x1_0000, n / 0x100_0000;
    assert a / 0x100 == b && b / 0x100 == c;
    ThreeBytes(c);
    assert BigEndian(b, 4) == BigEndian(c, 3) + [b % 0x100];
    assert BigEndian(a, 5) == BigEndian(b, 4) + [a % 0x100];
    assert BigEndian(n, 6) == BigEndian(a, 5) + [n % 0x100];
  }

  // The handshake header as RFC 6347 section 4.2.2 lays it out.
  lemma {:induction false} HeaderLayout(h: HmHeader)
    requires h.Fits()
    ensures HeaderBytes(h) ==
              [h.typ, h.msgLen / 0x1_0000, h.msgLen / 0x100 % 0x100, h.msgLen % 0x100,
               h.seqNum / 0x100, h.seqNum % 0x100,
               h.fragOff / 0x1_0000, h.fragOff / 0x100 % 0x100, h.fragOff % 0x100,
               h.fragLen / 0x1_0000, h.fragLen / 0x100 % 0x100, h.fragLen % 0x100]
  {
    var f := h.Fields();
    TwoBytes(h.typ);
    ThreeBytes(h.msgLen);
    TwoBytes(h.seqNum);
    ThreeBytes(h.fragOff);
    ThreeBytes(h.fragLen);
    assert f[1..][1..] == f[2..] && f[2..][1..] == f[3..] && f[3..][1..] == f[4..] && f[4..][1..] == [];
    assert Serialize(f[4..]) == BigEndian(h.fragLen, 3) + Serialize([]);
    assert Serialize(f[3..]) == BigEndian(h.fragOff, 3) + Serialize(f[4..]);
    assert Serialize(f[2..]) == BigEndian(h.seqNum, 2) + Serialize(f[3..]);
    assert Serialize(f[1..]) == BigEndian(h.msgLen, 3) + Serialize(f[2..]);
  }

  // dtls1_parse_fragment: the fragment at the front.
  function ParseFragment(b: seq<Byte>): (f: Option<Fragment>)
    ensures f.Some? ==> f.value.header.Fits() && f.value.header.fragLen == |f.value.body|
    ensures f.Some? ==> HM_HEADER_LENGTH + |f.value.body| <= |b|
  {
    if |b| < HM_HEADER_LENGTH then None
    else
      var h := HmHeader(GetBigEndian(b, 0, 1), GetBigEndian(b, 1, 3), GetBigEndian(b, 4, 2),
                        GetBigEndian(b, 6, 3), GetBigEndian(b, 9, 3));
      ParsedHeaderFits(b);
      if |b| - HM_HEADER_LENGTH < h.fragLen then None
      else Some(Fragment(h, b[HM_HEADER_LENGTH..HM_HEADER_LENGTH + h.fragLen]))
  }

  lemma {:induction false} ParsedHeaderFits(b: seq<Byte>)
    requires |b| >= HM_HEADER_LENGTH
    ensures GetBigEndian(b, 0, 1) < 0x100 && GetBigEndian(b, 1, 3) < 0x100_0000 && GetBigEndian(b, 4, 2) < 0x1_0000
    ensures GetBigEndian(b, 6, 3) < 0x100_0000 && GetBigEndian(b, 9, 3) < 0x100_0000
  {
    Limits();
    GetBelow(b, 0, 1);
    GetBelow(b, 1, 3);
    GetBelow(b, 4, 2);
    GetBelow(b, 6, 3);
    GetBelow(b, 9, 3);
  }

  lemma {:induction false} ParseFragmentInverts(h: HmHeader, body: seq<Byte>, rest: seq<Byte>)
    requires h.Fits() && h.fragLen == |body|
    ensures ParseFragment(HeaderBytes(h) + body + rest) == Some(Fragment(h, body))
  {
    var b := HeaderBytes(h) + body + rest;
    var f := h.Fields();
    assert b[0..0 + HM_HEADER_LENGTH] == HeaderBytes(h);
    assert b[HM_HEADER_LENGTH..HM_HEADER_LENGTH + |body|] == body;
    Limits();
    HmWidths(h);
    FieldInverts(f, 0, b, 0);
    FieldInverts(f, 1, b, 0);
    FieldInverts(f, 2, b, 0);
    FieldInverts(f, 3, b, 0);
    FieldInverts(f, 4, b, 0);
  }

  // A record as it stands on the wire; body is what the cipher produced.
  datatype Record = Record(typ: nat, version: nat, epoch: nat, seqNum: nat, body: seq<Byte>) {
    predicate Fits() {
      typ < 0x100 && version < 0x1_0000 && epoch < 0x1_0000 && seqNum < SEQUENCE_LIMIT && |body| < 0x1_0000
    }

    function Fields(): seq<HeaderField> {
      [HeaderField(typ, 1), HeaderField(version, 2), HeaderField(epoch, 2), HeaderField(seqNum, 6),
       HeaderField(|body|, 2)]
    }
  }

  // The eight bytes of epoch and sequence number read as one 64-bit integer.
  function Sequence64(epoch: nat, seqNum: nat): nat {
    epoch * SEQUENCE_LIMIT + seqNum
  }

  lemma {:induction false} RtWidths(r: Record)
    ensures Widths(r.Fields()) == RT_HEADER_LENGTH
    ensures Widths(r.Fields()[..0]) == 0 && Widths(r.Fields()[..1]) == 1 && Widths(r.Fields()[..2]) == 3
    ensures Widths(r.Fields()[..3]) == 5 && Widths(r.Fields()[..4]) == 11
  {
    var f := r.Fields();
    assert f[..5] == f;
    WidthsGrow(f, 0);
    WidthsGrow(f, 1);
    WidthsGrow(f, 2);
    WidthsGrow(f, 3);
    WidthsGrow(f, 4);
  }

  function RecordBytes(r: Record): (b: seq<Byte>)
    ensures |b| == RT_HEADER_LENGTH + |r.body|
  {
    SerializedLength(r.Fields());
    RtWidths(r);
    Serialize(r.Fields()) + r.body
  }

  // The record as RFC 6347 section 4.1 lays it out.
  lemma {:induction false} RecordLayout(r: Record)
    requires r.Fits()
    ensures RecordBytes(r) ==
              [r.typ, r.version / 0x100, r.version % 0x100, r.epoch / 0x100, r.epoch % 0x100,
               r.seqNum / 0x100_0000_0000, r.seqNum / 0x1_0000_0000 % 0x100, r.seqNum / 0x100_0000 % 0x100,
               r.seqNum / 0x1_0000 % 0x100, r.seqNum / 0x100 % 0x100, r.seqNum % 0x100,
               |r.body| / 0x100, |r.body| % 0x100] + r.body
  {
    var f := r.Fields();
    TwoBytes(r.typ);
    TwoBytes(r.version);
    TwoBytes(r.epoch);
    SixBytes(r.seqNum);
    TwoBytes(|r.body|);
    assert f[1..][1..] == f[2..] && f[2..][1..] == f[3..] && f[3..][1..] == f[4..] && f[4..][1..] == [];
    assert Serialize(f[4..]) == BigEndian(|r.body|, 2) + Serialize([]);
    assert Serialize(f[3..]) == BigEndian(r.seqNum, 6) + Serialize(f[4..]);
    assert Serialize(f[2..]) == BigEndian(r.epoch, 2) + Serialize(f[3..]);
    assert Serialize(f[1..]) == BigEndian(r.version, 2) + Serialize(f[2..]);
  }

  // The header parse at the start of dtls_open_record.
  function ParseRecord(b: seq<Byte>): (r: Option<Record>)
    ensures r.Some? ==> r.value.Fits() && RT_HEADER_LENGTH + |r.value.body| <= |b|
    ensures r.Some? ==> |r.value.body| <= MAX_ENCRYPTED_LENGTH
  {
    if |b| < RT_HEADER_LENGTH then None
    else
      var len := GetBigEndian(b, 11, 2);
      ParsedRecordFits(b);
      if |b| - RT_HEADER_LENGTH < len || len > MAX_ENCRYPTED_LENGTH then None
      else Some(Record(GetBigEndian(b, 0, 1), GetBigEndian(b, 1, 2), GetBigEndian(b, 3, 2), GetBigEndian(b, 5, 6),
                       b[RT_HEADER_LENGTH..RT_HEADER_LENGTH + len]))
  }

  lemma {:induction false} ParsedRecordFits(b: seq<Byte>)
    requires |b| >= RT_HEADER_LENGTH
    ensures GetBigEndian(b, 0, 1) < 0x100 && GetBigEndian(b, 1, 2) < 0x1_0000 && GetBigEndian(b, 3, 2) < 0x1_0000
    ensures GetBigEndian(b, 5, 6) < SEQUENCE_LIMIT && GetBigEndian(b, 11, 2) < 0x1_0000
  {
    Limits();
    GetBelow(b, 0, 1);
    GetBelow(b, 1, 2);
    GetBelow(b, 3, 2);
    GetBelow(b, 5, 6);
    GetBelow(b, 11, 2);
  }

  // What parses is a record and what follows it.
  lemma {:induction false} ParsedIsRecord(b: seq<Byte>)
    requires ParseRecord(b).Some?
    ensures var r := ParseRecord(b).value; b == RecordBytes(r) + b[RT_HEADER_LENGTH + |r.body|..]
  {
    var r := ParseRecord(b).value;
    var f := r.Fields();
    FrontIsField(b, 11, 2, 13, f[4..]);
    FrontIsField(b, 5, 6, 13, f[3..]);
    FrontIsField(b, 3, 2, 13, f[2..]);
    FrontIsField(b, 1, 2, 13, f[1..]);
    FrontIsField(b, 0, 1, 13, f);
    assert b == b[0..13] + r.body + b[13 + |r.body|..];
  }

  // Bytes that are read as a field and those behind them.
  lemma {:induction false} FrontIsField(b: seq<Byte>, i: nat, w: nat, end: nat, fields: seq<HeaderField>)
    requires i + w <= end <= |b| && fields != [] && fields[0] == HeaderField(GetBigEndian(b, i, w), w)
    requires Serialize(fields[1..]) == b[i + w..end]
    ensures Serialize(fields) == b[i..end]
  {
    BigEndianOfGet(b, i, w);
    assert b[i..end] == b[i..i + w] + b[i + w..end];
  }

  lemma {:induction false} ParseRecordInverts(r: Record, rest: seq<Byte>)
    requires r.Fits()
    ensures ParseRecord(RecordBytes(r) + rest) == if |r.body| <= MAX_ENCRYPTED_LENGTH then Some(r) else None
  {
    var b := RecordBytes(r) + rest;
    var f := r.Fields();
    RtWidths(r);
    SerializedLength(f);
    assert b[0..0 + RT_HEADER_LENGTH] == Serialize(f);
    assert b[RT_HEADER_LENGTH..RT_HEADER_LENGTH + |r.body|] == r.body;
    Limits();
    FieldInverts(f, 0, b, 0);
    FieldInverts(f, 1, b, 0);
    FieldInverts(f, 2, b, 0);
    FieldInverts(f, 3, b, 0);
    FieldInverts(f, 4, b, 0);
  }
}
