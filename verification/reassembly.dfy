// Reassembly of one DTLS handshake message (hm_fragment in ssl/d1_both.cc): a byte
// buffer filled out of order and a bit mask that is dropped once every byte is there.

module Reassembly {
  import opened Words
  import opened Wire

  // Bits start..end of a byte, as the source computes them in 32-bit arithmetic.
  function BitRange(start: nat, end: nat): (b: Byte)
    requires start <= 8 && end <= 8
  {
    LowMaskFits(start);
    And(Not32(Pow2(start) - 1), Pow2(end) - 1) % 0x100
  }

  lemma {:induction false} LowMaskFits(k: nat)
    requires k <= 8
    ensures Pow2(k) <= Pow2(8) == 0x100 < Pow2(32)
  {
    if k < 8 {
      Pow2Grows(k, 8);
    }
    Pow2Grows(8, 32);
  }

  lemma {:induction false} BitOfRange(start: nat, end: nat, k: nat)
    requires start <= 8 && end <= 8 && k < 8
    ensures Bit(BitRange(start, end), k) <==> start <= k < end
  {
    LowMaskFits(start);
    BitOfRangeWord(Pow2(start) - 1, Pow2(end) - 1, k);
    BitOfLowMask(start, k);
    BitOfLowMask(end, k);
  }

  lemma {:induction false} BitOfRangeWord(low: nat, high: nat, k: nat)
    requires low < Pow2(32) && k < 8
    ensures Bit(And(Not32(low), high) % 0x100, k) <==> !Bit(low, k) && Bit(high, k)
  {
    LowMaskFits(8);
    BitOfRemainder(And(Not32(low), high), 8, k);
    BitOfAnd(Not32(low), high, k);
    BitOfComplement(low, 32, k);
  }

  // Exactly the low k bits of the byte are set.
  predicate LowBitsOnly(b: Byte, k: nat) {
    forall i :: 0 <= i < 8 ==> (Bit(b, i) <==> i < k)
  }

  lemma {:induction false} EqualsRange(b: Byte, k: nat)
    requires k <= 8
    ensures b == BitRange(0, k) <==> LowBitsOnly(b, k)
  {
    var mask := BitRange(0, k);
    forall i | 0 <= i < 8
      ensures Bit(mask, i) <==> i < k
    {
      BitOfRange(0, k, i);
    }
    if LowBitsOnly(b, k) {
      LowMaskFits(8);
      SameBits(b, mask, 8);
    }
  }

  lemma {:induction false} FullByte()
    ensures BitRange(0, 8) == 0xff
  {
    LowMaskFits(8);
    forall i | 0 <= i < 8
      ensures Bit(0xff, i) <==> i < 8
    {
      BitOfLowMask(8, i);
    }
    EqualsRange(0xff, 8);
  }

  function OrByte(a: Byte, b: Byte): (r: Byte)
  {
    LowMaskFits(8);
    OrBelow(a, b, 8);
    Or(a, b)
  }

  // Whether byte j of the message is marked.
  predicate Marked(mask: seq<Byte>, j: nat)
    requires j < 8 * |mask|
  {
    Bit(mask[j / 8], j % 8)
  }

  // Setting bits s..e of byte i marks exactly those positions.
  lemma {:induction false} OrRangeMarks(mask: seq<Byte>, i: nat, s: nat, e: nat, j: nat)
    requires i < |mask| && s <= 8 && e <= 8 && j < 8 * |mask|
    ensures Marked(mask[i := OrByte(mask[i], BitRange(s, e))], j) <==>
              Marked(mask, j) || 8 * i + s <= j < 8 * i + e
  {
    if j / 8 == i {
      BitOfOr(mask[i], BitRange(s, e), j % 8);
      BitOfRange(s, e, j % 8);
    }
  }

  // A message being reassembled: the bytes received so far by offset, and the read
  // epochs of the records that contributed to it.
  datatype Frag = Frag(typ: nat, seqNum: nat, msgLen: nat, bytes: map<nat, Byte>, epochs: set<nat>) {
    ghost predicate Complete() {
      bytes.Keys == Range(0, msgLen)
    }

    ghost function Received(fragOff: nat, body: seq<Byte>, epoch: nat): Frag {
      this.(bytes := bytes + Piece(fragOff, body), epochs := epochs + {epoch})
    }

    ghost function Body(): seq<Byte>
      requires Complete()
    {
      seq(msgLen, j requires 0 <= j < msgLen => assert Between(j, 0, msgLen); bytes[j])
    }
  }

  ghost function Piece(fragOff: nat, body: seq<Byte>): map<nat, Byte> {
    var range := Range(fragOff, fragOff + |body|);
    map j | j in range :: body[j - fragOff]
  }

  class HmFragment {
    const typ: nat
    const seqNum: nat
    const msgLen: nat
    const data: array<Byte>
    var reassembly: array?<Byte>
    ghost const mask: array?<Byte>
    ghost var epochs: set<nat>

    ghost predicate Valid()
      reads this, data, mask
    {
      && typ < 0x100 && seqNum < 0x1_0000 && msgLen < 0x100_0000
      && data.Length == HM_HEADER_LENGTH + msgLen
      && data[..HM_HEADER_LENGTH] == HeaderBytes(HmHeader(typ, msgLen, seqNum, 0, msgLen))
      && data != mask
      && (reassembly != null ==>
            && reassembly == mask
            && reassembly.Length == (msgLen + 7) / 8
            && (forall j :: msgLen <= j < 8 * reassembly.Length ==> !Marked(reassembly[..], j))
            && exists j :: 0 <= j < msgLen && !Marked(reassembly[..], j))
    }

    ghost function Repr(): set<object> {
      {this, data} + (if mask == null then {} else {mask})
    }

    // The offsets received so far. Once the mask is gone, that is all of them.
    ghost function Offsets(): set<nat>
      requires Valid()
      reads this, data, mask
    {
      set j | 0 <= j < msgLen && (reassembly == null || Marked(reassembly[..], j))
    }

    ghost function View(): Frag
      requires Valid()
      reads this, data, mask
    {
      Frag(typ, seqNum, msgLen, BytesAt(Offsets(), data[..]), epochs)
    }

    // dtls1_hm_fragment_new. The body bytes are whatever the allocator left there.
    constructor (h: HmHeader, ghost epoch: nat)
      requires h.Fits()
      ensures Valid() && fresh(Repr())
      ensures View() == Frag(h.typ, h.seqNum, h.msgLen, map[], {epoch})
    {
      typ, seqNum, msgLen := h.typ, h.seqNum, h.msgLen;
      var header := HeaderBytes(HmHeader(h.typ, h.msgLen, h.seqNum, 0, h.msgLen));
      data := new Byte[HM_HEADER_LENGTH + h.msgLen](i => if 0 <= i < |header| then header[i] else 0);
      epochs := {epoch};
      var pending: array?<Byte> := null;
      if h.msgLen > 0 {
        pending := new Byte[(h.msgLen + 7) / 8](_ => 0);
      }
      reassembly, mask := pending, pending;
      new;
      assert data[..HM_HEADER_LENGTH] == header;
      if reassembly != null {
        forall j | 0 <= j < 8 * reassembly.Length
          ensures !Marked(reassembly[..], j)
        {
          BitOfZero(j % 8);
        }
        assert !Marked(reassembly[..], 0);
      }
    }

    lemma {:induction false} PendingIsIncomplete()
      requires Valid()
      ensures reassembly == null <==> Offsets() == Range(0, msgLen)
      ensures View().Complete() <==> reassembly == null
    {
      assert View().bytes.Keys == Offsets();
      if reassembly == null {
        assert forall j :: j in Range(0, msgLen) <==> 0 <= j < msgLen && Between(j, 0, msgLen);
      } else {
        var j :| 0 <= j < msgLen && !Marked(reassembly[..], j);
        assert j !in Offsets();
        assert Between(j, 0, msgLen) && j in Range(0, msgLen);
      }
    }

    // dtls1_hm_fragment_mark. Outside its documented range it does nothing.
    method Mark(start: nat, end: nat)
      requires Valid()
      modifies this`reassembly, mask
      ensures Valid()
      ensures old(reassembly) == null || start > end || end > msgLen ==> Offsets() == old(Offsets())
      ensures old(reassembly) != null && start <= end <= msgLen ==>
                Offsets() == old(Offsets()) + Range(start, end)
      ensures reassembly == null <==> Offsets() == Range(0, msgLen)
    {
      if reassembly == null || start > end || end > msgLen {
        PendingIsIncomplete();
        return;
      }
      if start == end {
        PendingIsIncomplete();
        return;
      }
      SetRange(reassembly, start, end);
      var complete := IsFull(reassembly, msgLen);
      if !complete {
        PendingIsIncomplete();
        return;
      }
      reassembly := null;
      PendingIsIncomplete();
    }

    // The copy and the mark at the end of the loop in dtls1_open_handshake.
    method Receive(fragOff: nat, body: seq<Byte>, ghost epoch: nat)
      requires Valid() && reassembly != null
      requires fragOff + |body| <= msgLen
      modifies Repr()
      ensures Valid()
      ensures View() == old(View()).Received(fragOff, body, epoch)
    {
      ghost var offsets, was := Offsets(), data[..];
      CopyInto(data, HM_HEADER_LENGTH + fragOff, body);
      assert data[..HM_HEADER_LENGTH] == was[..HM_HEADER_LENGTH];
      assert Valid() && Offsets() == offsets;
      ghost var now := data[..];
      Mark(fragOff, fragOff + |body|);
      epochs := epochs + {epoch};
      assert data[..] == now;
      PieceStored(offsets, Offsets(), was, now, fragOff, body);
    }
  }

  // The received bytes of a buffer.
  ghost function BytesAt(offsets: set<nat>, data: seq<Byte>): map<nat, Byte>
    requires forall j :: j in offsets ==> HM_HEADER_LENGTH + j < |data|
  {
    map j | j in offsets :: data[HM_HEADER_LENGTH + j]
  }

  lemma PieceStored(before: set<nat>, after: set<nat>, was: seq<Byte>, now: seq<Byte>, fragOff: nat, body: seq<Byte>)
    requires after == before + Range(fragOff, fragOff + |body|)
    requires forall j :: j in after ==> HM_HEADER_LENGTH + j < |was|
    requires HM_HEADER_LENGTH + fragOff + |body| <= |was|
    requires now == Overwrite(was, HM_HEADER_LENGTH + fragOff, body)
    ensures BytesAt(after, now) == BytesAt(before, was) + Piece(fragOff, body)
  {
  }

  function Overwrite(a: seq<Byte>, off: nat, body: seq<Byte>): (r: seq<Byte>)
    requires off + |body| <= |a|
    ensures |r| == |a|
  {
    a[..off] + body + a[off + |body|..]
  }

  method CopyInto(a: array<Byte>, off: nat, body: seq<Byte>)
    requires off + |body| <= a.Length
    modifies a
    ensures a[..] == Overwrite(old(a[..]), off, body)
  {
    forall k | off <= k < off + |body| {
      a[k] := body[k - off];
    }
  }

  predicate Between(j: nat, start: nat, end: nat) {
    start <= j < end
  }

  function Range(start: nat, end: nat): set<nat> {
    set j | start <= j < end && Between(j, start, end)
  }

  // The three writes of dtls1_hm_fragment_mark: first byte, whole bytes, last byte.
  method SetRange(mask: array<Byte>, start: nat, end: nat)
    requires start < end <= 8 * mask.Length
    modifies mask
    ensures forall j :: 0 <= j < 8 * mask.Length ==>
              (Marked(mask[..], j) <==> Marked(old(mask[..]), j) || start <= j < end)
  {
    ghost var was := mask[..];
    if start / 8 == end / 8 {
      SetBits(mask, start / 8, start % 8, end % 8);
    } else {
      SetBits(mask, start / 8, start % 8, 8);
      FullByte();
      var i := start / 8 + 1;
      while i < end / 8
        invariant start / 8 + 1 <= i <= end / 8
        invariant forall j :: 0 <= j < 8 * mask.Length ==>
              (Marked(mask[..], j) <==> Marked(was, j) || start <= j < 8 * i)
      {
        ghost var before := mask[..];
        mask[i] := 0xff;
        assert mask[..] == before[i := 0xff];
        forall j | 0 <= j < 8 * mask.Length
          ensures Marked(mask[..], j) <==> Marked(before, j) || 8 * i <= j < 8 * i + 8
        {
          if j / 8 == i {
            BitOfRange(0, 8, j % 8);
          }
        }
        i := i + 1;
      }
      if end % 8 != 0 {
        SetBits(mask, end / 8, 0, end % 8);
      }
    }
  }

  method SetBits(mask: array<Byte>, i: nat, s: nat, e: nat)
    requires i < mask.Length && s <= 8 && e <= 8
    modifies mask
    ensures forall j :: 0 <= j < 8 * mask.Length ==>
              (Marked(mask[..], j) <==> Marked(old(mask[..]), j) || 8 * i + s <= j < 8 * i + e)
  {
    ghost var was := mask[..];
    mask[i] := OrByte(mask[i], BitRange(s, e));
    assert mask[..] == was[i := OrByte(was[i], BitRange(s, e))];
    forall j | 0 <= j < 8 * mask.Length
      ensures Marked(mask[..], j) <==> Marked(was, j) || 8 * i + s <= j < 8 * i + e
    {
      OrRangeMarks(was, i, s, e, j);
    }
  }

  // The completeness check at the end of dtls1_hm_fragment_mark.
  method IsFull(mask: array<Byte>, msgLen: nat) returns (full: bool)
    requires 0 < msgLen && mask.Length == (msgLen + 7) / 8
    requires forall j :: msgLen <= j < 8 * mask.Length ==> !Marked(mask[..], j)
    ensures full <==> forall j :: 0 <= j < msgLen ==> Marked(mask[..], j)
  {
    FullByte();
    var i := 0;
    while i < msgLen / 8
      invariant 0 <= i <= msgLen / 8
      invariant forall j :: 0 <= j < 8 * i ==> Marked(mask[..], j)
    {
      ByteIsMask(mask[..], i, 8);
      if mask[i] != 0xff {
        return false;
      }
      i := i + 1;
    }
    if msgLen % 8 != 0 {
      ByteIsMask(mask[..], msgLen / 8, msgLen % 8);
      if mask[msgLen / 8] != BitRange(0, msgLen % 8) {
        return false;
      }
    }
    return true;
  }

  lemma {:induction false} MarkedInByte(mask: seq<Byte>, i: nat, k: nat)
    requires i < |mask| && k < 8
    ensures Marked(mask, 8 * i + k) <==> Bit(mask[i], k)
  {
    assert (8 * i + k) / 8 == i && (8 * i + k) % 8 == k;
  }

  // Byte i equals the mask of its low k bits iff exactly those positions are marked.
  lemma {:induction false} ByteIsMask(mask: seq<Byte>, i: nat, k: nat)
    requires i < |mask| && k <= 8
    ensures mask[i] == BitRange(0, k) <==>
              forall j :: 8 * i <= j < 8 * i + 8 ==> (Marked(mask, j) <==> j < 8 * i + k)
  {
    EqualsRange(mask[i], k);
    if mask[i] == BitRange(0, k) {
      forall j | 8 * i <= j < 8 * i + 8
        ensures Marked(mask, j) <==> j < 8 * i + k
      {
        var b := j - 8 * i;
        MarkedInByte(mask, i, b);
        assert j == 8 * i + b;
      }
    }
    if forall j :: 8 * i <= j < 8 * i + 8 ==> (Marked(mask, j) <==> j < 8 * i + k) {
      forall b | 0 <= b < 8
        ensures Bit(mask[i], b) <==> b < k
      {
        MarkedInByte(mask, i, b);
      }
    }
  }
}
