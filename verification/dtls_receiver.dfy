// The receiving half of the DTLS handshake transport, as values: what dtls_open_record
// and dtls1_open_handshake do to the read state (ssl/dtls_record.cc, ssl/d1_both.cc).

module DtlsReceiver {
  import opened Wire
  import opened Reassembly
  import opened ReplayWindow
  import opened Ciphers

  datatype Alert = UnexpectedMessage | IllegalParameter | DecodeError | InternalError | RecordOverflow

  datatype Receiver = Receiver(
    rEpoch: nat,
    cipher: Cipher,
    accepted: set<nat>,
    readSeq: nat,
    slots: seq<Option<Frag>>,
    hasMessage: bool,
    hasCcs: bool)

  datatype Message = Message(typ: nat, body: seq<Byte>)

  datatype Status = Success | Discard | Partial | AlertRecord | Error(alert: Alert)

  ghost predicate CurrentComplete(r: Receiver)
    requires |r.slots| == MAX_FLIGHT
  {
    var slot := r.slots[r.readSeq % MAX_FLIGHT];
    slot.Some? && slot.value.Complete()
  }

  // Every occupied slot i holds a message of the current window with number i modulo
  // the ring size, built from the records of one epoch; unfinished ones are of this epoch.
  ghost predicate SlotOk(r: Receiver, i: nat, f: Frag) {
    && f.seqNum % MAX_FLIGHT == i
    && r.readSeq <= f.seqNum < r.readSeq + MAX_FLIGHT
    && f.typ < 0x100 && f.msgLen < 0x100_0000 && f.seqNum < 0x1_0000
    && (exists e :: f.epochs == {e})
    && f.bytes.Keys <= Range(0, f.msgLen)
    && (f.Complete() || f.epochs == {r.rEpoch})
  }

  ghost predicate Inv(r: Receiver) {
    && r.rEpoch < 0x1_0000 && r.readSeq < 0x1_0000
    && |r.slots| == MAX_FLIGHT
    && (forall i :: 0 <= i < MAX_FLIGHT && r.slots[i].Some? ==> SlotOk(r, i, r.slots[i].value))
    && (r.hasMessage ==> CurrentComplete(r))
  }

  // dtls1_get_incoming_message, for a fragment the window admits.
  ghost function GetIncoming(r: Receiver, h: HmHeader): (res: (Receiver, Option<Alert>))
    requires |r.slots| == MAX_FLIGHT
  {
    if h.seqNum < r.readSeq || h.seqNum - r.readSeq >= MAX_FLIGHT then (r, Some(InternalError))
    else
      var idx := h.seqNum % MAX_FLIGHT;
      match r.slots[idx]
      case Some(f) =>
        if f.typ != h.typ || f.msgLen != h.msgLen then (r, Some(IllegalParameter)) else (r, None)
      case None =>
        (r.(slots := r.slots[idx := Some(Frag(h.typ, h.seqNum, h.msgLen, map[], {r.rEpoch}))]), None)
  }

  // One round of the loop in dtls1_open_handshake.
  ghost function ReceiveFragment(r: Receiver, frag: Fragment, maxLen: nat): (res: (Receiver, Option<Alert>))
    requires |r.slots| == MAX_FLIGHT
  {
    var h := frag.header;
    if h.fragOff > h.msgLen || h.fragOff + h.fragLen > h.msgLen || h.msgLen > maxLen then (r, Some(IllegalParameter))
    else if r.rEpoch == 1 && h.seqNum != r.readSeq then (r, Some(UnexpectedMessage))
    else if h.seqNum < r.readSeq || h.seqNum > r.readSeq + MAX_FLIGHT then (r, None)
    else TakeFragment(r, frag)
  }

  // The end of that round, behind its guards.
  ghost function TakeFragment(r: Receiver, frag: Fragment): (res: (Receiver, Option<Alert>))
    requires |r.slots| == MAX_FLIGHT
  {
    var h := frag.header;
    var (r', alert) := GetIncoming(r, h);
    if alert.Some? then (r', alert)
    else
      var idx := h.seqNum % MAX_FLIGHT;
      var f := r'.slots[idx].value;
      if f.Complete() then (r', None)
      else (r'.(slots := r'.slots[idx := Some(f.Received(h.fragOff, frag.body, r.rEpoch))]), None)
  }

  lemma SlotsKept(r: Receiver, frag: Fragment, maxLen: nat)
    requires |r.slots| == MAX_FLIGHT
    ensures |ReceiveFragment(r, frag, maxLen).0.slots| == MAX_FLIGHT
  {
  }

  // The loop: fragments are taken from the record until it is empty or one is bad.
  ghost function ReceiveFragments(r: Receiver, b: seq<Byte>, maxLen: nat): (res: (Receiver, Option<Alert>))
    requires |r.slots| == MAX_FLIGHT
    decreases |b|
  {
    if |b| == 0 then (r, None)
    else
      var frag := ParseFragment(b);
      if frag.None? then (r, Some(DecodeError))
      else
        var (r', alert) := ReceiveFragment(r, frag.value, maxLen);
        SlotsKept(r, frag.value, maxLen);
        if alert.Some? then (r', alert)
        else ReceiveFragments(r', b[HM_HEADER_LENGTH + |frag.value.body|..], maxLen)
  }

  datatype Opened = Opened(receiver: Receiver, status: Status, consumed: nat, typ: nat, plain: seq<Byte>)

  // dtls_open_record. A record that does not parse or has the wrong version takes the
  // rest of the datagram with it; any other bad record is dropped alone.
  ghost function OpenRecord(r: Receiver, b: seq<Byte>): (o: Opened)
    ensures o.consumed <= |b|
    ensures o.receiver == r.(accepted := o.receiver.accepted)
  {
    if |b| == 0 then Opened(r, Partial, 0, 0, [])
    else
      var parsed := ParseRecord(b);
      if parsed.None? then Opened(r, Discard, |b|, 0, [])
      else
        var rec := parsed.value;
        var used := RT_HEADER_LENGTH + |rec.body|;
        var seq64 := Sequence64(rec.epoch, rec.seqNum);
        var versionOk := if r.cipher.isNull then rec.version / 0x100 == DTLS1_VERSION_MAJOR
                         else rec.version == r.cipher.version;
        if !versionOk then Opened(r, Discard, |b|, 0, [])
        else if rec.epoch != r.rEpoch || Rejects(r.accepted, seq64) then Opened(r, Discard, used, 0, [])
        else
          match r.cipher.Open(rec.typ, rec.version, seq64, rec.body)
          case None => Opened(r, Discard, used, 0, [])
          case Some(plain) =>
            if |plain| > MAX_PLAIN_LENGTH then Opened(r, Error(RecordOverflow), used, 0, [])
            else
              var r' := r.(accepted := r.accepted + {seq64});
              if rec.typ == RT_ALERT then Opened(r', AlertRecord, used, RT_ALERT, plain)
              else Opened(r', Success, used, rec.typ, plain)
  }

  // dtls1_open_handshake.
  ghost function OpenHandshake(r: Receiver, b: seq<Byte>, maxLen: nat): (res: (Receiver, Status, nat))
    requires |r.slots| == MAX_FLIGHT
    ensures res.2 <= |b|
  {
    var o := OpenRecord(r, b);
    if o.status != Success then (o.receiver, o.status, o.consumed)
    else if o.typ == RT_APPLICATION_DATA then
      (o.receiver, if r.cipher.isNull then Error(UnexpectedMessage) else Discard, o.consumed)
    else if o.typ == RT_CHANGE_CIPHER_SPEC then
      if !r.cipher.isNull then (o.receiver, Error(UnexpectedMessage), o.consumed)
      else if o.plain != [MT_CCS] then (o.receiver, Error(IllegalParameter), o.consumed)
      else (o.receiver.(hasCcs := true), Success, o.consumed)
    else if o.typ != RT_HANDSHAKE then (o.receiver, Error(UnexpectedMessage), o.consumed)
    else
      var (r', alert) := ReceiveFragments(o.receiver, o.plain, maxLen);
      (r', if alert.Some? then Error(alert.value) else Success, o.consumed)
  }

  // dtls1_get_message.
  ghost function GetMessage(r: Receiver): (res: (Receiver, Option<Message>))
    requires |r.slots| == MAX_FLIGHT
  {
    if !CurrentComplete(r) then (r, None)
    else
      var f := r.slots[r.readSeq % MAX_FLIGHT].value;
      (r.(hasMessage := true), Some(Message(f.typ, f.Body())))
  }

  // dtls1_next_message. The message number is a 16-bit field and wraps.
  ghost function NextMessage(r: Receiver): Receiver
    requires |r.slots| == MAX_FLIGHT && r.hasMessage && CurrentComplete(r)
  {
    r.(slots := r.slots[r.readSeq % MAX_FLIGHT := None],
       readSeq := (r.readSeq + 1) % 0x1_0000,
       hasMessage := false)
  }

  // dtls_has_unprocessed_handshake_data.
  ghost predicate HasUnprocessed(r: Receiver)
    requires |r.slots| == MAX_FLIGHT
  {
    r.hasCcs ||
    exists i :: 0 <= i < MAX_FLIGHT && !(r.hasMessage && i == r.readSeq % MAX_FLIGHT) && r.slots[i].Some?
  }

  // dtls1_set_read_state.
  ghost function SetReadState(r: Receiver, cipher: Cipher): (res: (Receiver, bool))
    requires |r.slots| == MAX_FLIGHT
  {
    if HasUnprocessed(r) then (r, false)
    else (r.(rEpoch := (r.rEpoch + 1) % 0x1_0000, accepted := {}, cipher := cipher), true)
  }

  // dtls1_open_change_cipher_spec.
  ghost function OpenChangeCipherSpec(r: Receiver, b: seq<Byte>, maxLen: nat): (res: (Receiver, Status, nat))
    requires |r.slots| == MAX_FLIGHT
    ensures res.2 <= |b|
  {
    var (r', status, consumed) := if r.hasCcs then (r, Success, 0) else OpenHandshake(r, b, maxLen);
    if status != Success then (r', status, consumed)
    else if r'.hasCcs then (r'.(hasCcs := false), Success, consumed)
    else (r', Discard, consumed)
  }

  lemma {:induction false} ReceiveFragmentKeepsInv(r: Receiver, frag: Fragment, maxLen: nat)
    requires Inv(r) && frag.header.Fits() && frag.header.fragLen == |frag.body|
    ensures Inv(ReceiveFragment(r, frag, maxLen).0)
  {
    var h := frag.header;
    var r' := ReceiveFragment(r, frag, maxLen).0;
    if r' != r {
      var idx := h.seqNum % MAX_FLIGHT;
      var f := if r.slots[idx].Some? then r.slots[idx].value else Frag(h.typ, h.seqNum, h.msgLen, map[], {r.rEpoch});
      if r.slots[idx].Some? {
        assert SlotOk(r, idx, f);
      }
      SlotReplaced(r, idx, f);
      if !f.Complete() {
        PieceKeepsSlot(r, idx, f, frag);
        SlotReplaced(r, idx, f.Received(h.fragOff, frag.body, r.rEpoch));
      }
    }
  }

  lemma {:induction false} PieceKeepsSlot(r: Receiver, idx: nat, f: Frag, frag: Fragment)
    requires SlotOk(r, idx, f) && !f.Complete() && frag.header.fragOff + |frag.body| <= f.msgLen
    ensures SlotOk(r, idx, f.Received(frag.header.fragOff, frag.body, r.rEpoch))
  {
  }

  lemma {:induction false} SlotReplaced(r: Receiver, idx: nat, f: Frag)
    requires Inv(r) && idx < MAX_FLIGHT && SlotOk(r, idx, f)
    requires idx == r.readSeq % MAX_FLIGHT && r.hasMessage ==> f.Complete()
    ensures Inv(r.(slots := r.slots[idx := Some(f)]))
  {
    var r' := r.(slots := r.slots[idx := Some(f)]);
    forall i | 0 <= i < MAX_FLIGHT && r'.slots[i].Some?
      ensures SlotOk(r', i, r'.slots[i].value)
    {
      if i != idx {
        assert SlotOk(r, i, r.slots[i].value);
      }
    }
  }

  // Two numbers of the window never share a slot, which is what the source asserts
  // when it finds a slot taken.
  lemma {:induction false} SlotHoldsOneMessage(r: Receiver, h: HmHeader)
    requires Inv(r) && r.readSeq <= h.seqNum < r.readSeq + MAX_FLIGHT
    requires r.slots[h.seqNum % MAX_FLIGHT].Some?
    ensures r.slots[h.seqNum % MAX_FLIGHT].value.seqNum == h.seqNum
  {
    assert SlotOk(r, h.seqNum % MAX_FLIGHT, r.slots[h.seqNum % MAX_FLIGHT].value);
  }

  lemma {:induction false} ReceiveFragmentsKeepsInv(r: Receiver, b: seq<Byte>, maxLen: nat)
    requires Inv(r)
    ensures Inv(ReceiveFragments(r, b, maxLen).0)
    decreases |b|
  {
    var frag := ParseFragment(b);
    if |b| > 0 && frag.Some? {
      ReceiveFragmentKeepsInv(r, frag.value, maxLen);
      var (r', alert) := ReceiveFragment(r, frag.value, maxLen);
      if alert.None? {
        ReceiveFragmentsKeepsInv(r', b[HM_HEADER_LENGTH + |frag.value.body|..], maxLen);
      }
    }
  }

  // The invariant does not depend on the replay window or the ChangeCipherSpec flag.
  lemma {:induction false} AcceptKeepsInv(r: Receiver, r': Receiver)
    requires Inv(r) && r' == r.(accepted := r'.accepted, hasCcs := r'.hasCcs)
    ensures Inv(r')
  {
    forall i | 0 <= i < MAX_FLIGHT && r.slots[i].Some?
      ensures SlotOk(r', i, r.slots[i].value)
    {
      assert SlotOk(r, i, r.slots[i].value);
    }
  }

  lemma {:induction false} OpenHandshakeKeepsInv(r: Receiver, b: seq<Byte>, maxLen: nat)
    requires Inv(r)
    ensures Inv(OpenHandshake(r, b, maxLen).0)
  {
    var o := OpenRecord(r, b);
    AcceptKeepsInv(r, o.receiver);
    if o.status == Success && o.typ == RT_HANDSHAKE {
      ReceiveFragmentsKeepsInv(o.receiver, o.plain, maxLen);
    }
  }

  // Delivering moves the window by one. At 65535 the ring is empty behind the current
  // message, so the wrap to 0 leaves nothing out of place.
  lemma {:induction false} NextMessageKeepsInv(r: Receiver)
    requires Inv(r) && r.hasMessage
    ensures Inv(NextMessage(r))
  {
    var r' := NextMessage(r);
    forall i | 0 <= i < MAX_FLIGHT && r'.slots[i].Some?
      ensures SlotOk(r', i, r'.slots[i].value)
    {
      assert SlotOk(r, i, r.slots[i].value);
    }
  }

  // A cipher change goes through only when nothing but the current message is held,
  // so no unfinished message ever sees a second epoch.
  lemma {:induction false} SetReadStateKeepsInv(r: Receiver, cipher: Cipher)
    requires Inv(r)
    ensures Inv(SetReadState(r, cipher).0)
    ensures SetReadState(r, cipher).1 ==>
              forall i :: 0 <= i < MAX_FLIGHT && r.slots[i].Some? ==>
                i == r.readSeq % MAX_FLIGHT && r.slots[i].value.Complete()
  {
    var (r', ok) := SetReadState(r, cipher);
    if ok {
      forall i | 0 <= i < MAX_FLIGHT && r'.slots[i].Some?
        ensures SlotOk(r', i, r'.slots[i].value)
      {
        assert SlotOk(r, i, r.slots[i].value);
      }
    }
  }
}
