// The read side of a DTLS connection as the source keeps it: a seven-slot ring of
// fragment objects, a bitmap, counters and flags, all updated in place. Every method
// is shown to do what the value-level receiver does.

module DtlsReader {
  import opened Wire
  import opened Ciphers
  import opened Reassembly
  import opened ReplayWindow
  import opened DtlsReceiver

  class Reader {
    var rEpoch: nat
    var cipher: Cipher
    const bitmap: Dtls1Bitmap
    var readSeq: nat
    const incoming: array<HmFragment?>
    var hasMessage: bool
    var hasCcs: bool
    const maxLen: nat
    ghost var slots: seq<Option<Frag>>
    ghost var Repr: set<object>

    ghost predicate Valid()
      reads this, Repr
    {
      RingValid() && Inv(St())
    }

    ghost predicate RingValid()
      reads this`slots, this`Repr, Repr
    {
      && Footprint()
      && bitmap.Valid()
      && |slots| == MAX_FLIGHT
      && forall i :: 0 <= i < MAX_FLIGHT ==> SlotValid(incoming[i], slots[i])
    }

    // What the reader's objects are, and that no two slots share any.
    ghost predicate Footprint()
      reads this`Repr, Repr
    {
      && {incoming, bitmap} <= Repr && this !in Repr
      && incoming.Length == MAX_FLIGHT
      && (forall i :: 0 <= i < MAX_FLIGHT && incoming[i] != null ==>
            incoming[i].Repr() <= Repr && incoming[i].Repr() !! {incoming, bitmap})
      && (forall i, j :: 0 <= i < j < MAX_FLIGHT && incoming[i] != null && incoming[j] != null ==>
            incoming[i].Repr() !! incoming[j].Repr())
    }

    ghost predicate SlotValid(f: HmFragment?, slot: Option<Frag>)
      reads if f == null then {} else f.Repr()
    {
      if f == null then slot == None else f.Valid() && slot == Some(f.View())
    }

    ghost function St(): Receiver
      reads this, bitmap
    {
      Receiver(rEpoch, cipher, bitmap.accepted, readSeq, slots, hasMessage, hasCcs)
    }

    constructor (cipher: Cipher, maxLen: nat)
      ensures Valid() && fresh(Repr)
      ensures St() == Receiver(0, cipher, {}, 0, seq(MAX_FLIGHT, _ => None), false, false)
      ensures this.maxLen == maxLen
    {
      rEpoch, readSeq, hasMessage, hasCcs := 0, 0, false, false;
      this.cipher, this.maxLen := cipher, maxLen;
      bitmap := new Dtls1Bitmap();
      incoming := new HmFragment?[MAX_FLIGHT](_ => null);
      slots := seq(MAX_FLIGHT, _ => None);
      new;
      Repr := {incoming, bitmap};
    }

    // dtls_open_record.
    method OpenRecord(b: seq<Byte>) returns (status: Status, consumed: nat, typ: nat, plain: seq<Byte>)
      requires Valid()
      modifies this, Repr
      ensures Valid() && Repr == old(Repr)
      ensures Opened(St(), status, consumed, typ, plain) == DtlsReceiver.OpenRecord(old(St()), b)
    {
      consumed, typ, plain := 0, 0, [];
      if |b| == 0 {
        return Partial, 0, 0, [];
      }
      var parsed := ParseRecord(b);
      if parsed.None? {
        return Discard, |b|, 0, [];
      }
      var rec := parsed.value;
      var versionOk: bool;
      if cipher.isNull {
        versionOk := rec.version / 0x100 == DTLS1_VERSION_MAJOR;
      } else {
        versionOk := rec.version == cipher.version;
      }
      if !versionOk {
        return Discard, |b|, 0, [];
      }
      var seq64 := Sequence64(rec.epoch, rec.seqNum);
      consumed := RT_HEADER_LENGTH + |rec.body|;
      var replay := bitmap.ShouldDiscard(seq64);
      if rec.epoch != rEpoch || replay {
        return Discard, consumed, 0, [];
      }
      var result := cipher.Open(rec.typ, rec.version, seq64, rec.body);
      if result.None? {
        return Discard, consumed, 0, [];
      }
      if |result.value| > MAX_PLAIN_LENGTH {
        return Error(RecordOverflow), consumed, 0, [];
      }
      bitmap.Record(seq64);
      AcceptKeepsInv(old(St()), St());
      typ, plain := rec.typ, result.value;
      if rec.typ == RT_ALERT {
        return AlertRecord, consumed, typ, plain;
      }
      status := Success;
    }

    // dtls1_get_incoming_message.
    method GetIncomingMessage(h: HmHeader) returns (frag: HmFragment?, alert: Alert)
      requires Valid() && h.Fits()
      modifies this, Repr
      ensures RingValid() && fresh(Repr - old(Repr))
      ensures (St(), if frag == null then Some(alert) else None) == GetIncoming(old(St()), h)
      ensures frag != null ==> frag == incoming[h.seqNum % MAX_FLIGHT]
    {
      alert := InternalError;
      if h.seqNum < readSeq || h.seqNum - readSeq >= MAX_FLIGHT {
        return null, InternalError;
      }
      var idx := h.seqNum % MAX_FLIGHT;
      frag := incoming[idx];
      if frag != null {
        SlotHoldsOneMessage(St(), h);
        assert frag.seqNum == h.seqNum;
        if frag.typ != h.typ || frag.msgLen != h.msgLen {
          return null, IllegalParameter;
        }
        return frag, alert;
      }
      frag := StartMessage(h, idx);
    }

    // Puts a new message in an empty slot of the ring.
    method StartMessage(h: HmHeader, idx: nat) returns (frag: HmFragment)
      requires RingValid() && h.Fits() && idx < MAX_FLIGHT && incoming[idx] == null
      modifies this, Repr
      ensures RingValid() && fresh(Repr - old(Repr)) && frag == incoming[idx]
      ensures St() == old(St()).(slots := old(slots)[idx := Some(Frag(h.typ, h.seqNum, h.msgLen, map[], {rEpoch}))])
    {
      frag := new HmFragment(h, rEpoch);
      incoming[idx] := frag;
      slots := slots[idx := Some(frag.View())];
      Repr := Repr + frag.Repr();
      assert forall i :: 0 <= i < MAX_FLIGHT && i != idx ==>
          incoming[i] == old(incoming[i]) && old(SlotValid(incoming[i], slots[i]));
    }

    // One round of the fragment loop.
    method ReceiveFragment(frag: Fragment) returns (ok: bool, alert: Alert)
      requires Valid() && frag.header.Fits() && frag.header.fragLen == |frag.body|
      modifies this, Repr
      ensures Valid() && fresh(Repr - old(Repr))
      ensures (St(), if ok then None else Some(alert)) == DtlsReceiver.ReceiveFragment(old(St()), frag, maxLen)
    {
      ReceiveFragmentKeepsInv(St(), frag, maxLen);
      var h := frag.header;
      if h.fragOff > h.msgLen || h.fragOff + h.fragLen > h.msgLen || h.msgLen > maxLen {
        return false, IllegalParameter;
      }
      // The encrypted epoch has only one handshake message.
      if rEpoch == 1 && h.seqNum != readSeq {
        return false, UnexpectedMessage;
      }
      // Fragments from the past, or too far in the future, are ignored. This guard lets
      // readSeq + 7 through; the next one rejects it.
      if h.seqNum < readSeq || h.seqNum > readSeq + MAX_FLIGHT {
        return true, InternalError;
      }
      ok, alert := TakeFragment(frag);
    }

    // The end of the round, behind the guards.
    method TakeFragment(frag: Fragment) returns (ok: bool, alert: Alert)
      requires Valid() && frag.header.Fits() && frag.header.fragLen == |frag.body|
      requires frag.header.fragOff + frag.header.fragLen <= frag.header.msgLen
      modifies this, Repr
      ensures RingValid() && fresh(Repr - old(Repr))
      ensures (St(), if ok then None else Some(alert)) == DtlsReceiver.TakeFragment(old(St()), frag)
    {
      var msg: HmFragment?;
      msg, alert := GetIncomingMessage(frag.header);
      if msg == null {
        return false, alert;
      }
      ok := true;
      StoreFragment(frag.header.seqNum % MAX_FLIGHT, msg, frag);
    }

    // The end of the round: a message already assembled is left alone.
    method StoreFragment(idx: nat, msg: HmFragment, frag: Fragment)
      requires RingValid() && idx < MAX_FLIGHT && msg == incoming[idx]
      requires frag.header.fragOff + |frag.body| <= msg.msgLen
      modifies msg.Repr(), this`slots
      ensures RingValid()
      ensures St() == old(if slots[idx].value.Complete() then St()
                          else St().(slots := slots[
                            idx := Some(slots[idx].value.Received(frag.header.fragOff, frag.body, rEpoch))]))
    {
      assert SlotValid(msg, slots[idx]);
      msg.PendingIsIncomplete();
      if msg.reassembly == null {
        return;
      }
      msg.Receive(frag.header.fragOff, frag.body, rEpoch);
      slots := slots[idx := Some(msg.View())];
    }

    // The fragment loop of dtls1_open_handshake.
    method ReceiveFragments(record: seq<Byte>) returns (ok: bool, alert: Alert)
      requires Valid()
      modifies this, Repr
      ensures Valid() && fresh(Repr - old(Repr))
      ensures (St(), if ok then None else Some(alert)) == DtlsReceiver.ReceiveFragments(old(St()), record, maxLen)
    {
      var rest := record;
      ok, alert := true, InternalError;
      while |rest| > 0
        invariant Valid() && fresh(Repr - old(Repr))
        invariant DtlsReceiver.ReceiveFragments(St(), rest, maxLen) ==
                  DtlsReceiver.ReceiveFragments(old(St()), record, maxLen)
        decreases |rest|
      {
        var frag := ParseFragment(rest);
        if frag.None? {
          return false, DecodeError;
        }
        ok, alert := ReceiveFragment(frag.value);
        if !ok {
          return;
        }
        rest := rest[HM_HEADER_LENGTH + |frag.value.body|..];
      }
      ok := true;
    }

    // dtls1_open_handshake.
    method OpenHandshake(b: seq<Byte>) returns (status: Status, consumed: nat)
      requires Valid()
      modifies this, Repr
      ensures Valid() && fresh(Repr - old(Repr))
      ensures (St(), status, consumed) == DtlsReceiver.OpenHandshake(old(St()), b, maxLen)
    {
      var typ, plain;
      status, consumed, typ, plain := OpenRecord(b);
      if status != Success {
        return;
      }
      if typ == RT_APPLICATION_DATA {
        if cipher.isNull {
          return Error(UnexpectedMessage), consumed;
        }
        return Discard, consumed;
      }
      if typ == RT_CHANGE_CIPHER_SPEC {
        if !cipher.isNull {
          return Error(UnexpectedMessage), consumed;
        }
        if plain != [MT_CCS] {
          return Error(IllegalParameter), consumed;
        }
        ghost var before := St();
        hasCcs := true;
        AcceptKeepsInv(before, St());
        return Success, consumed;
      }
      if typ != RT_HANDSHAKE {
        return Error(UnexpectedMessage), consumed;
      }
      var ok, alert := ReceiveFragments(plain);
      if !ok {
        return Error(alert), consumed;
      }
      status := Success;
    }

    // dtls1_get_message.
    method GetMessage() returns (msg: Option<Message>)
      requires Valid()
      modifies this
      ensures Valid() && Repr == old(Repr)
      ensures (St(), msg) == DtlsReceiver.GetMessage(old(St()))
    {
      var frag := incoming[readSeq % MAX_FLIGHT];
      if frag == null {
        return None;
      }
      frag.PendingIsIncomplete();
      if frag.reassembly != null {
        return None;
      }
      hasMessage := true;
      assert frag.data[HM_HEADER_LENGTH..] == frag.View().Body();
      msg := Some(Message(frag.typ, frag.data[HM_HEADER_LENGTH..]));
    }

    method DropSlot(idx: nat)
      requires RingValid() && idx < MAX_FLIGHT
      modifies incoming, this`slots
      ensures RingValid() && St() == old(St()).(slots := old(slots)[idx := None])
    {
      incoming[idx] := null;
      slots := slots[idx := None];
    }

    // dtls1_next_message.
    method NextMessage()
      requires Valid() && hasMessage
      modifies this, Repr
      ensures Valid() && Repr == old(Repr)
      ensures St() == DtlsReceiver.NextMessage(old(St()))
    {
      NextMessageKeepsInv(St());
      var idx := readSeq % MAX_FLIGHT;
      ghost var next := DtlsReceiver.NextMessage(St());
      DropSlot(idx);
      readSeq := (readSeq + 1) % 0x1_0000;
      hasMessage := false;
      assert St() == next;
    }

    // dtls_has_unprocessed_handshake_data.
    method HasUnprocessedData() returns (left: bool)
      requires Valid()
      ensures left <==> HasUnprocessed(St())
    {
      if hasCcs {
        return true;
      }
      var current := readSeq % MAX_FLIGHT;
      var i := 0;
      while i < MAX_FLIGHT
        invariant 0 <= i <= MAX_FLIGHT
        invariant forall k :: 0 <= k < i && !(hasMessage && k == current) ==> slots[k].None?
      {
        assert SlotValid(incoming[i], slots[i]);
        if !(hasMessage && i == current) && incoming[i] != null {
          return true;
        }
        i := i + 1;
      }
      left := false;
    }

    // dtls1_set_read_state.
    method SetReadState(newCipher: Cipher) returns (ok: bool)
      requires Valid()
      modifies this, Repr
      ensures Valid() && Repr == old(Repr)
      ensures (St(), ok) == DtlsReceiver.SetReadState(old(St()), newCipher)
    {
      SetReadStateKeepsInv(St(), newCipher);
      var left := HasUnprocessedData();
      if left {
        return false;
      }
      ghost var next := DtlsReceiver.SetReadState(St(), newCipher).0;
      bitmap.Clear();
      assert RingValid();
      rEpoch := (rEpoch + 1) % 0x1_0000;
      cipher := newCipher;
      ok := true;
      assert St() == next;
    }

    // dtls1_open_change_cipher_spec.
    method OpenChangeCipherSpec(b: seq<Byte>) returns (status: Status, consumed: nat)
      requires Valid()
      modifies this, Repr
      ensures Valid() && fresh(Repr - old(Repr))
      ensures (St(), status, consumed) == DtlsReceiver.OpenChangeCipherSpec(old(St()), b, maxLen)
    {
      consumed := 0;
      if !hasCcs {
        status, consumed := OpenHandshake(b);
        if status != Success {
          return;
        }
      }
      if hasCcs {
        ghost var before := St();
        hasCcs := false;
        AcceptKeepsInv(before, St());
        return Success, consumed;
      }
      status := Discard;
    }
  }
}
